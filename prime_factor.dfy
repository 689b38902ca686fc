/** `find_max_prime_factor` and `sieve_of_eratosthenes`
    (exercises/hard/solutiont2/src/prime_factor.rs): strip the factors 2 and
    3, divide out the primes up to the square root found by a sieve, then
    try a wheel of candidates from the last sieved prime upwards. */
module PrimeFactor {
  import Arith
  import Primes

  /** n with every factor p divided out. */
  function Strip(n: nat, p: nat): (r: nat)
    requires n >= 1 && p >= 2
    ensures 1 <= r <= n && r % p != 0 && n % r == 0
    decreases n
  {
    if n % p == 0 then
      var q := n / p;
      DivideOut(n, n, p);
      var r := Strip(q, p);
      Primes.DividesTrans(r, q, n);
      r
    else
      Primes.MulMod(1, n);
      n
  }

  /** What holds while `number` is divided down from `n0`: it stays a
      divisor of `n0`, `max_prime` is 0 until the first division and a
      divisor of `n0` from then on, and a prime `n0` is either untouched or
      fully divided out (leaving 1 and `max_prime == n0`). */
  predicate Progress(n0: nat, number: nat, maxPrime: nat)
  {
    && 1 <= number <= n0 && n0 % number == 0
    && (maxPrime == 0 ==> number == n0)
    && (maxPrime != 0 ==> maxPrime >= 2 && n0 % maxPrime == 0)
    && (Primes.IsPrime(n0) ==> (number == n0 && maxPrime == 0) || (number == 1 && maxPrime == n0))
  }

  /** `max_prime = c; number /= c` for a divisor c >= 2 keeps Progress. */
  lemma DivideStep(n0: nat, number: nat, maxPrime: nat, c: nat)
    requires Progress(n0, number, maxPrime) && c >= 2 && number % c == 0
    ensures Progress(n0, number / c, c) && number / c < number
    ensures number % 2 != 0 ==> (number / c) % 2 != 0
  {
    var q := number / c;
    DivideOut(n0, number, c);
    OddDivisor(number, q);
    if Primes.IsPrime(n0) {
      PrimeDivisor(n0, number, c);
    }
  }

  /** A divisor of an odd number is odd. */
  lemma OddDivisor(x: nat, r: nat)
    requires r >= 1 && x % r == 0
    ensures x % 2 != 0 ==> r % 2 != 0
  {
    if r % 2 == 0 {
      Primes.DividesTrans(2, r, x);
    }
  }

  /** `while number % prime == 0 { max_prime = prime; number /= prime; }` */
  method DivideAll(ghost n0: nat, number0: nat, prime: nat, maxPrime0: nat)
    returns (number: nat, maxPrime: nat)
    requires prime >= 2 && Progress(n0, number0, maxPrime0)
    ensures Progress(n0, number, maxPrime) && number == Strip(number0, prime) && number <= number0
    ensures number0 % 2 != 0 ==> number % 2 != 0
  {
    number, maxPrime := number0, maxPrime0;
    while number % prime == 0
      invariant Progress(n0, number, maxPrime) && Strip(number, prime) == Strip(number0, prime)
      invariant number <= number0 && (number0 % 2 != 0 ==> number % 2 != 0)
      decreases number
    {
      DivideStep(n0, number, maxPrime, prime);
      maxPrime := prime;
      number := number / prime;
    }
  }

  /** `find_max_prime_factor`. The source needs the number left after
      stripping 2 and 3 to be at least 4: below that the sieve limit is 0 or
      1, and the sieve either indexes out of range or returns no prime for
      `last().unwrap()`. The input 0 makes the first loop run forever. The
      result divides the input, and a prime input is its own result. */
  method FindMaxPrimeFactor(number0: nat) returns (maxPrime: nat)
    requires number0 >= 1 && Strip(Strip(number0, 2), 3) >= 4
    ensures maxPrime >= 2 && number0 % maxPrime == 0
    ensures Primes.IsPrime(number0) ==> maxPrime == number0
  {
    Primes.MulMod(1, number0);
    var number := number0;
    maxPrime := 0;
    var twoThree := [2, 3];
    for w := 0 to 2
      invariant Progress(number0, number, maxPrime)
      invariant number == if w == 0 then number0 else if w == 1 then Strip(number0, 2) else Strip(Strip(number0, 2), 3)
    {
      number, maxPrime := DivideAll(number0, number, twoThree[w], maxPrime);
    }
    OddDivisor(Strip(number0, 2), number);
    assert number % 2 != 0 && number % 3 != 0;

    var limit := Arith.Isqrt(number);
    if limit > 1_000_000 {
      limit := 1_000_000;
    }
    var smallPrimes := Sieve(limit);
    assert Primes.IsPrime(2);
    assert |smallPrimes| >= 1;
    for k := 0 to |smallPrimes|
      invariant Progress(number0, number, maxPrime) && number % 2 != 0
    {
      if number == 1 {
        break;
      }
      assert smallPrimes[k] in smallPrimes;
      number, maxPrime := DivideAll(number0, number, smallPrimes[k], maxPrime);
    }

    var last := smallPrimes[|smallPrimes| - 1];
    assert last in smallPrimes;
    number, maxPrime := WheelSearch(number0, number, maxPrime, last);
    if number > 2 {
      maxPrime := number;
    }
  }

  /** The search above the sieved primes: `factor` starts at the last sieved
      prime, or at its square when the root of `number` lies beyond it, and
      steps by 8 trying `factor + 0, 2, 4, 6`, dividing by the first that
      divides. */
  method WheelSearch(ghost n0: nat, number0: nat, maxPrime0: nat, last: nat)
    returns (number: nat, maxPrime: nat)
    requires last >= 2 && Progress(n0, number0, maxPrime0) && number0 % 2 != 0
    ensures Progress(n0, number, maxPrime) && number % 2 != 0
  {
    number, maxPrime := number0, maxPrime0;
    Primes.MulOrder(last, 1, last);
    var factor := if Arith.Isqrt(number) > last then last * last else last;
    while factor * factor <= number
      invariant factor >= 2 && Progress(n0, number, maxPrime) && number % 2 != 0
      decreases number - factor
    {
      Primes.MulOrder(factor, 1, factor);
      ghost var before := number;
      var offsets := [0, 2, 4, 6];
      for o := 0 to 4
        invariant Progress(n0, number, maxPrime) && number % 2 != 0 && number <= before
      {
        var candidate := factor + offsets[o];
        if number % candidate == 0 {
          DivideStep(n0, number, maxPrime, candidate);
          maxPrime := candidate;
          number := number / candidate;
          break;
        }
      }
      factor := factor + 8;
    }
  }

  /** Dividing a divisor of n0 by one of its own divisors c >= 2 leaves a
      smaller divisor of n0, and c divides n0 too. */
  lemma DivideOut(n0: nat, number: nat, c: nat)
    requires number >= 1 && c >= 2 && n0 % number == 0 && number % c == 0
    ensures 1 <= number / c < number && c <= number
    ensures number % (number / c) == 0 && n0 % (number / c) == 0 && n0 % c == 0
  {
    var q := number / c;
    assert number == c * q;
    Primes.MulOrder(c, 1, q);
    Primes.MulOrder(q, 2, c);
    assert q * c == c * q;
    Primes.MulMod(c, q);
    Primes.DividesTrans(q, number, n0);
    Primes.DividesTrans(c, number, n0);
  }

  /** A divisor c >= 2 of a prime is the prime itself. */
  lemma PrimeDivisor(n0: nat, number: nat, c: nat)
    requires number >= 1 && c >= 2 && Primes.IsPrime(n0) && n0 % number == 0 && number % c == 0
    ensures c == n0 && number == n0 && number / c == 1
  {
    DivideOut(n0, number, c);
    Primes.MulMod(1, n0);
    DivideOut(n0, n0, c);
    DivideOut(n0, n0, number);
    Primes.MulMod(1, c);
    assert c * 1 == c;
  }

  /** `sieve_of_eratosthenes(limit)`: the primes up to `limit`, ascending.
      The source indexes `is_prime[1]`, so a limit of 0 is out of range. */
  method Sieve(limit: nat) returns (primes: seq<nat>)
    requires limit >= 1
    ensures forall p: nat :: p in primes <==> p <= limit && Primes.IsPrime(p)
    ensures forall i, j :: 0 <= i < j < |primes| ==> primes[i] < primes[j]
  {
    var isPrime := new bool[limit + 1](_ => true);
    isPrime[0] := false;
    isPrime[1] := false;
    var root := Arith.Isqrt(limit);
    Primes.MulOrder(root, 1, root);
    for i := 2 to root + 1
      invariant forall k :: 0 <= k <= limit ==> (isPrime[k] <==> k >= 2 && Primes.NoFactorBelow(k, i))
    {
      if isPrime[i] {
        Arith.MonotoneSquare(i, root);
        CrossOff(isPrime, limit, i);
      } else {
        forall k | 0 <= k <= limit
          ensures isPrime[k] <==> k >= 2 && Primes.NoFactorBelow(k, i + 1)
        {
          ExtendFactor(k, i);
          SkipComposite(k, i);
        }
      }
    }
    primes := Collect(isPrime, limit, root);
  }

  /** The inner loop for a prime i: cross off i * i, i * i + i, ... up to
      the limit, which leaves marked the numbers with no factor below
      i + 1. */
  method CrossOff(isPrime: array<bool>, limit: nat, i: nat)
    requires isPrime.Length == limit + 1 && 2 <= i && i * i <= limit
    requires forall k :: 0 <= k <= limit ==> (isPrime[k] <==> k >= 2 && Primes.NoFactorBelow(k, i))
    modifies isPrime
    ensures forall k :: 0 <= k <= limit ==> (isPrime[k] <==> k >= 2 && Primes.NoFactorBelow(k, i + 1))
  {
    var j := i * i;
    Primes.MulMod(i, i);
    while j <= limit
      invariant i * i <= j && j % i == 0
      invariant forall k :: 0 <= k <= limit ==>
        (isPrime[k] <==> k >= 2 && Primes.NoFactorBelow(k, i) && !(i * i <= k < j && k % i == 0))
    {
      forall k | 0 <= k <= limit && j < k < j + i && k % i == 0 ensures false {
        Primes.ModWindow(k, j, i);
      }
      isPrime[j] := false;
      Primes.AddMultiple(j, i);
      j := j + i;
    }
    forall k | 0 <= k <= limit
      ensures isPrime[k] <==> k >= 2 && Primes.NoFactorBelow(k, i + 1)
    {
      ExtendFactor(k, i);
    }
  }

  /** The collecting loop: the marked numbers, ascending, are the primes up
      to the limit once no factor up to its square root is left. */
  method Collect(isPrime: array<bool>, limit: nat, root: nat) returns (primes: seq<nat>)
    requires isPrime.Length == limit + 1 && limit < (root + 1) * (root + 1)
    requires forall p :: 0 <= p <= limit ==> (isPrime[p] <==> p >= 2 && Primes.NoFactorBelow(p, root + 1))
    ensures forall p: nat :: p in primes <==> p <= limit && Primes.IsPrime(p)
    ensures forall i, j :: 0 <= i < j < |primes| ==> primes[i] < primes[j]
  {
    primes := [];
    for k := 0 to limit + 1
      invariant forall p: nat :: p in primes <==> p < k && Primes.IsPrime(p)
      invariant forall a, b :: 0 <= a < b < |primes| ==> primes[a] < primes[b]
      invariant forall a :: 0 <= a < |primes| ==> primes[a] < k
    {
      if isPrime[k] {
        Primes.PrimeBySquareRoot(k, root + 1);
        primes := primes + [k];
      } else {
        Primes.PrimeNoFactor(k, root + 1);
      }
    }
  }

  /** Admitting the candidate divisor i adds one condition. */
  lemma ExtendFactor(k: nat, i: nat)
    ensures Primes.NoFactorBelow(k, i + 1) <==>
      Primes.NoFactorBelow(k, i) && !(i >= 2 && i * i <= k && k % i == 0)
  {
  }

  /** Multiples of a composite i from i * i up were already crossed off by
      a smaller divisor of i. */
  lemma SkipComposite(k: nat, i: nat)
    requires i >= 2 && !Primes.NoFactorBelow(i, i)
    ensures Primes.NoFactorBelow(k, i) ==> !(i * i <= k && k % i == 0)
  {
    if Primes.NoFactorBelow(k, i) && i * i <= k && k % i == 0 {
      var d :| 2 <= d < i && d * d <= i && i % d == 0;
      Primes.DividesTrans(d, i, k);
      Primes.MulOrder(i, 1, i);
      assert false;
    }
  }
}
