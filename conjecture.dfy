/** `goldbach_conjecture` (exercises/hard/solutiont1/src/conjecture.rs): the
    first two odd numbers from 9 up that are neither prime nor a prime plus
    twice a square, found by trial division. */
module Conjecture {
  import Arith
  import Primes
  import Text
  import opened Wrappers

  /** `is_prime`: trial division by 2..=isqrt(n). The source bounds the loop
      by `(n as f64).sqrt() as u32`, which is isqrt(n) on every `u32`. */
  method IsPrime(n: nat) returns (b: bool)
    ensures b == Primes.IsPrime(n)
  {
    if n < 2 {
      return false;
    }
    var r := Arith.Isqrt(n);
    for i := 2 to r + 1
      invariant Primes.NoFactorBelow(n, i)
    {
      if n % i == 0 {
        Arith.MonotoneSquare(i, r);
        Primes.MulOrder(i, 2, i);
        return false;
      }
    }
    Primes.PrimeBySquareRoot(n, r + 1);
    return true;
  }

  function TwiceSquare(k: nat): nat
  {
    2 * k * k
  }

  /** Twice the square grows with k, strictly. */
  lemma TwiceSquareMonotone(a: nat, b: nat)
    requires a <= b
    ensures TwiceSquare(a) <= TwiceSquare(b)
    ensures a < b ==> TwiceSquare(a) < TwiceSquare(b)
  {
    Arith.MonotoneSquare(a, b);
    if a < b {
      Primes.MulOrder(b, a, b);
      Primes.MulOrder(a, a, b);
      assert a * a < b * b by {
        assert a * a <= a * b <= b * b;
        assert a * b < b * b by { Primes.MulOrder(b, a + 1, b); }
      }
    }
  }

  /** n is a prime plus twice a positive square. */
  ghost predicate Expressible(n: nat)
  {
    exists k :: 1 <= k && TwiceSquare(k) < n && Primes.IsPrime(n - TwiceSquare(k))
  }

  /** `can_be_expressed`: tries k = 1, 2, ... while 2k^2 < n. */
  method CanBeExpressed(n: nat) returns (b: bool)
    ensures b == Expressible(n)
  {
    var k := 1;
    while TwiceSquare(k) < n
      invariant k >= 1
      invariant forall j :: 1 <= j < k && TwiceSquare(j) < n ==> !Primes.IsPrime(n - TwiceSquare(j))
      decreases n - TwiceSquare(k)
    {
      var p := IsPrime(n - TwiceSquare(k));
      if p {
        return true;
      }
      TwiceSquareMonotone(k, k + 1);
      k := k + 1;
    }
    forall j | k <= j ensures n <= TwiceSquare(j) {
      TwiceSquareMonotone(k, j);
    }
    return false;
  }

  /** An odd number that is neither prime nor expressible. */
  ghost predicate Counterexample(m: nat)
  {
    m % 2 == 1 && !Primes.IsPrime(m) && !Expressible(m)
  }

  /** `results` holds, in ascending order, exactly the counterexamples in
      [9, current). */
  ghost predicate Searched(results: seq<nat>, current: nat)
  {
    && (forall i :: 0 <= i < |results| ==> 9 <= results[i] < current && Counterexample(results[i]))
    && (forall i, j :: 0 <= i < j < |results| ==> results[i] < results[j])
    && (forall m :: 9 <= m < current && Counterexample(m) ==> m in results)
  }

  /** Examining the odd number `current` extends the search by two. */
  lemma SearchStep(results: seq<nat>, current: nat, found: bool)
    requires 9 <= current && current % 2 == 1 && Searched(results, current)
    requires found == Counterexample(current)
    ensures Searched(if found then results + [current] else results, current + 2)
  {
    var next := if found then results + [current] else results;
    assert forall i :: 0 <= i < |results| ==> next[i] == results[i];
    forall m | 9 <= m < current + 2 && Counterexample(m) ensures m in next {
      if m < current {
        assert m in results;
        var i :| 0 <= i < |results| && results[i] == m;
        assert next[i] == m;
      } else {
        assert m == current;
      }
    }
  }

  /** The search loop: `current` walks the odd numbers from 9 and each
      counterexample is pushed, until two are found. The source loops
      without bound; here at most `candidates` numbers are examined. */
  method GoldbachConjecture(candidates: nat) returns (results: seq<nat>, answer: Option<string>)
    ensures |results| <= 2
    ensures forall i :: 0 <= i < |results| ==> 9 <= results[i] && Counterexample(results[i])
    ensures forall i, j :: 0 <= i < j < |results| ==> results[i] < results[j]
    ensures |results| == 2 ==>
      forall m :: 9 <= m <= results[1] && Counterexample(m) ==> m == results[0] || m == results[1]
    ensures |results| < 2 ==>
      forall m :: 9 <= m < 9 + 2 * candidates && Counterexample(m) ==> m in results
    ensures answer.Some? <==> |results| == 2
    ensures answer.Some? ==>
      answer.value == Text.FormatNat(results[0]) + "," + Text.FormatNat(results[1])
  {
    results := [];
    var current := 9;
    var left := candidates;
    while |results| < 2 && left > 0
      invariant |results| <= 2
      invariant current == 9 + 2 * (candidates - left) && left <= candidates
      invariant Searched(results, current)
      invariant |results| == 2 ==> current == results[1] + 2
    {
      var prime := IsPrime(current);
      var expressible := CanBeExpressed(current);
      SearchStep(results, current, !prime && !expressible);
      if !prime && !expressible {
        results := results + [current];
      }
      current := current + 2;
      left := left - 1;
    }
    if |results| == 2 {
      answer := Some(Text.FormatNat(results[0]) + "," + Text.FormatNat(results[1]));
    } else {
      answer := None;
    }
  }
}
