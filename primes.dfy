/** Primality, shared by the sieve, the factor search and the odd-composite
    search. */
module Primes {

  /** n has no divisor strictly between 1 and n. */
  predicate IsPrime(n: nat)
  {
    n >= 2 && forall d :: 2 <= d < n ==> n % d != 0
  }

  /** No d in [2, i) with d * d <= k divides k. */
  predicate NoFactorBelow(k: nat, i: nat)
  {
    forall d :: 2 <= d < i && d * d <= k ==> k % d != 0
  }

  /** A divisor above the square root has a partner below it. */
  lemma CoDivisor(n: nat, d: nat) returns (e: nat)
    requires 2 <= d < n && n % d == 0
    ensures 2 <= e && e * e <= n && n % e == 0
  {
    if d * d <= n {
      return d;
    }
    e := n / d;
    assert n == d * e;
    MulOrder(d, e, 1);
    MulOrder(d, d, e);
    MulOrder(e, e, d);
    assert e * e <= e * d;
    assert n % e == 0 by {
      assert d * e == e * d;
      MulMod(d, e);
    }
  }

  /** A multiple of e leaves no remainder. */
  lemma MulMod(d: nat, e: nat)
    requires e > 0
    ensures (e * d) % e == 0
  {
    var q := (e * d) / e;
    var m := (e * d) % e;
    assert e * d == e * q + m && 0 <= m < e;
    assert e * (d - q) == m by {
      assert e * d - e * q == e * (d - q);
    }
    MulOrder(e, 1, d - q);
    MulOrder(e, d - q, -1);
  }

  lemma MulOrder(a: int, b: int, c: int)
    requires a >= 0
    ensures b <= c ==> a * b <= a * c
  {
    if b <= c {
      assert a * c - a * b == a * (c - b);
    }
  }

  /** A number with no divisor up to its square root is prime. */
  lemma PrimeBySquareRoot(n: nat, i: nat)
    requires n >= 2 && n < i * i && NoFactorBelow(n, i)
    ensures IsPrime(n)
  {
    forall d | 2 <= d < n ensures n % d != 0 {
      if n % d == 0 {
        var e := CoDivisor(n, d);
        MulOrder(e, i, e);
        MulOrder(i, i, e);
      }
    }
  }

  /** A prime has no divisor in [2, i) at all. */
  lemma PrimeNoFactor(n: nat, i: nat)
    ensures IsPrime(n) ==> NoFactorBelow(n, i)
  {
    if IsPrime(n) {
      forall d | 2 <= d < i && d * d <= n ensures n % d != 0 {
        MulOrder(d, 2, d);
      }
    }
  }

  /** A divisor of a divisor divides. */
  lemma DividesTrans(d: nat, i: nat, k: nat)
    requires d > 0 && i > 0 && i % d == 0 && k % i == 0
    ensures k % d == 0
  {
    var a := i / d;
    var b := k / i;
    assert i == d * a;
    assert k == i * b;
    assert k == d * (a * b) by {
      assert i * b == (d * a) * b == d * (a * b);
    }
    MulMod(a * b, d);
  }

  /** The next multiple. */
  lemma AddMultiple(j: nat, i: nat)
    requires i > 0 && j % i == 0
    ensures (j + i) % i == 0
  {
    var a := j / i;
    assert j + i == i * (a + 1) by {
      assert j == i * a;
      assert i * (a + 1) == i * a + i;
    }
    MulMod(a + 1, i);
  }

  /** Two multiples of i less than i apart are equal. */
  lemma ModWindow(k: nat, j: nat, i: nat)
    requires i > 0 && j % i == 0 && k % i == 0 && j <= k < j + i
    ensures k == j
  {
    var a := k / i;
    var b := j / i;
    assert k == i * a && j == i * b;
    assert i * (a - b) == k - j by {
      assert i * a - i * b == i * (a - b);
    }
    MulOrder(i, 1, a - b);
    MulOrder(i, a - b, -1);
  }
}
