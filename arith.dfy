/** Integer operations as Rust performs them on fixed-width types.

    Dafny's `/` and `%` are Euclidean; Rust's `/` on signed integers rounds the
    quotient toward zero and `%` gives a remainder with the sign of the dividend.
    The two agree on non-negative operands only. */
module Arith {

  const I32_MIN: int := -0x8000_0000
  const I32_MAX: int := 0x7fff_ffff
  const U32_MAX: int := 0xffff_ffff

  predicate InI32(x: int) { I32_MIN <= x <= I32_MAX }

  predicate InU32(x: int) { 0 <= x <= U32_MAX }

  /** Rust's `a / b` for a positive divisor: the quotient rounded toward zero. */
  function Quot(a: int, b: int): (q: int)
    requires b > 0
    ensures a >= 0 ==> 0 <= q * b <= a < q * b + b
    ensures a < 0 ==> a <= q * b < a + b && q <= 0
  {
    if a >= 0 then DivBounds(a, b); a / b
    else
      var p := (-a) / b;
      DivBounds(-a, b);
      assert (-p) * b == -(p * b);
      -p
  }

  lemma DivBounds(a: nat, b: int)
    requires b > 0
    ensures a / b >= 0
    ensures 0 <= (a / b) * b <= a < (a / b) * b + b
  {
    assert a == (a / b) * b + a % b;
  }

  /** Rust's `a % b` for a positive divisor: `a - b * (a / b)`, so it carries the
      sign of `a` and its magnitude is below `b`. */
  function Rem(a: int, b: int): (r: int)
    requires b > 0
    ensures a == b * Quot(a, b) + r
    ensures a >= 0 ==> 0 <= r < b
    ensures a < 0 ==> -b < r <= 0
  {
    a - b * Quot(a, b)
  }

  /** The integer square root (`u128::isqrt`, `u64::isqrt`). */
  function Isqrt(n: nat): (r: nat)
    ensures r * r <= n < (r + 1) * (r + 1)
  {
    if n == 0 then 0
    else
      var half := Isqrt(n / 4);
      var s := 2 * half;
      SquareBounds(n, half);
      if (s + 1) * (s + 1) <= n then s + 1 else s
  }

  /** Doubling the root of n / 4 brackets the root of n within two. */
  lemma SquareBounds(n: nat, half: nat)
    requires half * half <= n / 4 < (half + 1) * (half + 1)
    ensures (2 * half) * (2 * half) <= n < (2 * half + 2) * (2 * half + 2)
  {
    assert (2 * half) * (2 * half) == 4 * (half * half);
    assert (2 * half + 2) * (2 * half + 2) == 4 * ((half + 1) * (half + 1));
    assert (half + 1) * (half + 1) >= n / 4 + 1;
  }

  /** Any r with r^2 <= n < (r+1)^2 is the value Isqrt computes. */
  lemma IsqrtUnique(n: nat, r: nat)
    requires r * r <= n < (r + 1) * (r + 1)
    ensures r == Isqrt(n)
  {
    var q := Isqrt(n);
    if r < q {
      assert r + 1 <= q;
      MonotoneSquare(r + 1, q);
    } else if q < r {
      assert q + 1 <= r;
      MonotoneSquare(q + 1, r);
    }
  }

  lemma MonotoneSquare(a: nat, b: nat)
    requires a <= b
    ensures a * a <= b * b
  {
    assert a * a <= a * b <= b * b;
  }

  /** Dividing by at least 2 shrinks a positive number. */
  lemma DivLess(n: nat, b: nat)
    requires n > 0 && b >= 2
    ensures n / b < n
  {
  }
}
