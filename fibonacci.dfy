/** `fib` (exercises/easy/algorithm19.rs): the n-th Fibonacci number as the
    top-left entry of [[1,1],[1,0]]^(n-1), the power taken by repeated
    squaring. */
module Fibonacci {
  import Arith

  /** A 2x2 matrix [[a, b], [c, d]]. */
  datatype Matrix = Matrix(a: int, b: int, c: int, d: int)

  const Identity: Matrix := Matrix(1, 0, 0, 1)

  /** [[1, 1], [1, 0]], the matrix whose powers hold the Fibonacci numbers. */
  const Q: Matrix := Matrix(1, 1, 1, 0)

  /** One entry of a product: a row (w, y) times a column (x, z). */
  function Dot(w: int, x: int, y: int, z: int): int
  {
    w * x + y * z
  }

  /** `matrix_mult`: the matrix product, row by column. */
  function Mul(x: Matrix, y: Matrix): (p: Matrix)
    ensures x == Identity ==> p == y
    ensures y == Identity ==> p == x
  {
    Matrix(Dot(x.a, y.a, x.b, y.c), Dot(x.a, y.b, x.b, y.d),
           Dot(x.c, y.a, x.d, y.c), Dot(x.c, y.b, x.d, y.d))
  }

  lemma MulAssociative(x: Matrix, y: Matrix, z: Matrix)
    ensures Mul(Mul(x, y), z) == Mul(x, Mul(y, z))
  {
    EntryAssociative(x.a, x.b, y.a, y.b, y.c, y.d, z.a, z.c);
    EntryAssociative(x.a, x.b, y.a, y.b, y.c, y.d, z.b, z.d);
    EntryAssociative(x.c, x.d, y.a, y.b, y.c, y.d, z.a, z.c);
    EntryAssociative(x.c, x.d, y.a, y.b, y.c, y.d, z.b, z.d);
  }

  /** One entry of a triple product, row (p, q), middle matrix
      [[e, f], [g, h]], column (u, v), is the same grouped either way. */
  lemma EntryAssociative(p: int, q: int, e: int, f: int, g: int, h: int, u: int, v: int)
    ensures Dot(Dot(p, e, q, g), u, Dot(p, f, q, h), v) == Dot(p, Dot(e, u, f, v), q, Dot(g, u, h, v))
  {
    calc {
      Dot(Dot(p, e, q, g), u, Dot(p, f, q, h), v);
      (p * e + q * g) * u + (p * f + q * h) * v;
      { Distribute(p * e, q * g, u); Distribute(p * f, q * h, v); }
      p * e * u + q * g * u + p * f * v + q * h * v;
      { Distribute2(p, e * u, f * v); Distribute2(q, g * u, h * v); }
      Dot(p, Dot(e, u, f, v), q, Dot(g, u, h, v));
    }
  }

  lemma Distribute(p: int, q: int, r: int)
    ensures (p + q) * r == p * r + q * r
  {
  }

  lemma Distribute2(p: int, q: int, r: int)
    ensures p * (q + r) == p * q + p * r
  {
  }

  /** m^k, by repeated multiplication. */
  function Pow(m: Matrix, k: nat): Matrix
  {
    if k == 0 then Identity else Mul(m, Pow(m, k - 1))
  }

  lemma {:induction false} PowAdd(m: Matrix, i: nat, j: nat)
    ensures Pow(m, i + j) == Mul(Pow(m, i), Pow(m, j))
    decreases i
  {
    if i > 0 {
      PowAdd(m, i - 1, j);
      MulAssociative(m, Pow(m, i - 1), Pow(m, j));
    }
  }

  /** Squaring the base doubles the exponent. */
  lemma {:induction false} PowSquare(m: Matrix, k: nat)
    ensures Pow(Mul(m, m), k) == Pow(m, 2 * k)
    decreases k
  {
    if k > 0 {
      var rest := Pow(m, 2 * k - 2);
      PowSquare(m, k - 1);
      assert Pow(Mul(m, m), k) == Mul(Mul(m, m), rest);
      MulAssociative(m, m, rest);
      assert Pow(m, 2 * k - 1) == Mul(m, rest);
      assert Pow(m, 2 * k) == Mul(m, Pow(m, 2 * k - 1));
    }
  }

  /** `matrix_pow`: square-and-multiply; a non-positive exponent leaves the
      identity. */
  method MatrixPow(base0: Matrix, exp0: int) returns (result: Matrix)
    ensures exp0 >= 0 ==> result == Pow(base0, exp0)
    ensures exp0 <= 0 ==> result == Identity
  {
    result := Identity;
    var base := base0;
    var exp := exp0;
    while exp > 0
      invariant exp0 > 0 ==> exp >= 0 && Mul(result, Pow(base, exp)) == Pow(base0, exp0)
      invariant exp0 <= 0 ==> exp == exp0 && result == Identity
      decreases exp
    {
      ghost var e := exp;
      if exp % 2 == 1 {
        PowAdd(base, 1, exp - 1);
        MulAssociative(result, base, Pow(base, exp - 1));
        result := Mul(result, base);
        PowSquare(base, (exp - 1) / 2);
      } else {
        PowSquare(base, exp / 2);
      }
      base := Mul(base, base);
      exp := exp / 2;
    }
  }

  /** F(0) = 0, F(1) = 1, F(n) = F(n-1) + F(n-2). */
  function Fib(n: nat): nat
  {
    if n == 0 then 0 else if n == 1 then 1 else Fib(n - 1) + Fib(n - 2)
  }

  /** Multiplying by Q on the left adds the rows. */
  function Step(p: Matrix): Matrix
  {
    Matrix(p.a + p.c, p.b + p.d, p.a, p.b)
  }

  lemma MulQ(p: Matrix)
    ensures Mul(Q, p) == Step(p)
  {
  }

  lemma PowQStep(k: nat)
    requires k >= 1
    ensures Pow(Q, k) == Step(Pow(Q, k - 1))
  {
    MulQ(Pow(Q, k - 1));
  }

  /** [[F(n+1), F(n)], [F(n), F(n-1)]], taking F(-1) = 1. */
  function FibPair(n: nat): Matrix
  {
    Matrix(Fib(n + 1), Fib(n), Fib(n), if n == 0 then 1 else Fib(n - 1))
  }

  /** Q^n holds consecutive Fibonacci numbers. */
  lemma {:induction false} PowQ(n: nat)
    ensures Pow(Q, n) == FibPair(n)
  {
    if n > 0 {
      PowQStep(n);
      PowQ(n - 1);
      FibPairStep(n);
    }
  }

  /** One more factor Q advances every entry one Fibonacci step. */
  lemma FibPairStep(n: nat)
    requires n >= 1
    ensures Step(FibPair(n - 1)) == FibPair(n)
  {
  }

  /** `fib(n)`: 0 and 1 directly, otherwise the top-left entry of Q^(n-1).
      For n <= 32 every `i32` product stays in range; for a negative n the
      power is the identity and the result is 1. */
  method FibMatrix(n: int) returns (r: int)
    requires Arith.I32_MIN < n <= 32
    ensures n >= 0 ==> r == Fib(n)
    ensures n < 0 ==> r == 1
  {
    if n == 0 {
      return 0;
    }
    if n == 1 {
      return 1;
    }
    var m := MatrixPow(Q, n - 1);
    if n >= 2 {
      PowQ(n - 1);
    }
    r := m.a;
  }

  /** fib(10) == 55 and fib(20) == 6765. */
  lemma Examples()
    ensures Fib(10) == 55 && Fib(20) == 6765
  {
    assert Fib(5) == 5;
    assert Fib(10) == 55;
    assert Fib(15) == 610;
    assert Fib(20) == 6765;
  }
}
