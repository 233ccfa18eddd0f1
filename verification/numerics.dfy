/**
 The floating-point library calls the tracer makes (`f64::sqrt`, `f64::tan`, `f64::powf`).
 They are kept uninterpreted: the model is parameterised by a record of them, and lemmas
 that need a fact about one of them assume the corresponding law.
 */
module Numerics {

  datatype Math = Math(sqrt: real -> real, tan: real -> real, powf: (real, real) -> real)

  function Sqrt(m: Math, x: real): real
  {
    m.sqrt(x)
  }

  function Tan(m: Math, x: real): real
  {
    m.tan(x)
  }

  function Powf(m: Math, base: real, exponent: real): real
  {
    m.powf(base, exponent)
  }

  /** On a non-negative argument `sqrt` returns the non-negative square root. */
  ghost predicate SqrtLaw(m: Math)
  {
    forall x: real :: x >= 0.0 ==> Sqrt(m, x) >= 0.0 && Sqrt(m, x) * Sqrt(m, x) == x
  }

  /** A positive base raised to any power is positive. */
  ghost predicate PowfLaw(m: Math)
  {
    forall b: real, e: real :: b > 0.0 ==> Powf(m, b, e) > 0.0
  }

  /** The square root of a perfect square is its non-negative root. */
  lemma SqrtOfSquare(m: Math, r: real)
    requires SqrtLaw(m)
    requires r >= 0.0
    ensures Sqrt(m, r * r) == r
  {
    var s := Sqrt(m, r * r);
    assert s >= 0.0 && s * s == r * r;
    assert (s - r) * (s + r) == 0.0;
    ZeroProduct(s - r, s + r);
  }

  lemma ZeroProduct(a: real, b: real)
    requires a * b == 0.0
    ensures a == 0.0 || b == 0.0
  {
    if a != 0.0 {
      assert b == (a * b) / a;
    }
  }

  /** The square root vanishes exactly at zero. */
  lemma SqrtZeroIff(m: Math, x: real)
    requires SqrtLaw(m)
    requires x >= 0.0
    ensures Sqrt(m, x) == 0.0 <==> x == 0.0
  {
    SqrtOfSquare(m, 0.0);
  }

  /** Squaring is monotone on the non-negative reals. */
  lemma SquareMonotone(a: real, b: real)
    requires 0.0 <= a <= b
    ensures a * a <= b * b
  {
    assert a * a <= a * b;
    assert a * b <= b * b;
  }

  lemma SquareStrictlyMonotone(a: real, b: real)
    requires 0.0 <= a < b
    ensures a * a < b * b
  {
    var lower, middle, upper := a * a, a * b, b * b;
    assert lower <= middle;
    assert middle < upper;
  }

  /** The square root of anything in [n*n, (n+1)*(n+1)) has integer part n. */
  lemma SqrtFloor(m: Math, x: real, n: nat)
    requires SqrtLaw(m)
    requires (n as real) * (n as real) <= x < (n as real + 1.0) * (n as real + 1.0)
    ensures Sqrt(m, x).Floor == n
  {
    var s := Sqrt(m, x);
    assert s >= 0.0 && s * s == x;
    if s < n as real {
      SquareStrictlyMonotone(s, n as real);
      assert false;
    }
    if s >= n as real + 1.0 {
      SquareMonotone(n as real + 1.0, s);
      assert false;
    }
  }

  /** Multiplying by a non-negative factor keeps an inequality. */
  lemma MulMonotone(a: real, b: real, c: real)
    requires a <= b && c >= 0.0
    ensures a * c <= b * c
  {
    assert (b - a) * c >= 0.0;
    assert (b - a) * c == b * c - a * c;
  }

  /** Multiplying by a positive factor keeps a strict inequality. */
  lemma MulStrictMonotone(a: real, b: real, c: real)
    requires a < b && c > 0.0
    ensures a * c < b * c
  {
    assert (b - a) * c > 0.0;
    assert (b - a) * c == b * c - a * c;
  }

  /** A fraction of a quantity lies between zero and the quantity. */
  lemma FractionOf(d: real, f: real)
    requires 0.0 <= f <= 1.0
    ensures d >= 0.0 ==> 0.0 <= d * f <= d
    ensures d <= 0.0 ==> d <= d * f <= 0.0
  {
    if d >= 0.0 {
      MulMonotone(0.0, f, d);
      MulMonotone(f, 1.0, d);
      assert 1.0 * d == d && 0.0 * d == 0.0;
      assert f * d == d * f;
    } else {
      MulMonotone(0.0, f, -d);
      MulMonotone(f, 1.0, -d);
      assert 1.0 * (-d) == -d && 0.0 * (-d) == 0.0;
      assert f * (-d) == -(d * f);
    }
  }
}
