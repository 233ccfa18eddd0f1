/**
 Homogeneous 4-tuples (src/tuple.rs). `w = 1` marks a point and `w = 0` a vector; the
 arithmetic is componentwise on all four components, so the point/vector discipline is a
 consequence of the operands' `w`, not something the type enforces.
 */
module Tuples {
  import opened Fuzzy
  import opened Numerics

  datatype Tuple = Tuple(x: real, y: real, z: real, w: real)

  function Point(x: real, y: real, z: real): Tuple
  {
    Tuple(x, y, z, 1.0)
  }

  function Vector(x: real, y: real, z: real): Tuple
  {
    Tuple(x, y, z, 0.0)
  }

  predicate IsPoint(t: Tuple)
  {
    t.w == 1.0
  }

  predicate IsVector(t: Tuple)
  {
    t.w == 0.0
  }

  const Zero: Tuple := Tuple(0.0, 0.0, 0.0, 0.0)

  /** A point moved by a vector stays a point; adding zero changes nothing. */
  function Add(a: Tuple, b: Tuple): (r: Tuple)
    ensures b == Zero ==> r == a
    ensures IsPoint(a) && IsVector(b) ==> IsPoint(r)
    ensures IsVector(a) && IsVector(b) ==> IsVector(r)
  {
    Tuple(a.x + b.x, a.y + b.y, a.z + b.z, a.w + b.w)
  }

  /** The vector between two points; a tuple minus itself is zero. */
  function Sub(a: Tuple, b: Tuple): (r: Tuple)
    ensures IsPoint(a) && IsPoint(b) ==> IsVector(r)
    ensures IsPoint(a) && IsVector(b) ==> IsPoint(r)
    ensures a == b ==> r == Zero
  {
    Tuple(a.x - b.x, a.y - b.y, a.z - b.z, a.w - b.w)
  }

  function Neg(a: Tuple): (r: Tuple)
    ensures Add(a, r) == Zero
    ensures Sub(Zero, a) == r
  {
    Tuple(-a.x, -a.y, -a.z, -a.w)
  }

  /** `Mul<F>`: every component, `w` included, is scaled. */
  function Scale(a: Tuple, k: real): (r: Tuple)
    ensures k == 1.0 ==> r == a
    ensures k == 0.0 ==> r == Zero
    ensures IsVector(a) ==> IsVector(r)
  {
    Tuple(a.x * k, a.y * k, a.z * k, a.w * k)
  }

  /** `Div<F>`. Division by zero yields infinities or NaN in `f64`, which reals do not have. */
  function Div(a: Tuple, k: real): (r: Tuple)
    requires k != 0.0
    ensures Scale(r, k) == a
  {
    Tuple(a.x / k, a.y / k, a.z / k, a.w / k)
  }

  function Dot(a: Tuple, b: Tuple): (r: real)
    ensures a == Zero || b == Zero ==> r == 0.0
  {
    a.x * b.x + a.y * b.y + a.z * b.z + a.w * b.w
  }

  /** Euclidean length over all four components. */
  function Magnitude(m: Math, a: Tuple): (r: real)
    ensures SqrtLaw(m) ==> r >= 0.0 && r * r == Dot(a, a)
  {
    Sqrt(m, Dot(a, a))
  }

  /**
   Division by the magnitude. A zero magnitude makes `f64` produce NaN components; the model
   keeps the tuple unchanged in that case.
   */
  function Normalize(m: Math, a: Tuple): (r: Tuple)
    ensures Magnitude(m, a) == 0.0 ==> r == a
    ensures Magnitude(m, a) != 0.0 ==> Scale(r, Magnitude(m, a)) == a
    ensures IsVector(a) ==> IsVector(r)
  {
    var len := Magnitude(m, a);
    if len == 0.0 then a else Div(a, len)
  }

  /** The cross product; the source panics unless both operands are vectors. */
  function Cross(a: Tuple, b: Tuple): (r: Tuple)
    requires IsVector(a) && IsVector(b)
    ensures IsVector(r)
    ensures Dot(r, a) == 0.0 && Dot(r, b) == 0.0
  {
    Vector(a.y * b.z - a.z * b.y, a.z * b.x - a.x * b.z, a.x * b.y - a.y * b.x)
  }

  /** Mirror `v` about the normal `n`: `v - n * 2 * dot(v, n)`. */
  function Reflect(v: Tuple, n: Tuple): (r: Tuple)
    ensures IsVector(v) && IsVector(n) ==> IsVector(r)
    ensures Dot(v, n) == 0.0 ==> r == v
  {
    Sub(v, Scale(Scale(n, 2.0), Dot(v, n)))
  }

  /** Tuple equality (`PartialEq` and `FuzzyEq` have the same body): fuzzy on each component. */
  predicate TupleEq(a: Tuple, b: Tuple)
    ensures a == b ==> TupleEq(a, b)
  {
    FuzzyEq(a.x, b.x) && FuzzyEq(a.y, b.y) && FuzzyEq(a.z, b.z) && FuzzyEq(a.w, b.w)
  }

  // ---------------------------------------------------------------------------------------
  // The point/vector discipline

  lemma PointVectorConstructors(x: real, y: real, z: real)
    ensures IsPoint(Point(x, y, z)) && !IsVector(Point(x, y, z))
    ensures IsVector(Vector(x, y, z)) && !IsPoint(Vector(x, y, z))
    ensures forall t: Tuple :: IsPoint(t) <==> t == Point(t.x, t.y, t.z)
    ensures forall t: Tuple :: IsVector(t) <==> t == Vector(t.x, t.y, t.z)
  {
  }

  /** Which of point and vector the arithmetic produces from which. */
  lemma WDiscipline(a: Tuple, b: Tuple)
    ensures IsPoint(a) && IsPoint(b) ==> IsVector(Sub(a, b))
    ensures IsPoint(a) && IsVector(b) ==> IsPoint(Sub(a, b)) && IsPoint(Add(a, b))
    ensures IsVector(a) && IsVector(b) ==> IsVector(Sub(a, b)) && IsVector(Add(a, b))
    ensures IsVector(a) ==> IsVector(Neg(a)) && forall k: real :: IsVector(Scale(a, k))
    ensures IsPoint(a) && IsPoint(b) ==> !IsPoint(Add(a, b)) && !IsVector(Add(a, b))
  {
  }

  lemma NegInvolution(a: Tuple)
    ensures Neg(Neg(a)) == a
    ensures Add(a, Neg(a)) == Zero
    ensures Sub(Zero, a) == Neg(a)
  {
  }

  /** Multiplying by a nonzero scalar and dividing by it again is the identity. */
  lemma ScaleDivRoundTrip(a: Tuple, k: real)
    requires k != 0.0
    ensures Div(Scale(a, k), k) == a
  {
  }

  // ---------------------------------------------------------------------------------------
  // Dot product algebra

  lemma DotSymmetric(a: Tuple, b: Tuple)
    ensures Dot(a, b) == Dot(b, a)
  {
  }

  lemma DotScaleLeft(a: Tuple, k: real, b: Tuple)
    ensures Dot(Scale(a, k), b) == k * Dot(a, b)
  {
  }

  lemma DotSubLeft(a: Tuple, b: Tuple, c: Tuple)
    ensures Dot(Sub(a, b), c) == Dot(a, c) - Dot(b, c)
  {
  }

  lemma DotAddLeft(a: Tuple, b: Tuple, c: Tuple)
    ensures Dot(Add(a, b), c) == Dot(a, c) + Dot(b, c)
  {
  }

  lemma DotNegLeft(a: Tuple, b: Tuple)
    ensures Dot(Neg(a), b) == -Dot(a, b)
  {
  }

  lemma Square(x: real)
    ensures x * x >= 0.0
    ensures x * x == 0.0 ==> x == 0.0
  {
    if x * x == 0.0 {
      ZeroProduct(x, x);
    }
  }

  lemma DotSelfNonNegative(a: Tuple)
    ensures Dot(a, a) >= 0.0
    ensures Dot(a, a) == 0.0 <==> a == Zero
  {
    Square(a.x);
    Square(a.y);
    Square(a.z);
    Square(a.w);
  }

  // ---------------------------------------------------------------------------------------
  // Magnitude and normalisation

  /** With a lawful `sqrt`, the magnitude is the non-negative root of `dot(a, a)`, zero only for the zero tuple. */
  lemma MagnitudeLaw(m: Math, a: Tuple)
    requires SqrtLaw(m)
    ensures Magnitude(m, a) >= 0.0
    ensures Magnitude(m, a) * Magnitude(m, a) == Dot(a, a)
    ensures Magnitude(m, a) == 0.0 <==> a == Zero
  {
    MagnitudeSquared(m, a);
    MagnitudeZeroIff(m, a);
  }

  lemma MagnitudeSquared(m: Math, a: Tuple)
    requires SqrtLaw(m)
    ensures Magnitude(m, a) >= 0.0
    ensures Magnitude(m, a) * Magnitude(m, a) == Dot(a, a)
  {
    DotSelfNonNegative(a);
  }

  lemma MagnitudeZeroIff(m: Math, a: Tuple)
    requires SqrtLaw(m)
    ensures Magnitude(m, a) == 0.0 <==> a == Zero
  {
    DotSelfNonNegative(a);
    SqrtZeroIff(m, Dot(a, a));
  }

  /** Normalising a nonzero tuple gives a unit tuple. */
  lemma {:induction false} NormalizeIsUnit(m: Math, a: Tuple)
    requires SqrtLaw(m)
    requires a != Zero
    ensures Dot(Normalize(m, a), Normalize(m, a)) == 1.0
  {
    MagnitudeLaw(m, a);
    var len := Magnitude(m, a);
    UnitAfterDivision(a.x, a.y, a.z, a.w, len);
  }

  /** Dividing each component by the length makes the squares sum to one. */
  lemma UnitAfterDivision(x: real, y: real, z: real, w: real, len: real)
    requires len != 0.0 && len * len == x * x + y * y + z * z + w * w
    ensures (x / len) * (x / len) + (y / len) * (y / len) + (z / len) * (z / len) + (w / len) * (w / len) == 1.0
  {
    var k := 1.0 / len;
    assert x / len == x * k && y / len == y * k && z / len == z * k && w / len == w * k;
    assert (x * k) * (x * k) + (y * k) * (y * k) + (z * k) * (z * k) + (w * k) * (w * k)
        == (x * x + y * y + z * z + w * w) * (k * k);
    assert (len * len) * (k * k) == (len * k) * (len * k);
  }

  /** Normalisation keeps the `w` of a vector at zero. */
  lemma NormalizeKeepsVector(m: Math, a: Tuple)
    requires IsVector(a)
    ensures IsVector(Normalize(m, a))
  {
  }

  /** Normalising a tuple that already has unit length leaves it unchanged. */
  lemma NormalizeUnitIsIdentity(m: Math, a: Tuple)
    requires SqrtLaw(m)
    requires Dot(a, a) == 1.0
    ensures Normalize(m, a) == a
  {
    SqrtOfSquare(m, 1.0);
  }

  // ---------------------------------------------------------------------------------------
  // Cross product and reflection

  lemma CrossAnticommutative(a: Tuple, b: Tuple)
    requires IsVector(a) && IsVector(b)
    ensures Cross(a, b) == Neg(Cross(b, a))
  {
  }

  /** For a unit normal, reflection flips the normal component, keeps the length and undoes itself. */
  lemma ReflectAboutUnitNormal(v: Tuple, n: Tuple)
    requires Dot(n, n) == 1.0
    ensures Dot(Reflect(v, n), n) == -Dot(v, n)
    ensures Reflect(Reflect(v, n), n) == v
    ensures Dot(Reflect(v, n), Reflect(v, n)) == Dot(v, v)
  {
    ReflectFlipsNormalComponent(v, n);
    ReflectTwice(v, n);
    ReflectKeepsLength(v, n);
  }

  /** Reflection written as a single scaling of the normal. */
  lemma ReflectAsScale(v: Tuple, n: Tuple)
    ensures Reflect(v, n) == Sub(v, Scale(n, 2.0 * Dot(v, n)))
  {
    ScaleTwice(n, 2.0, Dot(v, n));
  }

  lemma ScaleTwice(a: Tuple, j: real, k: real)
    ensures Scale(Scale(a, j), k) == Scale(a, j * k)
  {
    assert (a.x * j) * k == a.x * (j * k);
    assert (a.y * j) * k == a.y * (j * k);
    assert (a.z * j) * k == a.z * (j * k);
    assert (a.w * j) * k == a.w * (j * k);
  }

  lemma {:induction false} ReflectFlipsNormalComponent(v: Tuple, n: Tuple)
    requires Dot(n, n) == 1.0
    ensures Dot(Reflect(v, n), n) == -Dot(v, n)
  {
    var d := Dot(v, n);
    ReflectAsScale(v, n);
    DotSubLeft(v, Scale(n, 2.0 * d), n);
    DotScaleLeft(n, 2.0 * d, n);
  }

  lemma {:induction false} ReflectTwice(v: Tuple, n: Tuple)
    requires Dot(n, n) == 1.0
    ensures Reflect(Reflect(v, n), n) == v
  {
    var d := Dot(v, n);
    var r := Reflect(v, n);
    ReflectFlipsNormalComponent(v, n);
    ReflectAsScale(v, n);
    ReflectAsScale(r, n);
    assert Dot(r, n) == -d;
    assert r == Sub(v, Scale(n, 2.0 * d));
    assert Reflect(r, n) == Sub(r, Scale(n, 2.0 * -d));
  }

  lemma {:induction false} ReflectKeepsLength(v: Tuple, n: Tuple)
    requires Dot(n, n) == 1.0
    ensures Dot(Reflect(v, n), Reflect(v, n)) == Dot(v, v)
  {
    ReflectComponents(v, n);
    ReflectLengthComponents(v, n, -2.0 * Dot(v, n));
  }

  /** Reflection moves `v` by `t = -2 (v . n)` along the normal. */
  lemma ReflectComponents(v: Tuple, n: Tuple)
    ensures var t := -2.0 * Dot(v, n);
      Reflect(v, n) == Tuple(v.x + n.x * t, v.y + n.y * t, v.z + n.z * t, v.w + n.w * t)
  {
    var d := Dot(v, n);
    assert Reflect(v, n) == Tuple(v.x - (n.x * 2.0) * d, v.y - (n.y * 2.0) * d,
                                  v.z - (n.z * 2.0) * d, v.w - (n.w * 2.0) * d);
    StepAlongNormal(v.x, n.x, d);
    StepAlongNormal(v.y, n.y, d);
    StepAlongNormal(v.z, n.z, d);
    StepAlongNormal(v.w, n.w, d);
  }

  /** One component of `v - n * 2 * d`, regrouped as a step of `-2 d` along `n`. */
  lemma StepAlongNormal(a: real, b: real, d: real)
    ensures a - (b * 2.0) * d == a + b * (-2.0 * d)
  {
  }

  /**
   `|v + n t|^2 = |v|^2` for a unit n and t = -2 (v . n), the step along the normal that a
   reflection takes.
   */
  lemma ReflectLengthComponents(v: Tuple, n: Tuple, t: real)
    requires Dot(n, n) == 1.0
    requires t == -2.0 * Dot(v, n)
    ensures var r := Tuple(v.x + n.x * t, v.y + n.y * t, v.z + n.z * t, v.w + n.w * t);
      Dot(r, r) == Dot(v, v)
  {
    var vn := Dot(v, n);
    SquareOfStep(v.x, n.x, t);
    SquareOfStep(v.y, n.y, t);
    SquareOfStep(v.z, n.z, t);
    SquareOfStep(v.w, n.w, t);
    assert (v.x * n.x) * t + (v.y * n.y) * t + (v.z * n.z) * t + (v.w * n.w) * t == vn * t;
    assert (n.x * n.x) * (t * t) + (n.y * n.y) * (t * t) + (n.z * n.z) * (t * t) + (n.w * n.w) * (t * t)
        == Dot(n, n) * (t * t);
    assert 2.0 * (vn * t) + t * t == 0.0;
  }

  /** `(a + b t)^2` expanded. */
  lemma SquareOfStep(a: real, b: real, t: real)
    ensures (a + b * t) * (a + b * t) == a * a + 2.0 * ((a * b) * t) + (b * b) * (t * t)
  {
  }

  /** The lighting code reflects `lightv` and negates; that equals reflecting `-lightv`. */
  lemma ReflectNeg(v: Tuple, n: Tuple)
    ensures Reflect(Neg(v), n) == Neg(Reflect(v, n))
  {
    DotNegLeft(v, n);
  }

  // ---------------------------------------------------------------------------------------
  // Fuzzy equality

  /** Tuples are equal when their difference lies within EPSILON on every component. */
  lemma TupleEqIsToleranceBox(a: Tuple, b: Tuple)
    ensures TupleEq(a, b) <==>
      var d := Sub(a, b);
      -EPSILON < d.x < EPSILON && -EPSILON < d.y < EPSILON &&
      -EPSILON < d.z < EPSILON && -EPSILON < d.w < EPSILON
  {
  }

  lemma TupleEqReflexiveSymmetric(a: Tuple, b: Tuple)
    ensures TupleEq(a, a)
    ensures TupleEq(a, b) <==> TupleEq(b, a)
  {
  }
}
