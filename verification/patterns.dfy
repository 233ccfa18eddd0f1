/**
 Patterns (src/pattern.rs): stripes, gradients, rings and checkers, each between two colours
 and under its own transform. The band index is computed in Rust as `f64::floor(..) as isize % 2`,
 so the model writes out the saturating float-to-isize cast and the truncating remainder.
 */
module Patterns {
  import opened Numerics
  import opened Tuples
  import opened Colors
  import opened Matrices

  const ISIZE_MIN: int := -0x8000_0000_0000_0000
  const ISIZE_MAX: int := 0x7fff_ffff_ffff_ffff

  /** Rust's `as isize` on an integral float: out-of-range values saturate at the bounds. */
  function SaturateIsize(n: int): (r: int)
    ensures ISIZE_MIN <= r <= ISIZE_MAX
    ensures ISIZE_MIN <= n <= ISIZE_MAX ==> r == n
    ensures n > ISIZE_MAX ==> r == ISIZE_MAX
    ensures n < ISIZE_MIN ==> r == ISIZE_MIN
  {
    if n < ISIZE_MIN then ISIZE_MIN else if n > ISIZE_MAX then ISIZE_MAX else n
  }

  /** Rust's `%` on integers: truncating division, so the remainder takes the dividend's sign. */
  function RemTrunc(a: int, b: int): (r: int)
    requires b > 0
    ensures -b < r < b
    ensures a >= 0 ==> r >= 0
    ensures a <= 0 ==> r <= 0
  {
    if a >= 0 then a % b else -((-a) % b)
  }

  /** `band as isize % 2 == 0`, the test all three banded patterns make. */
  predicate EvenBand(band: int)
  {
    RemTrunc(SaturateIsize(band), 2) == 0
  }

  datatype Pattern =
    | Striped(colorA: Color, colorB: Color, transform: Matrix)
    | Gradient(colorA: Color, colorB: Color, transform: Matrix)
    | Ring(colorA: Color, colorB: Color, transform: Matrix)
    | Checker(colorA: Color, colorB: Color, transform: Matrix)

  /** `Striped::default()`: black then white stripes. */
  const DefaultStriped: Pattern := Striped(Black, White, Identity)

  /** `Checker::default()`: white then black squares. */
  const DefaultChecker: Pattern := Checker(White, Black, Identity)

  /**
   `Gradient::default()` and `Ring::default()` start from `Color::green()` and `Color::red()`,
   which `color.rs` does not define; the two colours are taken as parameters.
   */
  function DefaultGradient(green: Color, red: Color): (p: Pattern)
    ensures p.Gradient? && p.colorA == green && p.colorB == red && p.transform == Identity
  {
    Gradient(green, red, Identity)
  }

  function DefaultRing(green: Color, red: Color): (p: Pattern)
    ensures p.Ring? && p.colorA == green && p.colorB == red && p.transform == Identity
  {
    Ring(green, red, Identity)
  }

  /** `with_colors`: the same kind of pattern and transform, new colours. */
  function WithColors(p: Pattern, a: Color, b: Color): (q: Pattern)
    ensures q.colorA == a && q.colorB == b
    ensures q.transform == p.transform
    ensures q.Striped? == p.Striped? && q.Gradient? == p.Gradient?
    ensures q.Ring? == p.Ring? && q.Checker? == p.Checker?
  {
    p.(colorA := a, colorB := b)
  }

  /** `with_transform`: the same kind of pattern and colours, a new transform. */
  function WithTransform(p: Pattern, t: Matrix): (q: Pattern)
    ensures q.transform == t
    ensures q.colorA == p.colorA && q.colorB == p.colorB
    ensures q.Striped? == p.Striped? && q.Gradient? == p.Gradient?
    ensures q.Ring? == p.Ring? && q.Checker? == p.Checker?
  {
    p.(transform := t)
  }

  /** The fractional part `x - x.floor()`. */
  function Fraction(x: real): (f: real)
    ensures 0.0 <= f < 1.0
  {
    x - x.Floor as real
  }

  /** The colour of a point already in pattern space. */
  function ColorAtInPatternSpace(m: Math, p: Pattern, pos: Tuple): (c: Color)
    ensures !p.Gradient? ==> c == p.colorA || c == p.colorB
  {
    match p
    case Striped(a, b, _) =>
      if EvenBand(pos.x.Floor) then a else b
    case Gradient(a, b, _) =>
      Colors.Add(a, Colors.Scale(Colors.Sub(b, a), Fraction(pos.x)))
    case Ring(a, b, _) =>
      if EvenBand(RingRadius(m, pos).Floor) then a else b
    case Checker(a, b, _) =>
      if EvenBand(pos.x.Floor + pos.y.Floor + pos.z.Floor) then a else b
  }

  /** The distance from the y axis, `(x.powi(2) + z.powi(2)).sqrt()`. */
  function RingRadius(m: Math, pos: Tuple): real
  {
    Sqrt(m, RadiusSquared(pos))
  }

  function RadiusSquared(pos: Tuple): real
  {
    pos.x * pos.x + pos.z * pos.z
  }

  /**
   The colour of a world-space point on a body with transform `bodyTransform`: the point goes
   through the body's inverse transform, then the pattern's.
   */
  function ColorAt(m: Math, lin: Linear, p: Pattern, bodyTransform: Matrix, pos: Tuple): (c: Color)
    ensures !p.Gradient? ==> c == p.colorA || c == p.colorB
  {
    var objectPosition := lin.mul(lin.inverse(bodyTransform), pos);
    var patternPosition := lin.mul(lin.inverse(p.transform), objectPosition);
    ColorAtInPatternSpace(m, p, patternPosition)
  }

  /** For the parity test, the truncating remainder agrees with the mathematical one. */
  lemma RemTruncParity(a: int)
    ensures RemTrunc(a, 2) == 0 <==> a % 2 == 0
  {
    if a < 0 {
      var q := (-a) / 2;
      assert -a == 2 * q + (-a) % 2;
      if (-a) % 2 == 0 {
        assert a == 2 * (-q);
      } else {
        assert a == 2 * (-q - 1) + 1;
      }
    }
  }

  /** Inside the range of isize the band test is the parity of the band. */
  lemma EvenBandInRange(band: int)
    requires ISIZE_MIN <= band <= ISIZE_MAX
    ensures EvenBand(band) <==> band % 2 == 0
  {
    RemTruncParity(band);
  }

  /** Past the range of isize the cast saturates: above it is odd, below it is even. */
  lemma EvenBandSaturated(band: int)
    ensures band > ISIZE_MAX ==> !EvenBand(band)
    ensures band < ISIZE_MIN ==> EvenBand(band)
  {
    RemTruncParity(ISIZE_MAX);
    RemTruncParity(ISIZE_MIN);
  }

  /** A stripe is colour A on unit slabs of x whose floor is even and colour B on odd ones. */
  lemma StripeAlternates(m: Math, p: Pattern, pos: Tuple)
    requires p.Striped?
    requires ISIZE_MIN <= pos.x.Floor <= ISIZE_MAX
    ensures ColorAtInPatternSpace(m, p, pos) == if pos.x.Floor % 2 == 0 then p.colorA else p.colorB
  {
    EvenBandInRange(pos.x.Floor);
  }

  /** A stripe depends on x alone: it is constant in y and in z. */
  lemma StripeIgnoresYZ(m: Math, p: Pattern, pos: Tuple, y: real, z: real)
    requires p.Striped?
    ensures ColorAtInPatternSpace(m, p, pos) == ColorAtInPatternSpace(m, p, pos.(y := y, z := z))
  {
  }

  /**
   Stepping one unit along x swaps the two stripe colours, so two steps come back to the same
   colour: the stripe has period 2.
   */
  lemma {:induction false} StripeStepSwaps(m: Math, p: Pattern, pos: Tuple)
    requires p.Striped?
    requires ISIZE_MIN <= pos.x.Floor && pos.x.Floor + 2 <= ISIZE_MAX
    ensures ColorAtInPatternSpace(m, p, pos.(x := pos.x + 2.0)) == ColorAtInPatternSpace(m, p, pos)
    ensures p.colorA != p.colorB ==>
      ColorAtInPatternSpace(m, p, pos.(x := pos.x + 1.0)) != ColorAtInPatternSpace(m, p, pos)
  {
    var next, after := pos.(x := pos.x + 1.0), pos.(x := pos.x + 2.0);
    assert next.x.Floor == pos.x.Floor + 1;
    assert after.x.Floor == pos.x.Floor + 2;
    StripeAlternates(m, p, pos);
    StripeAlternates(m, p, next);
    StripeAlternates(m, p, after);
  }

  /** The stripe examples: black from 0 up to 1 and from -1.1 down, white on [-1, 0) and at 1. */
  lemma StripeExamples(m: Math)
    ensures ColorAtInPatternSpace(m, DefaultStriped, Point(0.0, 0.0, 0.0)) == Black
    ensures ColorAtInPatternSpace(m, DefaultStriped, Point(0.9, 0.0, 0.0)) == Black
    ensures ColorAtInPatternSpace(m, DefaultStriped, Point(1.0, 0.0, 0.0)) == White
    ensures ColorAtInPatternSpace(m, DefaultStriped, Point(-0.1, 0.0, 0.0)) == White
    ensures ColorAtInPatternSpace(m, DefaultStriped, Point(-1.0, 0.0, 0.0)) == White
    ensures ColorAtInPatternSpace(m, DefaultStriped, Point(-1.1, 0.0, 0.0)) == Black
  {
    assert (-0.1).Floor == -1;
    assert (-1.1).Floor == -2;
    RemTruncParity(-1);
    RemTruncParity(-2);
  }

  /** Every gradient channel lies between the two end colours: it is a convex combination. */
  lemma GradientBetween(m: Math, p: Pattern, pos: Tuple)
    requires p.Gradient?
    ensures var c := ColorAtInPatternSpace(m, p, pos);
      Between(c.red, p.colorA.red, p.colorB.red)
      && Between(c.green, p.colorA.green, p.colorB.green)
      && Between(c.blue, p.colorA.blue, p.colorB.blue)
  {
    var f := Fraction(pos.x);
    LerpBetween(p.colorA.red, p.colorB.red, f);
    LerpBetween(p.colorA.green, p.colorB.green, f);
    LerpBetween(p.colorA.blue, p.colorB.blue, f);
  }

  predicate Between(v: real, a: real, b: real)
  {
    (a <= v <= b) || (b <= v <= a)
  }

  lemma LerpBetween(a: real, b: real, f: real)
    requires 0.0 <= f <= 1.0
    ensures Between(a + (b - a) * f, a, b)
  {
    var d := b - a;
    LerpStep(a, d, f);
    assert Between(a + d * f, a, a + d);
    assert a + d == b;
    assert Between(a + d * f, a, b);
  }

  lemma LerpStep(a: real, d: real, f: real)
    requires 0.0 <= f <= 1.0
    ensures Between(a + d * f, a, a + d)
  {
    FractionOf(d, f);
  }

  /** A gradient starts afresh at every integer x: colour A there, and it repeats with period 1. */
  lemma GradientRepeats(m: Math, p: Pattern, pos: Tuple)
    requires p.Gradient?
    ensures pos.x == pos.x.Floor as real ==> ColorAtInPatternSpace(m, p, pos) == p.colorA
    ensures ColorAtInPatternSpace(m, p, pos.(x := pos.x + 1.0)) == ColorAtInPatternSpace(m, p, pos)
  {
    assert (pos.x + 1.0).Floor == pos.x.Floor + 1;
  }

  /** The gradient example: from white to black, a quarter of the way along is 0.75 grey. */
  lemma GradientExamples(m: Math)
    ensures ColorAtInPatternSpace(m, Gradient(White, Black, Identity), Point(0.25, 0.0, 0.0)) == Color(0.75, 0.75, 0.75)
    ensures ColorAtInPatternSpace(m, Gradient(White, Black, Identity), Point(0.5, 0.0, 0.0)) == Color(0.5, 0.5, 0.5)
    ensures ColorAtInPatternSpace(m, Gradient(White, Black, Identity), Point(0.75, 0.0, 0.0)) == Color(0.25, 0.25, 0.25)
  {
    var g := Gradient(White, Black, Identity);
    GradientAt(m, g, 0.25, 0.75);
    GradientAt(m, g, 0.5, 0.5);
    GradientAt(m, g, 0.75, 0.25);
  }

  /** From white to black, at a fraction `f` of the first unit along x, the grey is `1 - f`. */
  lemma GradientAt(m: Math, g: Pattern, f: real, grey: real)
    requires g == Gradient(White, Black, Identity)
    requires 0.0 <= f < 1.0 && grey == 1.0 - f
    ensures ColorAtInPatternSpace(m, g, Point(f, 0.0, 0.0)) == Color(grey, grey, grey)
  {
    assert f.Floor == 0;
    assert Fraction(f) == f;
    assert Colors.Sub(Black, White) == Color(-1.0, -1.0, -1.0);
    assert Colors.Scale(Color(-1.0, -1.0, -1.0), f) == Color(-f, -f, -f);
  }

  /**
   Rings are the annuli n <= sqrt(x*x + z*z) < n + 1 about the y axis: colour A for even n,
   colour B for odd n.
   */
  lemma RingBands(m: Math, p: Pattern, pos: Tuple, n: nat)
    requires SqrtLaw(m)
    requires p.Ring?
    requires n <= ISIZE_MAX
    requires (n as real) * (n as real) <= RadiusSquared(pos) < (n as real + 1.0) * (n as real + 1.0)
    ensures ColorAtInPatternSpace(m, p, pos) == if n % 2 == 0 then p.colorA else p.colorB
  {
    RingRadiusFloor(m, pos, n);
    RingOfRadius(m, p, pos, n);
  }

  lemma RingRadiusFloor(m: Math, pos: Tuple, n: nat)
    requires SqrtLaw(m)
    requires (n as real) * (n as real) <= RadiusSquared(pos) < (n as real + 1.0) * (n as real + 1.0)
    ensures RingRadius(m, pos).Floor == n
  {
    SqrtFloor(m, RadiusSquared(pos), n);
  }

  lemma RingOfRadius(m: Math, p: Pattern, pos: Tuple, n: nat)
    requires p.Ring?
    requires n <= ISIZE_MAX
    requires RingRadius(m, pos).Floor == n
    ensures ColorAtInPatternSpace(m, p, pos) == if n % 2 == 0 then p.colorA else p.colorB
  {
    EvenBandInRange(n);
  }

  /** The ring examples: the centre is colour A; (1,0,0), (0,0,1) and (0.708,0,0.708) are colour B. */
  lemma RingExampleCentre(m: Math)
    requires SqrtLaw(m)
    ensures ColorAtInPatternSpace(m, Ring(White, Black, Identity), Point(0.0, 0.0, 0.0)) == White
  {
    RingBands(m, Ring(White, Black, Identity), Point(0.0, 0.0, 0.0), 0);
  }

  lemma RingExampleOnAxes(m: Math)
    requires SqrtLaw(m)
    ensures ColorAtInPatternSpace(m, Ring(White, Black, Identity), Point(1.0, 0.0, 0.0)) == Black
    ensures ColorAtInPatternSpace(m, Ring(White, Black, Identity), Point(0.0, 0.0, 1.0)) == Black
  {
    RingBands(m, Ring(White, Black, Identity), Point(1.0, 0.0, 0.0), 1);
    RingBands(m, Ring(White, Black, Identity), Point(0.0, 0.0, 1.0), 1);
  }

  lemma RingExampleDiagonal(m: Math)
    requires SqrtLaw(m)
    ensures ColorAtInPatternSpace(m, Ring(White, Black, Identity), Point(0.708, 0.0, 0.708)) == Black
  {
    assert RadiusSquared(Point(0.708, 0.0, 0.708)) == 1.002528;
    RingBands(m, Ring(White, Black, Identity), Point(0.708, 0.0, 0.708), 1);
  }

  /** Checkers are unit cubes coloured by the parity of the sum of the three floors. */
  lemma CheckerParity(m: Math, p: Pattern, pos: Tuple)
    requires p.Checker?
    requires ISIZE_MIN <= pos.x.Floor + pos.y.Floor + pos.z.Floor <= ISIZE_MAX
    ensures ColorAtInPatternSpace(m, p, pos) ==
      if (pos.x.Floor + pos.y.Floor + pos.z.Floor) % 2 == 0 then p.colorA else p.colorB
  {
    EvenBandInRange(pos.x.Floor + pos.y.Floor + pos.z.Floor);
  }

  /** Stepping one unit along any axis moves to a neighbouring cube of the other colour. */
  lemma {:induction false} CheckerStepSwaps(m: Math, p: Pattern, pos: Tuple, axis: nat)
    requires p.Checker? && p.colorA != p.colorB
    requires axis < 3
    requires ISIZE_MIN <= pos.x.Floor + pos.y.Floor + pos.z.Floor
    requires pos.x.Floor + pos.y.Floor + pos.z.Floor + 1 <= ISIZE_MAX
    ensures var next := if axis == 0 then pos.(x := pos.x + 1.0)
                        else if axis == 1 then pos.(y := pos.y + 1.0)
                        else pos.(z := pos.z + 1.0);
      ColorAtInPatternSpace(m, p, next) != ColorAtInPatternSpace(m, p, pos)
  {
    var next := if axis == 0 then pos.(x := pos.x + 1.0)
                else if axis == 1 then pos.(y := pos.y + 1.0)
                else pos.(z := pos.z + 1.0);
    assert next.x.Floor + next.y.Floor + next.z.Floor == pos.x.Floor + pos.y.Floor + pos.z.Floor + 1;
    CheckerParity(m, p, pos);
    CheckerParity(m, p, next);
  }

  /** The checker examples along each axis: 0.99 is still colour A, 1.01 is colour B. */
  lemma CheckerExamples(m: Math)
    ensures ColorAtInPatternSpace(m, DefaultChecker, Point(0.99, 0.0, 0.0)) == White
    ensures ColorAtInPatternSpace(m, DefaultChecker, Point(1.01, 0.0, 0.0)) == Black
    ensures ColorAtInPatternSpace(m, DefaultChecker, Point(0.0, 0.99, 0.0)) == White
    ensures ColorAtInPatternSpace(m, DefaultChecker, Point(0.0, 1.01, 0.0)) == Black
    ensures ColorAtInPatternSpace(m, DefaultChecker, Point(0.0, 0.0, 0.99)) == White
    ensures ColorAtInPatternSpace(m, DefaultChecker, Point(0.0, 0.0, 1.01)) == Black
  {
    assert (0.99).Floor == 0 && (1.01).Floor == 1;
  }

  /** With identity transforms on body and pattern, the world point is the pattern point. */
  lemma ColorAtUntransformed(m: Math, lin: Linear, p: Pattern, pos: Tuple)
    requires IdentityActs(lin)
    requires p.transform == Identity
    ensures ColorAt(m, lin, p, Identity, pos) == ColorAtInPatternSpace(m, p, pos)
  {
  }

  /** `fuzzy_eq` as written: same kind, and `color_b` compared with `color_b` twice. */
  predicate PatternFuzzyEqAsWritten(p: Pattern, q: Pattern)
    ensures SameKind(p, q) && p.colorB == q.colorB ==> PatternFuzzyEqAsWritten(p, q)
  {
    SameKind(p, q) && ColorEq(p.colorB, q.colorB) && ColorEq(p.colorB, q.colorB)
  }

  /** `fuzzy_eq` as evidently intended: same kind, and both colours compared. */
  predicate PatternFuzzyEq(p: Pattern, q: Pattern)
    ensures p == q ==> PatternFuzzyEq(p, q)
    ensures PatternFuzzyEq(p, q) ==> PatternFuzzyEqAsWritten(p, q)
    ensures PatternFuzzyEq(p, q) ==> SameKind(p, q)
  {
    SameKind(p, q) && ColorEq(p.colorA, q.colorA) && ColorEq(p.colorB, q.colorB)
  }

  predicate SameKind(p: Pattern, q: Pattern)
  {
    (p.Striped? && q.Striped?) || (p.Gradient? && q.Gradient?)
    || (p.Ring? && q.Ring?) || (p.Checker? && q.Checker?)
  }

  /**
   As written, black/white and white/white stripes compare equal, yet they paint different
   colours at the origin; the intended comparison tells them apart.
   */
  lemma PatternFuzzyEqAsWrittenCounterexample(m: Math)
    ensures PatternFuzzyEqAsWritten(Striped(Black, White, Identity), Striped(White, White, Identity))
    ensures !PatternFuzzyEq(Striped(Black, White, Identity), Striped(White, White, Identity))
    ensures ColorAtInPatternSpace(m, Striped(Black, White, Identity), Point(0.0, 0.0, 0.0)) == Black
    ensures ColorAtInPatternSpace(m, Striped(White, White, Identity), Point(0.0, 0.0, 0.0)) == White
  {
  }

  /**
   Patterns that compare equal under the intended `fuzzy_eq` and share a transform paint
   fuzzy-equal colours everywhere.
   */
  lemma PatternFuzzyEqPaintsAlike(m: Math, p: Pattern, q: Pattern, pos: Tuple)
    requires PatternFuzzyEq(p, q) && p.transform == q.transform
    ensures ColorEq(ColorAtInPatternSpace(m, p, pos), ColorAtInPatternSpace(m, q, pos))
  {
    if p.Gradient? {
      GradientFuzzyEqPaintsAlike(m, p, q, pos);
    }
  }

  lemma GradientFuzzyEqPaintsAlike(m: Math, p: Pattern, q: Pattern, pos: Tuple)
    requires p.Gradient? && q.Gradient?
    requires ColorEq(p.colorA, q.colorA) && ColorEq(p.colorB, q.colorB)
    ensures ColorEq(ColorAtInPatternSpace(m, p, pos), ColorAtInPatternSpace(m, q, pos))
  {
    var f := Fraction(pos.x);
    GradientIsLerp(m, p, pos);
    GradientIsLerp(m, q, pos);
    LerpWithinTolerance(p.colorA.red, p.colorB.red, q.colorA.red, q.colorB.red, f);
    LerpWithinTolerance(p.colorA.green, p.colorB.green, q.colorA.green, q.colorB.green, f);
    LerpWithinTolerance(p.colorA.blue, p.colorB.blue, q.colorA.blue, q.colorB.blue, f);
  }

  /** Each channel of a gradient is the interpolation of the end colours' channels. */
  lemma GradientIsLerp(m: Math, p: Pattern, pos: Tuple)
    requires p.Gradient?
    ensures var c, f := ColorAtInPatternSpace(m, p, pos), Fraction(pos.x);
      c.red == Lerp(p.colorA.red, p.colorB.red, f)
      && c.green == Lerp(p.colorA.green, p.colorB.green, f)
      && c.blue == Lerp(p.colorA.blue, p.colorB.blue, f)
  {
    var a, b, f := p.colorA, p.colorB, Fraction(pos.x);
    assert ColorAtInPatternSpace(m, p, pos) == Colors.Add(a, Colors.Scale(Colors.Sub(b, a), f));
    ChannelLerp(a, b, f);
  }

  lemma ChannelLerp(a: Color, b: Color, f: real)
    ensures var c := Colors.Add(a, Colors.Scale(Colors.Sub(b, a), f));
      c.red == Lerp(a.red, b.red, f) && c.green == Lerp(a.green, b.green, f) && c.blue == Lerp(a.blue, b.blue, f)
  {
    var d := Colors.Sub(b, a);
    assert d.red == b.red - a.red && d.green == b.green - a.green && d.blue == b.blue - a.blue;
    var s := Colors.Scale(d, f);
    assert s.red == d.red * f && s.green == d.green * f && s.blue == d.blue * f;
  }

  /** One channel of the gradient: `a + (b - a) * f`. */
  function Lerp(a: real, b: real, f: real): real
  {
    a + (b - a) * f
  }

  /** Interpolating between ends that are within tolerance stays within tolerance. */
  lemma LerpWithinTolerance(a: real, b: real, a': real, b': real, f: real)
    requires Fuzzy.FuzzyEq(a, a') && Fuzzy.FuzzyEq(b, b')
    requires 0.0 <= f < 1.0
    ensures Fuzzy.FuzzyEq(Lerp(a, b, f), Lerp(a', b', f))
  {
    var da, db := a - a', b - b';
    var d := Lerp(a, b, f) - Lerp(a', b', f);
    assert d == da * (1.0 - f) + db * f;
    Fuzzy.FuzzyEqWithinTolerance(a', a);
    Fuzzy.FuzzyEqWithinTolerance(b', b);
    ConvexWithin(da, db, f, Fuzzy.EPSILON);
  }

  lemma ConvexWithin(u: real, v: real, f: real, e: real)
    requires -e < u < e && -e < v < e
    requires 0.0 <= f < 1.0
    ensures -e < u * (1.0 - f) + v * f < e
  {
    var g := 1.0 - f;
    MulStrictMonotone(u, e, g);
    MulStrictMonotone(-e, u, g);
    MulMonotone(v, e, f);
    MulMonotone(-e, v, f);
    var ug, vf, eg, ef := u * g, v * f, e * g, e * f;
    assert eg + ef == e;
    assert -eg < ug < eg && -ef <= vf <= ef;
  }

  /** The intended comparison is an equivalence up to tolerance and implies the written one. */
  lemma PatternFuzzyEqProperties(p: Pattern, q: Pattern)
    ensures PatternFuzzyEq(p, p)
    ensures PatternFuzzyEq(p, q) <==> PatternFuzzyEq(q, p)
    ensures PatternFuzzyEq(p, q) ==> PatternFuzzyEqAsWritten(p, q)
    ensures PatternFuzzyEqAsWritten(p, q) <==> SameKind(p, q) && ColorEq(p.colorB, q.colorB)
  {
  }
}
