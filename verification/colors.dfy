/** RGB colours over reals (src/color.rs): componentwise arithmetic, clamping and fuzzy equality. */
module Colors {
  import opened Fuzzy

  datatype Color = Color(red: real, green: real, blue: real)

  const Black: Color := Color(0.0, 0.0, 0.0)
  const White: Color := Color(1.0, 1.0, 1.0)

  /** `v.min(hi).max(lo)`: when lo > hi every channel comes out as lo. */
  function ClampChannel(v: real, lo: real, hi: real): (r: real)
    ensures lo <= hi ==> lo <= r <= hi
    ensures lo <= v <= hi ==> r == v
    ensures hi < lo ==> r == lo
  {
    var capped := if v < hi then v else hi;
    if capped > lo then capped else lo
  }

  predicate InRange(c: Color, lo: real, hi: real)
  {
    lo <= c.red <= hi && lo <= c.green <= hi && lo <= c.blue <= hi
  }

  function Clamp(c: Color, lo: real, hi: real): (r: Color)
    ensures lo <= hi ==> InRange(r, lo, hi)
    ensures InRange(c, lo, hi) ==> r == c
  {
    Color(ClampChannel(c.red, lo, hi), ClampChannel(c.green, lo, hi), ClampChannel(c.blue, lo, hi))
  }

  function Add(a: Color, b: Color): (r: Color)
    ensures b == Black ==> r == a
  {
    Color(a.red + b.red, a.green + b.green, a.blue + b.blue)
  }

  function Sub(a: Color, b: Color): (r: Color)
    ensures a == b ==> r == Black
    ensures b == Black ==> r == a
  {
    Color(a.red - b.red, a.green - b.green, a.blue - b.blue)
  }

  /** `Mul<F>`: scale every channel. */
  function Scale(a: Color, k: real): (r: Color)
    ensures k == 1.0 ==> r == a
    ensures k == 0.0 || a == Black ==> r == Black
  {
    Color(a.red * k, a.green * k, a.blue * k)
  }

  /** `Mul<Color>`: the Hadamard (channelwise) product. */
  function Mul(a: Color, b: Color): (r: Color)
    ensures b == White ==> r == a
    ensures a == Black || b == Black ==> r == Black
  {
    Color(a.red * b.red, a.green * b.green, a.blue * b.blue)
  }

  /** Colour equality (`PartialEq` and `FuzzyEq` agree): fuzzy on every channel. */
  predicate ColorEq(a: Color, b: Color)
    ensures a == b ==> ColorEq(a, b)
  {
    FuzzyEq(a.red, b.red) && FuzzyEq(a.green, b.green) && FuzzyEq(a.blue, b.blue)
  }

  /** Channelwise order, used to compare lighting results. */
  predicate AtMost(a: Color, b: Color)
  {
    a.red <= b.red && a.green <= b.green && a.blue <= b.blue
  }

  lemma ClampIdempotent(c: Color, lo: real, hi: real)
    ensures Clamp(Clamp(c, lo, hi), lo, hi) == Clamp(c, lo, hi)
  {
  }

  /** The clamping test of the source: (1.1, 2.3, -6.4) clamps to (1, 1, 0). */
  lemma ClampExample()
    ensures Clamp(Color(1.1, 2.3, -6.4), 0.0, 1.0) == Color(1.0, 1.0, 0.0)
  {
  }

  lemma AddSubRoundTrip(a: Color, b: Color)
    ensures Sub(Add(a, b), b) == a
    ensures Add(Sub(a, b), b) == a
  {
  }

  lemma MulCommutative(a: Color, b: Color)
    ensures Mul(a, b) == Mul(b, a)
  {
  }

  /** White is the identity and black absorbs, for the Hadamard product. */
  lemma MulIdentityAbsorbing(a: Color)
    ensures Mul(a, White) == a && Mul(White, a) == a
    ensures Mul(a, Black) == Black && Mul(Black, a) == Black
    ensures Add(a, Black) == a
  {
  }

  /** Colours are equal when every channel of their difference is within EPSILON. */
  lemma ColorEqIsToleranceBox(a: Color, b: Color)
    ensures ColorEq(a, b) <==>
      var d := Sub(a, b);
      -EPSILON < d.red < EPSILON && -EPSILON < d.green < EPSILON && -EPSILON < d.blue < EPSILON
  {
  }

  lemma ColorEqReflexiveSymmetric(a: Color, b: Color)
    ensures ColorEq(a, a)
    ensures ColorEq(a, b) <==> ColorEq(b, a)
  {
  }
}
