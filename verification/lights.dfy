/** Point lights (src/lights.rs): a position and an intensity, no extent. */
module Lights {
  import opened Tuples
  import opened Colors

  datatype PointLight = PointLight(position: Tuple, intensity: Color)

  /** The derived `PartialEq`: both fields under the fuzzy tuple and colour equalities. */
  predicate LightEq(a: PointLight, b: PointLight)
    ensures a == b ==> LightEq(a, b)
    ensures LightEq(a, b) ==> ColorEq(a.intensity, b.intensity)
  {
    TupleEq(a.position, b.position) && ColorEq(a.intensity, b.intensity)
  }

  /** `fuzzy_eq` as written: the intensity is compared with itself rather than with `b`'s. */
  predicate FuzzyEqAsWritten(a: PointLight, b: PointLight)
    ensures a.position == b.position ==> FuzzyEqAsWritten(a, b)
  {
    TupleEq(a.position, b.position) && ColorEq(a.intensity, a.intensity)
  }

  /**
   `fuzzy_eq` as evidently intended: the other light's intensity is compared, which makes it
   the derived equality itself.
   */
  predicate FuzzyEq(a: PointLight, b: PointLight)
    ensures a == b ==> FuzzyEq(a, b)
    ensures FuzzyEq(a, b) ==> FuzzyEqAsWritten(a, b)
  {
    LightEq(a, b)
  }

  /** As written, any two lights at fuzzy-equal positions compare equal, whatever they emit. */
  lemma FuzzyEqAsWrittenIgnoresIntensity(a: PointLight, b: PointLight)
    ensures FuzzyEqAsWritten(a, b) <==> TupleEq(a.position, b.position)
  {
  }

  /** A white and a black light at the origin: equal as written, different as intended. */
  lemma FuzzyEqAsWrittenCounterexample()
    ensures FuzzyEqAsWritten(PointLight(Point(0.0, 0.0, 0.0), White), PointLight(Point(0.0, 0.0, 0.0), Black))
    ensures !FuzzyEq(PointLight(Point(0.0, 0.0, 0.0), White), PointLight(Point(0.0, 0.0, 0.0), Black))
  {
  }

  /**
   The corrected comparison is an equivalence-like test that is strictly finer than the written
   one: it is reflexive and symmetric, equal lights shine alike, and it implies the written test.
   */
  lemma FuzzyEqMatchesLightEq(a: PointLight, b: PointLight)
    ensures FuzzyEq(a, b) <==> LightEq(a, b)
    ensures FuzzyEq(a, b) ==> ColorEq(a.intensity, b.intensity)
    ensures FuzzyEq(a, b) ==> FuzzyEqAsWritten(a, b)
    ensures FuzzyEq(a, a) && (FuzzyEq(a, b) <==> FuzzyEq(b, a))
  {
  }
}
