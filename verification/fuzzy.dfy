/**
 Approximate scalar equality (src/fuzzy_eq.rs). Every geometric comparison in the tracer
 goes through this fixed tolerance, which is also the surface bias used for over-points.
 */
module Fuzzy {

  /** The comparison tolerance, 1e-5. */
  const EPSILON: real := 0.00001

  function Abs(x: real): (r: real)
    ensures r >= 0.0
    ensures r == x || r == -x
  {
    if x < 0.0 then -x else x
  }

  /** `fuzzy_eq` on `f64`: the difference is strictly within the tolerance. */
  predicate FuzzyEq(a: real, b: real)
    ensures a == b ==> FuzzyEq(a, b)
    ensures FuzzyEq(a, b) ==> a - EPSILON < b < a + EPSILON
  {
    Abs(a - b) < EPSILON
  }

  /** The trait's provided `fuzzy_ne`. */
  predicate FuzzyNe(a: real, b: real)
    ensures FuzzyNe(a, b) ==> a != b
    ensures b <= a - EPSILON || a + EPSILON <= b ==> FuzzyNe(a, b)
  {
    !FuzzyEq(a, b)
  }

  /** Fuzzy equality means b lies in the open interval of half-width EPSILON around a. */
  lemma FuzzyEqWithinTolerance(a: real, b: real)
    ensures FuzzyEq(a, b) <==> a - EPSILON < b < a + EPSILON
  {
  }

  lemma FuzzyEqReflexiveSymmetric(a: real, b: real)
    ensures FuzzyEq(a, a)
    ensures FuzzyEq(a, b) <==> FuzzyEq(b, a)
  {
  }

  lemma FuzzyNeNegatesFuzzyEq(a: real, b: real)
    ensures FuzzyNe(a, b) <==> !FuzzyEq(a, b)
    ensures FuzzyNe(a, b) <==> Abs(a - b) >= EPSILON
  {
  }

  /** Two steps of 0.6e-5 are each within tolerance, their sum is not: the relation is not transitive. */
  lemma FuzzyEqNotTransitive()
    ensures FuzzyEq(0.0, 0.000006) && FuzzyEq(0.000006, 0.000012)
    ensures !FuzzyEq(0.0, 0.000012)
  {
  }
}
