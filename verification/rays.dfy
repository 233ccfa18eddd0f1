/** Rays (src/ray.rs): an origin point, a direction vector and the parameterisation along it. */
module Rays {
  import opened Tuples
  import opened Matrices

  datatype Ray = Ray(origin: Tuple, direction: Tuple)

  /** `origin + direction * t`. */
  function Position(r: Ray, t: real): (p: Tuple)
    ensures t == 0.0 ==> p == r.origin
    ensures IsPoint(r.origin) && IsVector(r.direction) ==> IsPoint(p)
  {
    Add(r.origin, Scale(r.direction, t))
  }

  /** A new ray whose origin and direction both go through the same matrix. */
  function Transform(lin: Linear, r: Ray, m: Matrix): (r': Ray)
    ensures r'.origin == lin.mul(m, r.origin)
    ensures r'.direction == lin.mul(m, r.direction)
  {
    Ray(lin.mul(m, r.origin), lin.mul(m, r.direction))
  }

  lemma PositionAtZero(r: Ray)
    ensures Position(r, 0.0) == r.origin
  {
  }

  /** Walking t and then s along the ray is walking t + s. */
  lemma PositionAdditive(r: Ray, t: real, s: real)
    ensures Position(r, t + s) == Add(Position(r, t), Scale(r.direction, s))
  {
  }

  /** From a point origin along a vector direction every position is a point. */
  lemma PositionIsPoint(r: Ray, t: real)
    requires IsPoint(r.origin) && IsVector(r.direction)
    ensures IsPoint(Position(r, t))
  {
  }

  /**
   Transforming a ray commutes with walking along it, for any matrix that acts linearly: the
   parameter found on the object-space ray names the same point on the world-space ray.
   */
  lemma TransformCommutesWithPosition(lin: Linear, r: Ray, m: Matrix, t: real)
    requires ActsLinearly(lin, m)
    ensures Position(Transform(lin, r, m), t) == lin.mul(m, Position(r, t))
  {
    assert lin.mul(m, Add(r.origin, Scale(r.direction, t)))
      == Add(lin.mul(m, r.origin), lin.mul(m, Scale(r.direction, t)));
    assert lin.mul(m, Scale(r.direction, t)) == Scale(lin.mul(m, r.direction), t);
  }
}
