/**
 Spheres, planes and the closed `Body` enum that dispatches to them (src/sphere.rs,
 src/plane.rs, src/body.rs). Intersections here are in object space: a list of (t, body)
 pairs along the object-space ray.
 */
module Bodies {
  import opened Numerics
  import opened Tuples
  import opened Matrices
  import opened Rays
  import opened Materials
  import Fuzzy

  datatype Sphere = Sphere(transform: Matrix, material: Material)

  datatype Plane = Plane(transform: Matrix, material: Material)

  /** The source's `Body` enum lists only spheres, although the plane code wraps planes too. */
  datatype Body = SphereBody(sphere: Sphere) | PlaneBody(plane: Plane)

  const DefaultSphere: Sphere := Sphere(Identity, DefaultMaterial)

  const DefaultPlane: Plane := Plane(Identity, DefaultMaterial)

  function SphereWithMaterial(s: Sphere, material: Material): (r: Sphere)
    ensures r.material == material && r.transform == s.transform
  {
    s.(material := material)
  }

  function SphereWithTransform(s: Sphere, transform: Matrix): (r: Sphere)
    ensures r.transform == transform && r.material == s.material
  {
    s.(transform := transform)
  }

  function PlaneWithMaterial(p: Plane, material: Material): (r: Plane)
    ensures r.material == material && r.transform == p.transform
  {
    p.(material := material)
  }

  function PlaneWithTransform(p: Plane, transform: Matrix): (r: Plane)
    ensures r.transform == transform && r.material == p.material
  {
    p.(transform := transform)
  }

  const Origin: Tuple := Point(0.0, 0.0, 0.0)

  /** The quadratic `a t^2 + b t + c` whose roots are where the ray meets the unit sphere. */
  datatype Quadratic = Quadratic(a: real, b: real, c: real)

  function SphereQuadratic(ray: Ray): (q: Quadratic)
    ensures q.a == Dot(ray.direction, ray.direction)
  {
    var sphereToRay := Sub(ray.origin, Origin);
    Quadratic(Dot(ray.direction, ray.direction),
              2.0 * Dot(ray.direction, sphereToRay),
              Dot(sphereToRay, sphereToRay) - 1.0)
  }

  function Discriminant(q: Quadratic): real
  {
    q.b * q.b - 4.0 * q.a * q.c
  }

  /**
   `Sphere::intersect_in_object_space`: no hits for a negative discriminant, otherwise the two
   roots, smaller first, each paired with this sphere. A zero direction makes `a` vanish and
   the source divide by zero (NaN roots); the model reports no hits there.
   */
  function SphereIntersect(m: Math, s: Sphere, ray: Ray): (hits: seq<(real, Body)>)
    ensures |hits| == 0 || |hits| == 2
    ensures |hits| == 0 <==> Discriminant(SphereQuadratic(ray)) < 0.0 || SphereQuadratic(ray).a == 0.0
    ensures forall i :: 0 <= i < |hits| ==> hits[i].1 == SphereBody(s)
  {
    var q := SphereQuadratic(ray);
    var discriminant := Discriminant(q);
    if discriminant < 0.0 || q.a == 0.0 then []
    else
      var t1 := (-q.b - Sqrt(m, discriminant)) / (2.0 * q.a);
      var t2 := (-q.b + Sqrt(m, discriminant)) / (2.0 * q.a);
      [(t1, SphereBody(s)), (t2, SphereBody(s))]
  }

  /** Either root of the quadratic formula solves the quadratic. */
  lemma QuadraticFormula(q: Quadratic, s: real, sign: real, t: real)
    requires q.a != 0.0
    requires s * s == Discriminant(q)
    requires sign == 1.0 || sign == -1.0
    requires t == (-q.b + sign * s) / (2.0 * q.a)
    ensures q.a * t * t + q.b * t + q.c == 0.0
  {
    var a, b, c := q.a, q.b, q.c;
    var u := 2.0 * a * t;
    assert u == -b + sign * s;
    assert (u + b) * (u + b) == s * s by {
      assert u + b == sign * s;
      assert sign * sign == 1.0;
    }
    assert u * u + 2.0 * u * b + 4.0 * a * c == 0.0;
    assert 4.0 * a * (a * t * t + b * t + c) == u * u + 2.0 * u * b + 4.0 * a * c;
    ZeroProduct(4.0 * a, a * t * t + b * t + c);
  }

  /** With a lawful `sqrt`, the two hits come in ascending order of t. */
  lemma SphereHitsOrdered(m: Math, s: Sphere, ray: Ray)
    requires SqrtLaw(m)
    ensures var hits := SphereIntersect(m, s, ray);
      |hits| == 2 ==> hits[0].0 <= hits[1].0
  {
    var q := SphereQuadratic(ray);
    var d := Discriminant(q);
    if d >= 0.0 && q.a != 0.0 {
      DotSelfNonNegative(ray.direction);
      var r := Sqrt(m, d);
      assert r >= 0.0;
      var twoA := 2.0 * q.a;
      assert twoA > 0.0;
      assert -q.b - r <= -q.b + r;
      DivMonotone(-q.b - r, -q.b + r, twoA);
    }
  }

  lemma DivMonotone(x: real, y: real, d: real)
    requires x <= y && d > 0.0
    ensures x / d <= y / d
  {
    MulMonotone(x, y, 1.0 / d);
  }

  /** Each returned t solves the sphere's quadratic. */
  lemma SphereHitsAreRoots(m: Math, s: Sphere, ray: Ray, i: nat)
    requires SqrtLaw(m)
    requires i < |SphereIntersect(m, s, ray)|
    ensures var q := SphereQuadratic(ray);
      var t := SphereIntersect(m, s, ray)[i].0;
      q.a * t * t + q.b * t + q.c == 0.0
  {
    var q := SphereQuadratic(ray);
    var r := Sqrt(m, Discriminant(q));
    var t := SphereIntersect(m, s, ray)[i].0;
    if i == 0 {
      QuadraticFormula(q, r, -1.0, t);
    } else {
      QuadraticFormula(q, r, 1.0, t);
    }
  }

  /** ... so the hit point lies on the unit sphere. */
  lemma SphereHitsOnSurface(m: Math, s: Sphere, ray: Ray, i: nat)
    requires SqrtLaw(m)
    requires i < |SphereIntersect(m, s, ray)|
    ensures var t := SphereIntersect(m, s, ray)[i].0;
      var p := Sub(Position(ray, t), Origin);
      Dot(p, p) == 1.0
  {
    SphereHitsAreRoots(m, s, ray, i);
    RootOnSphere(ray, SphereIntersect(m, s, ray)[i].0);
  }

  /** A root of the sphere quadratic is a t where the ray is on the unit sphere. */
  lemma RootOnSphere(ray: Ray, t: real)
    requires var q := SphereQuadratic(ray); q.a * t * t + q.b * t + q.c == 0.0
    ensures var p := Sub(Position(ray, t), Origin); Dot(p, p) == 1.0
  {
    OnSphere(ray, t);
  }

  /** The squared distance of `position(t)` from the origin is the sphere quadratic plus one. */
  lemma OnSphere(ray: Ray, t: real)
    ensures var q := SphereQuadratic(ray);
      var p := Sub(Position(ray, t), Origin);
      Dot(p, p) == q.a * t * t + q.b * t + q.c + 1.0
  {
    var s := Sub(ray.origin, Origin);
    var d := ray.direction;
    var p := Sub(Position(ray, t), Origin);
    assert p.x == s.x + d.x * t && p.y == s.y + d.y * t && p.z == s.z + d.z * t && p.w == s.w + d.w * t;
    ExpandQuadratic(s.x, s.y, s.z, s.w, d.x, d.y, d.z, d.w, t);
  }

  /** The squared length of `s + d t`, expanded as a quadratic in `t`. */
  lemma ExpandQuadratic(sx: real, sy: real, sz: real, sw: real, dx: real, dy: real, dz: real, dw: real, t: real)
    ensures (sx + dx * t) * (sx + dx * t) + (sy + dy * t) * (sy + dy * t)
            + (sz + dz * t) * (sz + dz * t) + (sw + dw * t) * (sw + dw * t)
         == (dx * dx + dy * dy + dz * dz + dw * dw) * t * t
            + 2.0 * (dx * sx + dy * sy + dz * sz + dw * sw) * t
            + (sx * sx + sy * sy + sz * sz + sw * sw - 1.0) + 1.0
  {
  }

  /** Where a ray along z at height y starts 5 units in front of the unit sphere. */
  function RayAlongZ(y: real, z: real): Ray
  {
    Ray(Point(0.0, y, z), Vector(0.0, 0.0, 1.0))
  }

  /** Walking t along such a ray only moves z. */
  lemma PositionAlongZ(y: real, z: real, t: real)
    ensures Position(RayAlongZ(y, z), t) == Point(0.0, y, z + t)
  {
  }

  lemma SphereQuadraticAlongZ(y: real, z: real)
    ensures SphereQuadratic(RayAlongZ(y, z)) == Quadratic(1.0, 2.0 * z, y * y + z * z - 1.0)
  {
  }

  /**
   When the sphere quadratic of a ray has coefficients a, b, c with a nonzero and discriminant r*r,
   the hits are exactly the two roots of the quadratic formula, smaller first.
   */
  lemma SphereRootsFromCoefficients(m: Math, s: Sphere, ray: Ray, a: real, b: real, c: real, r: real)
    requires SphereQuadratic(ray) == Quadratic(a, b, c)
    requires a != 0.0 && r >= 0.0 && b * b - 4.0 * a * c == r * r
    requires Sqrt(m, r * r) == r
    ensures SphereIntersect(m, s, ray) == [((-b - r) / (2.0 * a), SphereBody(s)), ((-b + r) / (2.0 * a), SphereBody(s))]
  {
    var q := SphereQuadratic(ray);
    assert q.a == a && q.b == b && q.c == c;
    assert Discriminant(q) == r * r;
    assert Sqrt(m, Discriminant(q)) == r;
  }

  lemma AxisDiscriminant(z: real)
    ensures (2.0 * z) * (2.0 * z) - 4.0 * 1.0 * (z * z - 1.0) == 2.0 * 2.0
  {
  }

  lemma AxisRoots(m: Math, s: Sphere, ray: Ray, z: real)
    requires SqrtLaw(m)
    requires SphereQuadratic(ray) == Quadratic(1.0, 2.0 * z, z * z - 1.0)
    ensures SphereIntersect(m, s, ray) == [(-z - 1.0, SphereBody(s)), (-z + 1.0, SphereBody(s))]
  {
    SqrtOfSquare(m, 2.0);
    AxisDiscriminant(z);
    SphereRootsFromCoefficients(m, s, ray, 1.0, 2.0 * z, z * z - 1.0, 2.0);
  }

  /**
   A ray along the z axis starting at z meets the unit sphere at t = -z - 1 and t = -z + 1:
   from z = -5 at 4 and 6, from the centre at -1 and 1, from z = 5 (sphere behind) at -6 and -4.
   */
  lemma SphereHitsAlongAxis(m: Math, s: Sphere, z: real)
    requires SqrtLaw(m)
    ensures SphereIntersect(m, s, RayAlongZ(0.0, z)) == [(-z - 1.0, SphereBody(s)), (-z + 1.0, SphereBody(s))]
  {
    SphereQuadraticAlongZ(0.0, z);
    assert 0.0 * 0.0 + z * z - 1.0 == z * z - 1.0;
    AxisRoots(m, s, RayAlongZ(0.0, z), z);
  }

  /**
   A zero discriminant means the ray touches the sphere: the single touching point is
   reported twice, at the vertex `-b / 2a` of the quadratic.
   */
  lemma ZeroDiscriminantDoubleRoot(m: Math, s: Sphere, ray: Ray)
    requires SqrtLaw(m)
    requires Discriminant(SphereQuadratic(ray)) == 0.0 && SphereQuadratic(ray).a != 0.0
    ensures var q, hits := SphereQuadratic(ray), SphereIntersect(m, s, ray);
      |hits| == 2 && hits[0].0 == hits[1].0 == -q.b / (2.0 * q.a)
  {
    SqrtZeroIff(m, 0.0);
  }

  /** A ray at height 1 grazes the sphere: one touching point, reported twice, at t = -z. */
  lemma TangentRoots(m: Math, s: Sphere, ray: Ray, z: real)
    requires SqrtLaw(m)
    requires SphereQuadratic(ray) == Quadratic(1.0, 2.0 * z, 1.0 * 1.0 + z * z - 1.0)
    ensures SphereIntersect(m, s, ray) == [(-z, SphereBody(s)), (-z, SphereBody(s))]
  {
    SqrtOfSquare(m, 0.0);
    assert (2.0 * z) * (2.0 * z) - 4.0 * 1.0 * (1.0 * 1.0 + z * z - 1.0) == 0.0 * 0.0;
    SphereRootsFromCoefficients(m, s, ray, 1.0, 2.0 * z, 1.0 * 1.0 + z * z - 1.0, 0.0);
  }

  lemma MissDiscriminant(y: real, z: real)
    requires y > 1.0 || y < -1.0
    ensures (2.0 * z) * (2.0 * z) - 4.0 * 1.0 * (y * y + z * z - 1.0) < 0.0
  {
    assert y * y > 1.0 by {
      if y > 1.0 {
        SquareStrictlyMonotone(1.0, y);
      } else {
        SquareStrictlyMonotone(1.0, -y);
      }
    }
  }

  /**
   A ray along z that passes more than one unit from the axis (a quadratic with c = y*y + z*z - 1
   for |y| > 1) misses the unit sphere.
   */
  lemma MissRoots(m: Math, s: Sphere, ray: Ray, y: real, z: real)
    requires y > 1.0 || y < -1.0
    requires SphereQuadratic(ray) == Quadratic(1.0, 2.0 * z, y * y + z * z - 1.0)
    ensures SphereIntersect(m, s, ray) == []
  {
    MissDiscriminant(y, z);
    assert Discriminant(SphereQuadratic(ray)) < 0.0;
  }

  /** The source's head-on case: from z = -5 the hits are 4 and 6. */
  lemma SphereExampleHeadOn(m: Math)
    requires SqrtLaw(m)
    ensures SphereIntersect(m, DefaultSphere, RayAlongZ(0.0, -5.0)) == [(4.0, SphereBody(DefaultSphere)), (6.0, SphereBody(DefaultSphere))]
  {
    SphereHitsAlongAxis(m, DefaultSphere, -5.0);
  }

  /** The source's tangent case: at height 1 from z = -5 both hits are 5. */
  lemma SphereExampleTangent(m: Math)
    requires SqrtLaw(m)
    ensures SphereIntersect(m, DefaultSphere, RayAlongZ(1.0, -5.0)) == [(5.0, SphereBody(DefaultSphere)), (5.0, SphereBody(DefaultSphere))]
  {
    SphereQuadraticAlongZ(1.0, -5.0);
    TangentRoots(m, DefaultSphere, RayAlongZ(1.0, -5.0), -5.0);
  }

  /** The source's miss case: at height 2 from z = -5 there are no hits. */
  lemma SphereExampleMiss(m: Math)
    ensures SphereIntersect(m, DefaultSphere, RayAlongZ(2.0, -5.0)) == []
  {
    SphereQuadraticAlongZ(2.0, -5.0);
    MissRoots(m, DefaultSphere, RayAlongZ(2.0, -5.0), 2.0, -5.0);
  }

  /** `normal_at_in_object_space`: the direction from the centre, normalised. */
  function SphereNormal(m: Math, p: Tuple): (n: Tuple)
    ensures IsPoint(p) ==> IsVector(n)
  {
    Normalize(m, Sub(p, Origin))
  }

  /** On the unit sphere normalisation changes nothing: the normal is the point minus the centre. */
  lemma SphereNormalOnSurface(m: Math, p: Tuple)
    requires SqrtLaw(m)
    requires Dot(Sub(p, Origin), Sub(p, Origin)) == 1.0
    ensures SphereNormal(m, p) == Sub(p, Origin)
  {
    NormalizeUnitIsIdentity(m, Sub(p, Origin));
  }

  /**
   `Plane::intersect_in_object_space`: a ray whose direction is within EPSILON of parallel
   to the xz plane (including one lying in it) misses; otherwise one hit where y reaches 0.
   */
  function PlaneIntersect(p: Plane, ray: Ray): (hits: seq<(real, Body)>)
    ensures |hits| <= 1
    ensures |hits| == 0 <==> Fuzzy.Abs(ray.direction.y) < Fuzzy.EPSILON
    ensures forall i :: 0 <= i < |hits| ==> hits[i].1 == PlaneBody(p)
    ensures forall i :: 0 <= i < |hits| ==> Position(ray, hits[i].0).y == 0.0
  {
    if Fuzzy.Abs(ray.direction.y) < Fuzzy.EPSILON then []
    else
      var t := -ray.origin.y / ray.direction.y;
      assert ray.direction.y * t == -ray.origin.y;
      [(t, PlaneBody(p))]
  }

  /** `normal_at_in_object_space` of a plane: straight up, everywhere. */
  function PlaneNormal(p: Tuple): (n: Tuple)
    ensures IsVector(n) && n.x == 0.0 && n.y == 1.0 && n.z == 0.0
  {
    Vector(0.0, 1.0, 0.0)
  }

  /** The plane examples: parallel and coplanar rays miss; rays from above and below hit once at t = 1. */
  lemma PlaneExamples()
    ensures PlaneIntersect(DefaultPlane, Ray(Point(0.0, 10.0, 0.0), Vector(0.0, 0.0, 1.0))) == []
    ensures PlaneIntersect(DefaultPlane, Ray(Point(0.0, 0.0, 0.0), Vector(0.0, 0.0, 1.0))) == []
    ensures PlaneIntersect(DefaultPlane, Ray(Point(0.0, 1.0, 0.0), Vector(0.0, -1.0, 0.0))) == [(1.0, PlaneBody(DefaultPlane))]
    ensures PlaneIntersect(DefaultPlane, Ray(Point(0.0, -1.0, 0.0), Vector(0.0, 1.0, 0.0))) == [(1.0, PlaneBody(DefaultPlane))]
  {
  }

  /** `Body::intersect` in object space: forwards to the wrapped shape. */
  function ObjectIntersect(m: Math, b: Body, ray: Ray): (hits: seq<(real, Body)>)
    ensures forall i :: 0 <= i < |hits| ==> hits[i].1 == b
    ensures |hits| <= 2
  {
    match b
    case SphereBody(s) => SphereIntersect(m, s, ray)
    case PlaneBody(p) => PlaneIntersect(p, ray)
  }

  /** `Body::normal_at` in object space: forwards to the wrapped shape. */
  function ObjectNormal(m: Math, b: Body, p: Tuple): (n: Tuple)
    ensures IsPoint(p) ==> IsVector(n)
  {
    match b
    case SphereBody(_) => SphereNormal(m, p)
    case PlaneBody(_) => PlaneNormal(p)
  }

  /** `Body::material`: the wrapped shape's material. */
  function MaterialOf(b: Body): (mat: Material)
    ensures b.SphereBody? ==> mat == b.sphere.material
    ensures b.PlaneBody? ==> mat == b.plane.material
  {
    match b
    case SphereBody(s) => s.material
    case PlaneBody(p) => p.material
  }

  function TransformOf(b: Body): (t: Matrix)
    ensures b.SphereBody? ==> t == b.sphere.transform
    ensures b.PlaneBody? ==> t == b.plane.transform
  {
    match b
    case SphereBody(s) => s.transform
    case PlaneBody(p) => p.transform
  }

  /** Wrapping loses nothing: the body reports the shape's own material and transform. */
  lemma BodyFromShape(s: Sphere, p: Plane)
    ensures MaterialOf(SphereBody(s)) == s.material && TransformOf(SphereBody(s)) == s.transform
    ensures MaterialOf(PlaneBody(p)) == p.material && TransformOf(PlaneBody(p)) == p.transform
    ensures SphereBody(s).sphere == s && PlaneBody(p).plane == p
  {
  }
}
