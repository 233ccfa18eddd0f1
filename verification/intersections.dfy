/**
 Hit bookkeeping (src/intersections.rs): the crossings of a world-space ray with a body, the
 sorted collection of them, the "first positive t" hit, and the shading state precomputed at
 a hit. The world-space wrappers around the object-space primitives of `Bodies` (through the
 inverse of the body's transform) live here too, because they produce `Intersection`s.
 */
module Intersections {
  import opened Wrappers
  import opened Numerics
  import opened Tuples
  import opened Matrices
  import opened Rays
  import opened Bodies
  import Fuzzy

  /** One crossing: the parameter along the world-space ray, that ray, and the body it met. */
  datatype Intersection = Intersection(t: real, ray: Ray, body: Body)

  /** The crossings of one query, in ascending order of t once built by `New`. */
  datatype Intersections = Intersections(data: seq<Intersection>)

  predicate SortedByT(xs: seq<Intersection>)
  {
    forall i, j :: 0 <= i < j < |xs| ==> xs[i].t <= xs[j].t
  }

  /** Every crossing in `xs` lies at or beyond `t`. */
  predicate AllFrom(xs: seq<Intersection>, t: real)
  {
    forall k :: 0 <= k < |xs| ==> t <= xs[k].t
  }

  lemma AllFromMultiset(xs: seq<Intersection>, ys: seq<Intersection>, t: real)
    requires multiset(xs) == multiset(ys)
    requires AllFrom(ys, t)
    ensures AllFrom(xs, t)
  {
    forall k | 0 <= k < |xs|
      ensures t <= xs[k].t
    {
      assert xs[k] in multiset(xs);
      assert xs[k] in ys;
    }
  }

  // ---------------------------------------------------------------------------------------
  // Construction: `Intersections::new` sorts by t

  /** Put `x` in front of the first crossing that is not nearer than it. */
  function InsertByT(x: Intersection, xs: seq<Intersection>): (r: seq<Intersection>)
    requires SortedByT(xs)
    ensures SortedByT(r)
    ensures multiset(r) == multiset(xs) + multiset{x}
  {
    if |xs| == 0 then [x]
    else if x.t <= xs[0].t then [x] + xs
    else
      var rest := InsertByT(x, xs[1..]);
      InsertBehindHead(x, xs, rest);
      [xs[0]] + rest
  }

  /** Inserting behind the head keeps the head in front: it is no farther than anything after it. */
  lemma InsertBehindHead(x: Intersection, xs: seq<Intersection>, rest: seq<Intersection>)
    requires SortedByT(xs) && |xs| > 0 && xs[0].t < x.t
    requires SortedByT(rest) && multiset(rest) == multiset(xs[1..]) + multiset{x}
    ensures SortedByT([xs[0]] + rest)
    ensures multiset([xs[0]] + rest) == multiset(xs) + multiset{x}
  {
    assert AllFrom(xs[1..] + [x], xs[0].t);
    assert multiset(rest) == multiset(xs[1..] + [x]);
    AllFromMultiset(rest, xs[1..] + [x], xs[0].t);
    assert xs == [xs[0]] + xs[1..];
  }

  /** Insertion sort by t; the source's unstable sort may order equal t differently. */
  function SortByT(xs: seq<Intersection>): (r: seq<Intersection>)
    ensures SortedByT(r)
    ensures multiset(r) == multiset(xs)
    ensures |r| == |xs|
  {
    if |xs| == 0 then []
    else
      assert xs == [xs[0]] + xs[1..];
      InsertByT(xs[0], SortByT(xs[1..]))
  }

  /** `Intersections::new`: the same crossings, sorted ascending by t. */
  function New(xs: seq<Intersection>): (r: Intersections)
    ensures SortedByT(r.data)
    ensures multiset(r.data) == multiset(xs)
  {
    Intersections(SortByT(xs))
  }

  function Len(xs: Intersections): nat
  {
    |xs.data|
  }

  /** `Index`: the i-th nearest crossing; out of range the source panics. */
  function At(xs: Intersections, i: nat): (x: Intersection)
    requires i < Len(xs)
    ensures x in xs.data
  {
    xs.data[i]
  }

  /** Sorting neither loses nor invents a crossing, and the collection is read in t order. */
  lemma NewKeepsCrossings(xs: seq<Intersection>, i: nat, j: nat)
    ensures Len(New(xs)) == |xs|
    ensures forall x :: x in New(xs).data <==> x in xs
    ensures i <= j < Len(New(xs)) ==> At(New(xs), i).t <= At(New(xs), j).t
  {
    var r := New(xs).data;
    forall x
      ensures x in r <==> x in xs
    {
      assert x in r <==> x in multiset(r);
      assert x in xs <==> x in multiset(xs);
    }
  }

  /** A list already in order comes back unchanged. */
  lemma {:induction false} SortSortedIsIdentity(xs: seq<Intersection>)
    requires forall i :: 0 <= i < |xs| - 1 ==> xs[i].t < xs[i + 1].t
    ensures SortByT(xs) == xs
  {
    if |xs| > 0 {
      SortSortedIsIdentity(xs[1..]);
      assert SortByT(xs[1..]) == xs[1..];
      if |xs| > 1 {
        assert xs[0].t <= xs[1..][0].t;
      }
    }
  }

  // ---------------------------------------------------------------------------------------
  // The hit

  /** The first crossing with t > 0, scanning from the front. */
  function FirstPositive(data: seq<Intersection>): (r: Option<Intersection>)
    ensures r.None? <==> forall i :: 0 <= i < |data| ==> data[i].t <= 0.0
    ensures r.Some? ==> exists i :: 0 <= i < |data| && data[i] == r.value && r.value.t > 0.0
                                      && forall k :: 0 <= k < i ==> data[k].t <= 0.0
  {
    if |data| == 0 then None
    else if data[0].t > 0.0 then Some(data[0])
    else
      var r := FirstPositive(data[1..]);
      if r.Some? then
        var i :| 0 <= i < |data[1..]| && data[1..][i] == r.value && r.value.t > 0.0
                 && forall k :: 0 <= k < i ==> data[1..][k].t <= 0.0;
        assert data[i + 1] == r.value;
        assert forall k :: 0 <= k < i + 1 ==> data[k].t <= 0.0 by {
          forall k | 0 <= k < i + 1
            ensures data[k].t <= 0.0
          {
            if k > 0 {
              assert data[k] == data[1..][k - 1];
            }
          }
        }
        r
      else
        r
  }

  /** `Intersections::hit`. */
  function Hit(xs: Intersections): (r: Option<Intersection>)
    ensures r.None? <==> forall i :: 0 <= i < |xs.data| ==> xs.data[i].t <= 0.0
    ensures r.Some? ==> r.value in xs.data && r.value.t > 0.0
  {
    FirstPositive(xs.data)
  }

  /** The scanning loop of `hit`, returning as soon as it meets a positive t. */
  method HitScan(xs: Intersections) returns (r: Option<Intersection>)
    ensures r == Hit(xs)
    ensures r.None? <==> forall i :: 0 <= i < |xs.data| ==> xs.data[i].t <= 0.0
  {
    var i := 0;
    while i < |xs.data|
      invariant 0 <= i <= |xs.data|
      invariant forall k :: 0 <= k < i ==> xs.data[k].t <= 0.0
      invariant FirstPositive(xs.data) == FirstPositive(xs.data[i..])
    {
      if xs.data[i].t > 0.0 {
        return Some(xs.data[i]);
      }
      assert xs.data[i..][1..] == xs.data[i + 1..];
      i := i + 1;
    }
    return None;
  }

  /** On a sorted collection the hit is the nearest crossing in front of the ray's origin. */
  lemma HitIsNearestPositive(xs: Intersections)
    requires SortedByT(xs.data)
    ensures var h := Hit(xs);
      h.Some? ==> forall i :: 0 <= i < |xs.data| && xs.data[i].t > 0.0 ==> h.value.t <= xs.data[i].t
  {
    var h := Hit(xs);
    if h.Some? {
      var j :| 0 <= j < |xs.data| && xs.data[j] == h.value && h.value.t > 0.0
               && forall k :: 0 <= k < j ==> xs.data[k].t <= 0.0;
      forall i | 0 <= i < |xs.data| && xs.data[i].t > 0.0
        ensures h.value.t <= xs.data[i].t
      {
        assert j <= i;
      }
    }
  }

  /** Building from two crossings given nearer-last puts them in order. */
  lemma NewOfTwo(near: Intersection, far: Intersection)
    requires near.t < far.t
    ensures New([far, near]).data == [near, far]
  {
    assert [far, near][1..] == [near];
    assert SortByT([near]) == [near];
    assert InsertByT(far, [near]) == [near] + InsertByT(far, []);
  }

  /** The hit tests: all positive gives the nearer, a negative one is skipped. */
  lemma HitExamplesPositive(r: Ray, b: Body)
    ensures Hit(New([Intersection(2.0, r, b), Intersection(1.0, r, b)])) == Some(Intersection(1.0, r, b))
    ensures Hit(New([Intersection(1.0, r, b), Intersection(-1.0, r, b)])) == Some(Intersection(1.0, r, b))
  {
    NewOfTwo(Intersection(1.0, r, b), Intersection(2.0, r, b));
    NewOfTwo(Intersection(-1.0, r, b), Intersection(1.0, r, b));
  }

  /** The hit test with every t negative: no hit. */
  lemma HitExampleNegative(r: Ray, b: Body)
    ensures Hit(New([Intersection(-1.0, r, b), Intersection(-2.0, r, b)])) == None
  {
    NewOfTwo(Intersection(-2.0, r, b), Intersection(-1.0, r, b));
  }

  // ---------------------------------------------------------------------------------------
  // World-space intersection and normal of a body

  /** The world-space ray carried into the body's object space by the inverse transform. */
  function ObjectRay(lin: Linear, b: Body, ray: Ray): Ray
  {
    Transform(lin, ray, lin.inverse(TransformOf(b)))
  }

  /** Pair every object-space t with the original world-space ray. */
  function Wrap(hits: seq<(real, Body)>, ray: Ray): (xs: seq<Intersection>)
    ensures |xs| == |hits|
    ensures forall i :: 0 <= i < |hits| ==> xs[i].t == hits[i].0 && xs[i].ray == ray && xs[i].body == hits[i].1
  {
    seq(|hits|, i requires 0 <= i < |hits| => Intersection(hits[i].0, ray, hits[i].1))
  }

  /**
   `Body::intersect`: intersect in object space, then wrap each t with the world-space ray and
   this body, sorted by t.
   */
  function Intersect(m: Math, lin: Linear, b: Body, ray: Ray): (xs: Intersections)
    ensures SortedByT(xs.data)
    ensures |xs.data| == |ObjectIntersect(m, b, ObjectRay(lin, b, ray))|
    ensures forall i :: 0 <= i < |xs.data| ==> xs.data[i].ray == ray && xs.data[i].body == b
    ensures multiset(xs.data) == multiset(Wrap(ObjectIntersect(m, b, ObjectRay(lin, b, ray)), ray))
  {
    var hits := ObjectIntersect(m, b, ObjectRay(lin, b, ray));
    var wrapped := Wrap(hits, ray);
    var r := New(wrapped);
    assert forall i :: 0 <= i < |r.data| ==> r.data[i] in multiset(wrapped);
    r
  }

  /** A crossing of the world ray, mapped into the sphere's object space, lies on the unit sphere. */
  lemma IntersectSphereOnSurface(m: Math, lin: Linear, s: Sphere, ray: Ray, i: nat)
    requires SqrtLaw(m)
    requires ActsLinearly(lin, lin.inverse(s.transform))
    requires i < |Intersect(m, lin, SphereBody(s), ray).data|
    ensures var t := Intersect(m, lin, SphereBody(s), ray).data[i].t;
      var p := Sub(lin.mul(lin.inverse(s.transform), Position(ray, t)), Origin);
      Dot(p, p) == 1.0
  {
    var b := SphereBody(s);
    var objectRay := ObjectRay(lin, b, ray);
    var hits := ObjectIntersect(m, b, objectRay);
    var wrapped := Wrap(hits, ray);
    var x := Intersect(m, lin, b, ray).data[i];
    assert x in multiset(New(wrapped).data);
    assert x in wrapped;
    var j :| 0 <= j < |wrapped| && wrapped[j] == x;
    SphereHitsOnSurface(m, s, objectRay, j);
    TransformCommutesWithPosition(lin, ray, lin.inverse(s.transform), x.t);
  }

  /** A crossing of the world ray, mapped into the plane's object space, lies in the plane y = 0. */
  lemma IntersectPlaneInPlane(m: Math, lin: Linear, p: Plane, ray: Ray, i: nat)
    requires ActsLinearly(lin, lin.inverse(p.transform))
    requires i < |Intersect(m, lin, PlaneBody(p), ray).data|
    ensures var t := Intersect(m, lin, PlaneBody(p), ray).data[i].t;
      lin.mul(lin.inverse(p.transform), Position(ray, t)).y == 0.0
  {
    var b := PlaneBody(p);
    var objectRay := ObjectRay(lin, b, ray);
    var hits := ObjectIntersect(m, b, objectRay);
    var wrapped := Wrap(hits, ray);
    var x := Intersect(m, lin, b, ray).data[i];
    assert x in multiset(New(wrapped).data);
    assert x in wrapped;
    var j :| 0 <= j < |wrapped| && wrapped[j] == x;
    assert Position(objectRay, hits[j].0).y == 0.0;
    TransformCommutesWithPosition(lin, ray, lin.inverse(p.transform), x.t);
  }

  /**
   `Body::normal_at`: the world point goes into object space by the inverse transform, the
   shape's normal comes back by the transpose of that inverse, `w` is forced to 0 and the
   result is normalised.
   */
  function NormalAt(m: Math, lin: Linear, b: Body, p: Tuple): (n: Tuple)
    ensures IsVector(n)
  {
    var inv := lin.inverse(TransformOf(b));
    var objectNormal := ObjectNormal(m, b, lin.mul(inv, p));
    var worldNormal := lin.mul(lin.transpose(inv), objectNormal);
    NormalizeKeepsVector(m, worldNormal.(w := 0.0));
    Normalize(m, worldNormal.(w := 0.0))
  }

  /** Normalising twice is normalising once. */
  lemma NormalizeIdempotent(m: Math, a: Tuple)
    requires SqrtLaw(m)
    ensures Normalize(m, Normalize(m, a)) == Normalize(m, a)
  {
    MagnitudeZeroIff(m, a);
    if a != Zero {
      NormalizeIsUnit(m, a);
      NormalizeUnitIsIdentity(m, Normalize(m, a));
    }
  }

  /** For an untransformed body the world normal at a point is the object-space normal. */
  lemma NormalAtUntransformed(m: Math, lin: Linear, b: Body, p: Tuple)
    requires SqrtLaw(m)
    requires IdentityActs(lin) && lin.transpose(Identity) == Identity
    requires TransformOf(b) == Identity
    requires IsPoint(p)
    ensures NormalAt(m, lin, b, p) == ObjectNormal(m, b, p)
  {
    var n := ObjectNormal(m, b, p);
    assert n.(w := 0.0) == n;
    match b
    case SphereBody(_) =>
      NormalizeIdempotent(m, Sub(p, Origin));
    case PlaneBody(_) =>
      NormalizeUnitIsIdentity(m, Vector(0.0, 1.0, 0.0));
  }

  // ---------------------------------------------------------------------------------------
  // `Intersection::get_computed`

  /** The shading state at a hit. */
  datatype Computed = Computed(
    intersection: Intersection,
    point: Tuple,
    overPoint: Tuple,
    normalv: Tuple,
    eyev: Tuple,
    reflectv: Tuple,
    inside: bool
  )

  /**
   The shading state at a hit whose world normal is `normal`: the hit point, the eye vector back
   along the ray, the normal turned toward the eye (`inside` records the turn), the reflection of
   the ray direction about that normal, and the point nudged EPSILON along the normal.
   */
  function ComputedFrom(i: Intersection, normal: Tuple): (c: Computed)
    requires IsVector(normal)
    ensures c.intersection == i
    ensures c.point == Position(i.ray, i.t)
    ensures c.eyev == Neg(i.ray.direction)
    ensures c.inside <==> Dot(normal, c.eyev) < 0.0
    ensures c.normalv == (if c.inside then Neg(normal) else normal)
    ensures Dot(c.normalv, c.eyev) >= 0.0
    ensures IsVector(c.normalv)
    ensures c.reflectv == Reflect(i.ray.direction, c.normalv)
    ensures c.overPoint == Add(c.point, Scale(c.normalv, Fuzzy.EPSILON))
  {
    var position := Position(i.ray, i.t);
    var eyev := Neg(i.ray.direction);
    var inside := Dot(normal, eyev) < 0.0;
    var normalv := if inside then Neg(normal) else normal;
    DotNegLeft(normal, eyev);
    Computed(i, position, Add(position, Scale(normalv, Fuzzy.EPSILON)), normalv, eyev,
             Reflect(i.ray.direction, normalv), inside)
  }

  /** `get_computed`: the shading state with the body's own world normal at the hit point. */
  function GetComputed(m: Math, lin: Linear, i: Intersection): (c: Computed)
    ensures c.intersection == i
    ensures c.point == Position(i.ray, i.t)
    ensures c.eyev == Neg(i.ray.direction)
    ensures c.inside <==> Dot(NormalAt(m, lin, i.body, c.point), c.eyev) < 0.0
    ensures c.normalv == (if c.inside then Neg(NormalAt(m, lin, i.body, c.point)) else NormalAt(m, lin, i.body, c.point))
    ensures Dot(c.normalv, c.eyev) >= 0.0
    ensures IsVector(c.normalv)
    ensures c.reflectv == Reflect(i.ray.direction, c.normalv)
    ensures c.overPoint == Add(c.point, Scale(c.normalv, Fuzzy.EPSILON))
  {
    ComputedFrom(i, NormalAt(m, lin, i.body, Position(i.ray, i.t)))
  }

  /** The over-point never moves toward the surface's far side as seen from the eye. */
  lemma OverPointTowardEye(m: Math, lin: Linear, i: Intersection)
    ensures var c := GetComputed(m, lin, i);
      Dot(Sub(c.overPoint, c.point), c.eyev) >= 0.0
  {
    var c := GetComputed(m, lin, i);
    assert Sub(c.overPoint, c.point) == Scale(c.normalv, Fuzzy.EPSILON);
    DotScaleLeft(c.normalv, Fuzzy.EPSILON, c.eyev);
    MulMonotone(0.0, Dot(c.normalv, c.eyev), Fuzzy.EPSILON);
  }

  /** On the unit sphere the world normal of an untransformed sphere is the point minus the centre. */
  lemma UnitSphereNormal(m: Math, lin: Linear, p: Tuple)
    requires SqrtLaw(m)
    requires IdentityActs(lin) && lin.transpose(Identity) == Identity
    requires IsPoint(p) && Dot(Sub(p, Origin), Sub(p, Origin)) == 1.0
    ensures NormalAt(m, lin, SphereBody(DefaultSphere), p) == Sub(p, Origin)
  {
    NormalAtUntransformed(m, lin, SphereBody(DefaultSphere), p);
    SphereNormalOnSurface(m, p);
  }

  /** Given the world normal at the hit, `get_computed` is the shading state built from it. */
  lemma ComputedFacing(m: Math, lin: Linear, i: Intersection, n: Tuple)
    requires NormalAt(m, lin, i.body, Position(i.ray, i.t)) == n
    ensures IsVector(n) && GetComputed(m, lin, i) == ComputedFrom(i, n)
  {
  }

  /**
   A hit on the untransformed unit sphere: the normal is the point minus the centre, turned
   round exactly when it points away from the eye.
   */
  lemma ComputedOnUnitSphere(m: Math, lin: Linear, i: Intersection, p: Tuple)
    requires SqrtLaw(m)
    requires IdentityActs(lin) && lin.transpose(Identity) == Identity
    requires i.body == SphereBody(DefaultSphere)
    requires Position(i.ray, i.t) == p
    requires IsPoint(p) && Dot(Sub(p, Origin), Sub(p, Origin)) == 1.0
    ensures var c := GetComputed(m, lin, i);
      var n := Sub(p, Origin);
      c.inside == (Dot(n, Neg(i.ray.direction)) < 0.0)
      && c.normalv == (if c.inside then Neg(n) else n)
  {
    UnitSphereNormal(m, lin, p);
    ComputedFacing(m, lin, i, Sub(p, Origin));
  }

  /** With lawful square roots, the untransformed default sphere's normal at (0, 0, -1) points along -z. */
  lemma NearPoleNormal(m: Math, lin: Linear)
    requires SqrtLaw(m)
    requires IdentityActs(lin) && lin.transpose(Identity) == Identity
    ensures NormalAt(m, lin, SphereBody(DefaultSphere), Point(0.0, 0.0, -1.0)) == Vector(0.0, 0.0, -1.0)
  {
    PoleOffset(-1.0);
    UnitSphereNormal(m, lin, Point(0.0, 0.0, -1.0));
  }

  /** ... and at (0, 0, 1) along +z. */
  lemma FarPoleNormal(m: Math, lin: Linear)
    requires SqrtLaw(m)
    requires IdentityActs(lin) && lin.transpose(Identity) == Identity
    ensures NormalAt(m, lin, SphereBody(DefaultSphere), Point(0.0, 0.0, 1.0)) == Vector(0.0, 0.0, 1.0)
  {
    PoleOffset(1.0);
    UnitSphereNormal(m, lin, Point(0.0, 0.0, 1.0));
  }

  /** A normal that faces the eye is kept as it is and the hit is seen from outside. */
  lemma ComputedFacingEye(i: Intersection, n: Tuple, p: Tuple, e: Tuple)
    requires IsVector(n) && Position(i.ray, i.t) == p && Neg(i.ray.direction) == e && Dot(n, e) >= 0.0
    ensures var c := ComputedFrom(i, n);
      c.point == p && c.eyev == e && c.normalv == n && !c.inside
  {
  }

  /** A normal that points away from the eye is turned round and the hit is seen from inside. */
  lemma ComputedAwayFromEye(i: Intersection, n: Tuple, p: Tuple, e: Tuple)
    requires IsVector(n) && Position(i.ray, i.t) == p && Neg(i.ray.direction) == e && Dot(n, e) < 0.0
    ensures var c := ComputedFrom(i, n);
      c.point == p && c.eyev == e && c.normalv == Neg(n) && c.inside
  {
  }

  /** A hit at t on a ray along +z from (0, 0, z) is at (0, 0, z + t), seen looking along -z. */
  lemma HitAlongZ(i: Intersection, z: real)
    requires i.ray == RayAlongZ(0.0, z)
    ensures Position(i.ray, i.t) == Point(0.0, 0.0, z + i.t)
    ensures Neg(i.ray.direction) == Vector(0.0, 0.0, -1.0)
  {
    PositionAlongZ(0.0, z, i.t);
    EyeAlongZ(0.0, z);
  }

  /**
   The source's outside case: a ray from (0, 0, -5) along +z meets the default sphere at t = 4,
   where the normal (0, 0, -1) (`NearPoleNormal`) already faces the eye.
   */
  lemma ComputedOutside(i: Intersection, n: Tuple)
    requires i.t == 4.0 && i.ray == RayAlongZ(0.0, -5.0) && n == Vector(0.0, 0.0, -1.0)
    ensures var c := ComputedFrom(i, n);
      c.point == Point(0.0, 0.0, -1.0) && c.eyev == Vector(0.0, 0.0, -1.0)
      && c.normalv == Vector(0.0, 0.0, -1.0) && !c.inside
  {
    HitAlongZ(i, -5.0);
    AxisDot(-1.0, -1.0, 1.0);
    ComputedFacingEye(i, n, Point(0.0, 0.0, -1.0), Vector(0.0, 0.0, -1.0));
  }

  /**
   The source's inside case: from the sphere's centre along +z the hit is at t = 1, where the
   outward normal (0, 0, 1) (`FarPoleNormal`) is turned round to face the eye.
   */
  lemma ComputedInside(i: Intersection, n: Tuple)
    requires i.t == 1.0 && i.ray == RayAlongZ(0.0, 0.0) && n == Vector(0.0, 0.0, 1.0)
    ensures var c := ComputedFrom(i, n);
      c.point == Point(0.0, 0.0, 1.0) && c.eyev == Vector(0.0, 0.0, -1.0)
      && c.normalv == Vector(0.0, 0.0, -1.0) && c.inside
  {
    HitAlongZ(i, 0.0);
    AxisDot(1.0, -1.0, -1.0);
    ComputedAwayFromEye(i, n, Point(0.0, 0.0, 1.0), Vector(0.0, 0.0, -1.0));
    assert Neg(n) == Vector(0.0, 0.0, -1.0);
  }

  /** With lawful square roots, the outside case on the default sphere itself. */
  lemma SphereComputedOutside(m: Math, lin: Linear)
    requires SqrtLaw(m)
    requires IdentityActs(lin) && lin.transpose(Identity) == Identity
    ensures var i := Intersection(4.0, RayAlongZ(0.0, -5.0), SphereBody(DefaultSphere));
      GetComputed(m, lin, i) == ComputedFrom(i, Vector(0.0, 0.0, -1.0))
  {
    var i := Intersection(4.0, RayAlongZ(0.0, -5.0), SphereBody(DefaultSphere));
    PositionAlongZ(0.0, -5.0, 4.0);
    NearPoleNormal(m, lin);
    ComputedFacing(m, lin, i, Vector(0.0, 0.0, -1.0));
  }

  /** ... and the inside case. */
  lemma SphereComputedInside(m: Math, lin: Linear)
    requires SqrtLaw(m)
    requires IdentityActs(lin) && lin.transpose(Identity) == Identity
    ensures var i := Intersection(1.0, RayAlongZ(0.0, 0.0), SphereBody(DefaultSphere));
      GetComputed(m, lin, i) == ComputedFrom(i, Vector(0.0, 0.0, 1.0))
  {
    var i := Intersection(1.0, RayAlongZ(0.0, 0.0), SphereBody(DefaultSphere));
    PositionAlongZ(0.0, 0.0, 1.0);
    FarPoleNormal(m, lin);
    ComputedFacing(m, lin, i, Vector(0.0, 0.0, 1.0));
  }

  /** The pole (0, 0, w) lies w along z from the centre, at squared distance w * w. */
  lemma PoleOffset(w: real)
    requires w * w == 1.0
    ensures IsPoint(Point(0.0, 0.0, w))
    ensures Sub(Point(0.0, 0.0, w), Origin) == Vector(0.0, 0.0, w)
    ensures Dot(Sub(Point(0.0, 0.0, w), Origin), Sub(Point(0.0, 0.0, w), Origin)) == 1.0
  {
    assert Sub(Point(0.0, 0.0, w), Origin) == Vector(0.0, 0.0, w);
    AxisDot(w, w, 1.0);
  }

  /** Looking back along such a ray is looking along -z. */
  lemma EyeAlongZ(y: real, z: real)
    ensures Neg(RayAlongZ(y, z).direction) == Vector(0.0, 0.0, -1.0)
  {
  }

  lemma AxisDot(a: real, b: real, p: real)
    requires a * b == p
    ensures Dot(Vector(0.0, 0.0, a), Vector(0.0, 0.0, b)) == p
  {
  }

}
