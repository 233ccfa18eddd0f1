/**
 The scene (src/world.rs): bodies and lights, the merged sorted crossings of a ray with every
 body, the single-light shadow test, and the colour of a ray computed by the reflection
 recursion with a decreasing budget of remaining reflections.

 The source indexes `lights[0]` whenever a ray hits something, and panics on an empty light
 list. Colour functions therefore return `Option<Color>`: `None` stands for that panic.
 */
module Worlds {
  import opened Wrappers
  import opened Numerics
  import opened Tuples
  import opened Colors
  import opened Matrices
  import opened Rays
  import opened Lights
  import opened Materials
  import opened Bodies
  import opened Intersections
  import Crossings = Intersections

  datatype World = World(bodies: seq<Body>, lights: seq<PointLight>, reflectionLimit: nat)

  /** The reflection budget every world starts with. */
  const DefaultReflectionLimit: nat := 5

  /** `World::new`: the given bodies and lights with the default reflection budget. */
  function New(bodies: seq<Body>, lights: seq<PointLight>): (w: World)
    ensures w.bodies == bodies && w.lights == lights
    ensures w.reflectionLimit == DefaultReflectionLimit
  {
    World(bodies, lights, DefaultReflectionLimit)
  }

  /** `World::default`: no bodies, no lights, the default reflection budget. */
  function Default(): (w: World)
    ensures |w.bodies| == 0 && |w.lights| == 0
    ensures w.reflectionLimit == DefaultReflectionLimit
    ensures w == New([], [])
  {
    World([], [], DefaultReflectionLimit)
  }

  // ---------------------------------------------------------------------------------------
  // `World::intersect`

  /** The number of crossings each body reports, summed over the bodies. */
  function CrossingCount(m: Math, lin: Linear, bodies: seq<Body>, ray: Ray): (n: nat)
    ensures n <= 2 * |bodies|
  {
    if |bodies| == 0 then 0
    else |ObjectIntersect(m, bodies[0], ObjectRay(lin, bodies[0], ray))| + CrossingCount(m, lin, bodies[1..], ray)
  }

  /** The `flat_map` over the bodies: every body's crossings, body by body. */
  function AllCrossings(m: Math, lin: Linear, bodies: seq<Body>, ray: Ray): (xs: seq<Intersection>)
    ensures |xs| == CrossingCount(m, lin, bodies, ray)
    ensures forall i :: 0 <= i < |xs| ==> xs[i].ray == ray && xs[i].body in bodies
  {
    if |bodies| == 0 then []
    else
      var head := Crossings.Intersect(m, lin, bodies[0], ray).data;
      var tail := AllCrossings(m, lin, bodies[1..], ray);
      TailBodiesInWorld(bodies, tail);
      head + tail
  }

  /**
   `World::intersect`: the crossings of all bodies, sorted by t. Each comes from one of the
   world's bodies on this ray, and there are as many as the bodies report together.
   */
  function Intersect(m: Math, lin: Linear, w: World, ray: Ray): (xs: Intersections)
    ensures SortedByT(xs.data)
    ensures multiset(xs.data) == multiset(AllCrossings(m, lin, w.bodies, ray))
    ensures |xs.data| == CrossingCount(m, lin, w.bodies, ray)
    ensures forall i :: 0 <= i < |xs.data| ==> xs.data[i].ray == ray && xs.data[i].body in w.bodies
  {
    var all := AllCrossings(m, lin, w.bodies, ray);
    var r := Crossings.New(all);
    SortingKeepsCrossings(all, r.data, ray, w.bodies);
    r
  }

  /** Crossings of the later bodies are crossings of some body of the whole list. */
  lemma TailBodiesInWorld(bodies: seq<Body>, tail: seq<Intersection>)
    requires |bodies| > 0
    requires forall i :: 0 <= i < |tail| ==> tail[i].body in bodies[1..]
    ensures forall i :: 0 <= i < |tail| ==> tail[i].body in bodies
  {
    forall i | 0 <= i < |tail|
      ensures tail[i].body in bodies
    {
      var k :| 0 <= k < |bodies[1..]| && bodies[1..][k] == tail[i].body;
      assert bodies[k + 1] == tail[i].body;
    }
  }

  /** A reordering of crossings of `ray` with bodies of a list has as many, of the same kind. */
  lemma SortingKeepsCrossings(all: seq<Intersection>, sorted: seq<Intersection>, ray: Ray, bodies: seq<Body>)
    requires multiset(sorted) == multiset(all)
    requires forall i :: 0 <= i < |all| ==> all[i].ray == ray && all[i].body in bodies
    ensures |sorted| == |all|
    ensures forall i :: 0 <= i < |sorted| ==> sorted[i].ray == ray && sorted[i].body in bodies
  {
    assert |sorted| == |multiset(sorted)| == |multiset(all)| == |all|;
    forall i | 0 <= i < |sorted|
      ensures sorted[i].ray == ray && sorted[i].body in bodies
    {
      assert sorted[i] in multiset(all);
    }
  }

  /** A world without bodies has no crossings at all. */
  lemma EmptyWorldHasNoCrossings(m: Math, lin: Linear, w: World, ray: Ray)
    requires |w.bodies| == 0
    ensures Hit(Intersect(m, lin, w, ray)) == None
  {
  }

  // ---------------------------------------------------------------------------------------
  // `World::is_shadowed`

  /** From the point toward the first light, normalised. */
  function ShadowRay(m: Math, w: World, position: Tuple): (r: Ray)
    requires |w.lights| > 0
    ensures r.origin == position
    ensures IsPoint(position) && IsPoint(w.lights[0].position) ==> IsVector(r.direction)
  {
    Ray(position, Normalize(m, Tuples.Sub(w.lights[0].position, position)))
  }

  /** How far the first light is from the point. */
  function LightDistance(m: Math, w: World, position: Tuple): (d: real)
    requires |w.lights| > 0
    ensures SqrtLaw(m) ==> d >= 0.0
    ensures SqrtLaw(m) ==> d * d == Dot(Tuples.Sub(w.lights[0].position, position), Tuples.Sub(w.lights[0].position, position))
  {
    Magnitude(m, Tuples.Sub(w.lights[0].position, position))
  }

  /**
   `World::is_shadowed`: the point is in shadow exactly when some crossing of the ray toward
   the first light lies in front of the point (t > 0) and short of the light. Only the first
   light counts; the source panics when there is none.
   */
  function IsShadowed(m: Math, lin: Linear, w: World, position: Tuple): (r: bool)
    requires |w.lights| > 0
    ensures var xs := Intersect(m, lin, w, ShadowRay(m, w, position)).data;
      r <==> exists i :: 0 <= i < |xs| && 0.0 < xs[i].t < LightDistance(m, w, position)
  {
    var xs := Intersect(m, lin, w, ShadowRay(m, w, position));
    var distance := LightDistance(m, w, position);
    var h := Hit(xs);
    HitIsNearestPositive(xs);
    if h.Some? && h.value.t < distance then
      var i :| 0 <= i < |xs.data| && xs.data[i] == h.value;
      true
    else
      false
  }

  /** Nothing in the scene, nothing in the way. */
  lemma NoBodiesNoShadow(m: Math, lin: Linear, w: World, position: Tuple)
    requires |w.lights| > 0 && |w.bodies| == 0
    ensures !IsShadowed(m, lin, w, position)
  {
  }

  // ---------------------------------------------------------------------------------------
  // `World::color_at` and the reflection recursion

  /**
   `World::color_at_with_reflection_limit`: black for a ray without a positive hit; otherwise
   the first light's Phong shading at the over-point (shadowed as `IsShadowed` says) plus the
   reflected colour with the same budget. `None` when a hit meets an empty light list.
   */
  function ColorAtWithLimit(m: Math, lin: Linear, w: World, ray: Ray, remaining: nat): (c: Option<Color>)
    ensures Hit(Intersect(m, lin, w, ray)).None? ==> c == Some(Black)
    ensures c.None? <==> Hit(Intersect(m, lin, w, ray)).Some? && |w.lights| == 0
    decreases remaining, 1
  {
    var h := Hit(Intersect(m, lin, w, ray));
    if h.None? then Some(Black)
    else if |w.lights| == 0 then None
    else
      var c := GetComputed(m, lin, h.value);
      AddReflection(SurfaceColor(m, lin, w, h.value), ReflectColorAt(m, lin, w, MaterialOf(h.value.body), c, remaining))
  }

  /** The first light's Phong shading of the hit surface at its over-point, shadowed or not. */
  function SurfaceColor(m: Math, lin: Linear, w: World, hit: Intersection): Color
    requires |w.lights| > 0
  {
    var c := GetComputed(m, lin, hit);
    var inShadow := IsShadowed(m, lin, w, c.overPoint);
    MaterialLighting(m, lin, MaterialOf(hit.body), TransformOf(hit.body), w.lights[0],
                     c.overPoint, c.eyev, c.normalv, inShadow)
  }

  /** `surface + reflected`, undefined when the reflected colour is. */
  function AddReflection(surface: Color, reflected: Option<Color>): (r: Option<Color>)
    ensures r.None? <==> reflected.None?
    ensures reflected == Some(Black) ==> r == Some(surface)
  {
    match reflected
    case None => None
    case Some(x) => Some(Colors.Add(surface, x))
  }

  /**
   `World::reflect_color_at`: black for a non-reflective material or an exhausted budget;
   otherwise the colour along the reflected ray from the over-point, with one reflection
   fewer, scaled by the reflectiveness.
   */
  function ReflectColorAt(m: Math, lin: Linear, w: World, material: Material, c: Computed, remaining: nat): (r: Option<Color>)
    ensures Reflectiveness(material) == 0.0 || remaining == 0 ==> r == Some(Black)
    ensures |w.lights| > 0 ==> r.Some?
    decreases remaining, 0
  {
    if Reflectiveness(material) == 0.0 || remaining == 0 then Some(Black)
    else
      match ColorAtWithLimit(m, lin, w, Ray(c.overPoint, c.reflectv), remaining - 1)
      case None => None
      case Some(reflected) => Some(Colors.Scale(reflected, Reflectiveness(material)))
  }

  /** `World::color_at`: the recursion with the world's own budget. */
  function ColorAt(m: Math, lin: Linear, w: World, ray: Ray): (c: Option<Color>)
    ensures Hit(Intersect(m, lin, w, ray)).None? ==> c == Some(Black)
    ensures c.None? <==> Hit(Intersect(m, lin, w, ray)).Some? && |w.lights| == 0
  {
    ColorAtWithLimit(m, lin, w, ray, w.reflectionLimit)
  }

  /** Every ray in the default (empty) world is black. */
  lemma DefaultWorldIsBlack(m: Math, lin: Linear, ray: Ray)
    ensures ColorAt(m, lin, Default(), ray) == Some(Black)
  {
    EmptyWorldHasNoCrossings(m, lin, Default(), ray);
  }

  /**
   With a light and a hit, the colour is the surface shading plus the reflection, and with
   no budget left the reflection contributes black.
   */
  lemma NoBudgetIsSurfaceOnly(m: Math, lin: Linear, w: World, ray: Ray)
    requires |w.lights| > 0 && Hit(Intersect(m, lin, w, ray)).Some?
    ensures var h := Hit(Intersect(m, lin, w, ray)).value;
      var c := GetComputed(m, lin, h);
      ColorAtWithLimit(m, lin, w, ray, 0)
      == Some(MaterialLighting(m, lin, MaterialOf(h.body), TransformOf(h.body), w.lights[0], c.overPoint,
                               c.eyev, c.normalv, IsShadowed(m, lin, w, c.overPoint)))
  {
    var h := Hit(Intersect(m, lin, w, ray)).value;
    var c := GetComputed(m, lin, h);
    var surface := MaterialLighting(m, lin, MaterialOf(h.body), TransformOf(h.body), w.lights[0], c.overPoint,
                                    c.eyev, c.normalv, IsShadowed(m, lin, w, c.overPoint));
    MulIdentityAbsorbing(surface);
  }

  /** No body in the world reflects. */
  predicate NoMirrors(w: World)
  {
    forall b :: b in w.bodies ==> Reflectiveness(MaterialOf(b)) == 0.0
  }

  /** Without reflective bodies the budget is never consulted: every budget gives the same colour. */
  lemma BudgetIrrelevantWithoutMirrors(m: Math, lin: Linear, w: World, ray: Ray, r1: nat, r2: nat)
    requires NoMirrors(w)
    ensures ColorAtWithLimit(m, lin, w, ray, r1) == ColorAtWithLimit(m, lin, w, ray, r2)
  {
    HitBodyInWorld(m, lin, w, ray);
  }

  /** The body a ray hits is one of the world's bodies. */
  lemma HitBodyInWorld(m: Math, lin: Linear, w: World, ray: Ray)
    ensures var h := Hit(Intersect(m, lin, w, ray));
      h.Some? ==> h.value.body in w.bodies && h.value.ray == ray
  {
    var xs := Intersect(m, lin, w, ray);
    var h := Hit(xs);
    if h.Some? {
      var i :| 0 <= i < |xs.data| && xs.data[i] == h.value;
    }
  }

  /**
   How many colour evaluations one call of `ColorAtWithLimit` nests, itself included: one,
   plus those of the reflected ray when the hit surface reflects and budget remains.
   */
  function Evaluations(m: Math, lin: Linear, w: World, ray: Ray, remaining: nat): (n: nat)
    ensures 1 <= n <= remaining + 1
    decreases remaining
  {
    var h := Hit(Intersect(m, lin, w, ray));
    if h.None? || |w.lights| == 0 then 1
    else
      var c := GetComputed(m, lin, h.value);
      if Reflectiveness(MaterialOf(h.value.body)) == 0.0 || remaining == 0 then 1
      else 1 + Evaluations(m, lin, w, Ray(c.overPoint, c.reflectv), remaining - 1)
  }

  /**
   When a call nests no reflection although it had budget for one (a miss, no light, or a matte
   surface), the budget is not consulted: every budget gives the same colour.
   */
  lemma SingleEvaluationIgnoresBudget(m: Math, lin: Linear, w: World, ray: Ray, r: nat, r': nat)
    requires Evaluations(m, lin, w, ray, r) == 1 <= r
    ensures ColorAtWithLimit(m, lin, w, ray, r') == ColorAtWithLimit(m, lin, w, ray, r)
  {
    var h := Hit(Intersect(m, lin, w, ray));
    if h.Some? && |w.lights| > 0 {
      var c := GetComputed(m, lin, h.value);
      var material := MaterialOf(h.value.body);
      assert Reflectiveness(material) == 0.0;
      assert ReflectColorAt(m, lin, w, material, c, r) == Some(Black) == ReflectColorAt(m, lin, w, material, c, r');
    }
  }

  /** `color_at` nests at most `reflection_limit + 1` colour evaluations: six for a new world. */
  lemma ColorAtDepthBound(m: Math, lin: Linear, bodies: seq<Body>, lights: seq<PointLight>, ray: Ray)
    ensures Evaluations(m, lin, New(bodies, lights), ray, New(bodies, lights).reflectionLimit) <= 6
  {
  }
}
