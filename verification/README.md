# RusticRT core in Dafny

This project models the sequential core of RusticRT, a small Whitted-style ray tracer in Rust. The model covers:

- the homogeneous tuple and colour algebra with its 1e-5 fuzzy equality;
- rays and the object-space intersection of unit spheres and the xz plane;
- the closed `Body` enum that dispatches to them;
- the sorted intersection collection with its "first positive t" hit, and the shading state precomputed at a hit;
- Phong lighting and the four procedural patterns;
- the world's depth-bounded reflective recursion and its single-light shadow test;
- the camera's view geometry;
- the canvas pixel buffer and its P3 PPM text encoding.

Scalars (`F`, an `f64` in the source) are Dafny `real`s. The library calls `sqrt`, `tan` and `powf` are fields of a `Numerics.Math` record. A lemma that needs a fact about one of them takes the corresponding law (`SqrtLaw`, `PowfLaw`) as a precondition.

Matrices are not part of this model. The product of a matrix with a tuple, the inverse and the transpose are fields of an uninterpreted `Matrices.Linear` record. Only the identity matrix is concrete. A lemma that needs linearity assumes it as `ActsLinearly`.

Modules follow the source files:

| module | file |
|---|---|
| `Fuzzy` | `src/fuzzy_eq.rs` |
| `Tuples` | `src/tuple.rs` |
| `Colors` | `src/color.rs` |
| `Rays` | `src/ray.rs` |
| `Lights` | `src/lights.rs` |
| `Bodies` | `src/sphere.rs`, `src/plane.rs` and `src/body.rs` |
| `Intersections` | `src/intersections.rs`, plus the world-space layer of `Body::intersect` and `normal_at` |
| `Materials` | `src/material.rs` |
| `Patterns` | `src/pattern.rs` |
| `Worlds` | `src/world.rs` |
| `Cameras` | `src/camera.rs` |
| `Canvases` | `src/canvas.rs` |
| `Ppm` | `src/canvas/to_ppm.rs` |

Three support modules have no source file of their own:
- `Text`: decimal numerals, line lengths, and the whitespace-separated words a PPM reader sees.
- `Seqs`: generic slicing facts.
- `Wrappers`: `Option`.

The PPM encoder as written does not compile:
- a `pub fn` inside a trait at `src/canvas/to_ppm.rs:5`;
- the undefined name `byye` at :34;
- `self/width()` at :40;
- a free function taking `&self` at :84.

The model follows the intended algorithm of `create_ppm_pixel_data` (lines 84-133). The PPM file is its header followed by that pixel data, as the commented-out body at lines 73-78 assembles it.

The `Body` enum of `src/body.rs` lists only spheres, but `src/plane.rs:49` wraps planes in it. The model therefore has a `PlaneBody` variant. `Gradient::default()` and `Ring::default()` use `Color::green()` and `Color::red()`, which `src/color.rs` does not define, so the model takes those colours as parameters.

## Model

| member | source | states |
|---|---|---|
| Fuzzy.FuzzyEqWithinTolerance | src/fuzzy_eq.rs:11-15 | two floats are fuzzy-equal exactly when the second lies strictly within 1e-5 of the first |
| Fuzzy.FuzzyEq | src/fuzzy_eq.rs:11-15 | every float is fuzzy-equal to itself, and a fuzzy-equal partner lies strictly within 1e-5 |
| Fuzzy.FuzzyNe | src/fuzzy_eq.rs:6-8 | fuzzy-unequal floats are different, and floats at least 1e-5 apart are fuzzy-unequal |
| Fuzzy.FuzzyEqReflexiveSymmetric | src/fuzzy_eq.rs:13 | fuzzy equality is reflexive and symmetric |
| Fuzzy.FuzzyNeNegatesFuzzyEq | src/fuzzy_eq.rs:6-8 | `fuzzy_ne` holds exactly when `fuzzy_eq` fails, i.e. when the difference is at least 1e-5 |
| Fuzzy.FuzzyEqNotTransitive | src/fuzzy_eq.rs:13 | 0 ≈ 0.6e-5 and 0.6e-5 ≈ 1.2e-5, yet 0 and 1.2e-5 are not fuzzy-equal |
| Fuzzy.Abs | src/fuzzy_eq.rs:13 | `abs` is non-negative and is either the argument or its negation |
| Tuples.PointVectorConstructors | src/tuple.rs:22-38 | `point` makes a point that is not a vector and `vector` the reverse; a tuple is a point (vector) iff it equals the point (vector) of its own coordinates |
| Tuples.Add | src/tuple.rs:59-70 | adding the zero tuple changes nothing; point + vector is a point and vector + vector a vector |
| Tuples.Sub | src/tuple.rs:72-83 | point − point is a vector, point − vector a point, and a tuple minus itself is zero |
| Tuples.Neg | src/tuple.rs:85-91 | the negation is the additive inverse (a + (−a) = 0) and equals 0 − a |
| Tuples.Scale | src/tuple.rs:93-104 | scaling by 1 changes nothing, by 0 gives zero, and a scaled vector is a vector |
| Tuples.Div | src/tuple.rs:106-117 | dividing by a nonzero k is undone by scaling by k |
| Tuples.Dot | src/tuple.rs:131-133 | the dot product with the zero tuple is 0 |
| Tuples.Magnitude | src/tuple.rs:123-125 | with a lawful sqrt the magnitude is non-negative and squares to `dot(a, a)` |
| Tuples.Normalize | src/tuple.rs:127-129 | scaling the normalised tuple back by the magnitude gives the original; a vector stays a vector |
| Tuples.WDiscipline | src/tuple.rs:59-91 | point−point is a vector; point±vector is a point; vector±vector is a vector; negating or scaling a vector keeps it a vector; point+point is neither |
| Tuples.NegInvolution | src/tuple.rs:85-91 | negation undoes itself, a tuple plus its negation is zero, and zero minus a tuple is its negation |
| Tuples.ScaleDivRoundTrip | src/tuple.rs:93-117 | multiplying by a nonzero scalar and dividing by it returns the original tuple |
| Tuples.DotSymmetric | src/tuple.rs:131-133 | the dot product is symmetric |
| Tuples.DotSelfNonNegative | src/tuple.rs:131-133 | `a.dot(a)` is non-negative and zero only for the zero tuple |
| Tuples.MagnitudeLaw | src/tuple.rs:123-125 | with a lawful sqrt the magnitude is the non-negative root of `dot(a, a)` and vanishes only on the zero tuple |
| Tuples.NormalizeIsUnit | src/tuple.rs:127-129 | normalising a nonzero tuple gives a tuple of unit length |
| Tuples.NormalizeKeepsVector | src/tuple.rs:127-129 | normalising a vector gives a vector |
| Tuples.NormalizeUnitIsIdentity | src/tuple.rs:127-129 | normalising a unit tuple leaves it unchanged |
| Tuples.Cross | src/tuple.rs:135-145 | the cross product is defined for two vectors only (the source panics otherwise), is a vector, and is orthogonal to both operands |
| Tuples.CrossAnticommutative | src/tuple.rs:135-145 | `a × b == −(b × a)` |
| Tuples.ReflectAboutUnitNormal | src/tuple.rs:146-148 | for a unit normal n, reflection negates the component along n, preserves length, and reflecting twice gives back v |
| Tuples.ReflectFlipsNormalComponent | src/tuple.rs:146-148 | for a unit normal n the reflected vector's component along n is the negation of the original's |
| Tuples.ReflectTwice | src/tuple.rs:146-148 | reflecting twice about the same unit normal gives back the original vector |
| Tuples.ReflectKeepsLength | src/tuple.rs:146-148 | reflection about a unit normal preserves `dot(v, v)` |
| Tuples.ReflectNeg | src/tuple.rs:146-148 | reflecting −v is the negation of reflecting v |
| Tuples.Reflect | src/tuple.rs:146-148 | reflecting a vector about a vector gives a vector, and a vector orthogonal to the normal is unchanged |
| Tuples.TupleEqIsToleranceBox | src/tuple.rs:41-57 | tuple equality holds exactly when every one of x, y, z, w differs by less than 1e-5 |
| Tuples.TupleEqReflexiveSymmetric | src/tuple.rs:41-48 | tuple equality is reflexive and symmetric |
| Tuples.TupleEq | src/tuple.rs:41-57 | tuple equality is reflexive |
| Colors.Clamp | src/color.rs:24-30 | for lo ≤ hi every channel of the result lies in [lo, hi], and an in-range colour is returned unchanged |
| Colors.ClampIdempotent | src/color.rs:24-30 | clamping twice is clamping once |
| Colors.ClampExample | src/color.rs:142-148 | (1.1, 2.3, −6.4) clamps to (1, 1, 0) |
| Colors.ClampChannel | src/color.rs:26-28 | `min(hi).max(lo)` lies in [lo, hi] when lo ≤ hi, keeps an in-range value, and gives lo when hi < lo |
| Colors.AddSubRoundTrip | src/color.rs:33-55 | (a + b) − b == a and (a − b) + b == a |
| Colors.Add | src/color.rs:33-43 | adding black changes nothing |
| Colors.Sub | src/color.rs:45-55 | a colour minus itself is black, and subtracting black changes nothing |
| Colors.Scale | src/color.rs:57-69 | scaling by 1 changes nothing; scaling by 0, or scaling black, gives black |
| Colors.Mul | src/color.rs:71-80 | multiplying by white changes nothing, and multiplying with black gives black |
| Colors.MulCommutative | src/color.rs:71-80 | the Hadamard product is commutative |
| Colors.MulIdentityAbsorbing | src/color.rs:18-23 | white is the identity and black is absorbing for the Hadamard product; black is the identity for addition |
| Colors.ColorEqIsToleranceBox | src/color.rs:82-97 | colour equality holds exactly when every channel of the difference is within 1e-5 |
| Colors.ColorEqReflexiveSymmetric | src/color.rs:82-97 | colour equality is reflexive and symmetric |
| Colors.ColorEq | src/color.rs:82-97 | colour equality is reflexive |
| Rays.Transform | src/ray.rs:18-23 | the transformed ray's origin and direction are the matrix applied to the original origin and direction |
| Rays.PositionAtZero | src/ray.rs:15-17 | `position(0)` is the origin |
| Rays.Position | src/ray.rs:15-17 | at t = 0 the position is the origin; from a point origin along a vector direction it is a point |
| Rays.PositionAdditive | src/ray.rs:15-17 | `position(t + s)` is `position(t)` moved by `direction * s` |
| Rays.PositionIsPoint | src/ray.rs:15-17 | from a point origin along a vector direction every position is a point |
| Rays.TransformCommutesWithPosition | src/ray.rs:15-23 | for a linearly acting matrix, walking t along the transformed ray reaches the image of `position(t)` |
| Lights.FuzzyEqAsWrittenIgnoresIntensity | src/lights.rs:20-24 | as written, `fuzzy_eq` holds exactly when the positions are fuzzy-equal, whatever the intensities |
| Lights.FuzzyEqAsWrittenCounterexample | src/lights.rs:22 | a white and a black light at the origin are equal under the written comparison and unequal under the intended one |
| Lights.FuzzyEqMatchesLightEq | src/lights.rs:5-24 | the corrected comparison is the derived `PartialEq`; it is reflexive and symmetric, makes the intensities colour-equal, and implies the written comparison |
| Lights.LightEq | src/lights.rs:5-9 | the derived equality is reflexive and implies colour equality of the intensities |
| Lights.FuzzyEqAsWritten | src/lights.rs:20-24 | as written, two lights at the same position always compare equal |
| Lights.FuzzyEq | src/lights.rs:20-24 | the intended comparison is reflexive and implies the written one |
| Bodies.SphereWithMaterial | src/sphere.rs:31-34 | only the material changes |
| Bodies.SphereWithTransform | src/sphere.rs:35-38 | only the transform changes |
| Bodies.PlaneWithMaterial | src/plane.rs:32-35 | only the material changes |
| Bodies.PlaneWithTransform | src/plane.rs:36-39 | only the transform changes |
| Bodies.SphereQuadratic | src/sphere.rs:51-54 | the quadratic's leading coefficient is `direction · direction` |
| Bodies.SphereIntersect | src/sphere.rs:48-67 | zero or two hits; none exactly when the discriminant is negative (or the direction is zero); every hit carries this sphere |
| Bodies.SphereHitsOrdered | src/sphere.rs:60-61 | with a lawful sqrt the first returned t is at most the second |
| Bodies.SphereHitsAreRoots | src/sphere.rs:52-61 | every returned t solves a t² + b t + c = 0 |
| Bodies.SphereHitsOnSurface | src/sphere.rs:51-61 | every returned t is a parameter where the ray lies on the unit sphere |
| Bodies.OnSphere | src/sphere.rs:51-54 | the squared distance of `position(t)` from the centre is the quadratic's value at t plus one |
| Bodies.SphereHitsAlongAxis | src/sphere.rs:87-98 | a ray along z from z meets the sphere at −z−1 and −z+1, in that order |
| Bodies.SphereExampleHeadOn | src/sphere.rs:87-98 | from (0, 0, −5) the hits are 4 and 6 |
| Bodies.SphereExampleTangent | src/sphere.rs:99-110 | from (0, 1, −5) both hits are 5 |
| Bodies.TangentRoots | src/sphere.rs:57-66 | a ray whose quadratic is (1, 2z, z²), e.g. a unit direction along z, gets the double root −z twice |
| Bodies.ZeroDiscriminantDoubleRoot | src/sphere.rs:57-66 | with a lawful sqrt, any ray whose discriminant is zero gets two hits, both at −b / (2a) |
| Bodies.SphereExampleMiss | src/sphere.rs:111-120 | from (0, 2, −5) there are no hits |
| Bodies.MissRoots | src/sphere.rs:57-58 | a ray along z more than one unit off the axis gets no hits |
| Bodies.SphereNormal | src/sphere.rs:68-70 | the normal at a point is a vector |
| Bodies.SphereNormalOnSurface | src/sphere.rs:68-70 | on the unit sphere the normal is the point minus the centre (normalising changes nothing) |
| Bodies.PlaneIntersect | src/plane.rs:43-52 | at most one hit; none exactly when abs(direction.y) < 1e-5; the hit carries this plane and its position has y = 0 |
| Bodies.PlaneNormal | src/plane.rs:53-55 | the normal is the vector (0, 1, 0) everywhere |
| Bodies.PlaneExamples | src/plane.rs:87-125 | parallel and coplanar rays miss; rays from above and from below hit once at t = 1 |
| Bodies.ObjectIntersect | src/body.rs:25-30 | the dispatch returns at most two hits, each carrying the dispatching body |
| Bodies.ObjectNormal | src/body.rs:31-35 | the dispatched normal at a point is a vector |
| Bodies.MaterialOf | src/body.rs:36-40 | a body's material is its shape's material |
| Bodies.TransformOf | src/body.rs:14-17 | a body's transform is its shape's transform |
| Bodies.BodyFromShape | src/body.rs:19-23 | wrapping a shape loses nothing: the body reports the shape's material and transform and unwraps to it |
| Intersections.InsertByT | src/intersections.rs:38-41 | inserting into a sorted list keeps it sorted and adds exactly the inserted crossing |
| Intersections.SortByT | src/intersections.rs:38-41 | the result is sorted by t and is a permutation of the input |
| Intersections.New | src/intersections.rs:38-45 | the collection is sorted ascending by t and holds exactly the input crossings (as a multiset) |
| Intersections.NewKeepsCrossings | src/intersections.rs:38-48 | `len` equals the input length, membership is preserved both ways, and indexing reads in ascending t |
| Intersections.At | src/intersections.rs:68-73 | indexing within `len` returns a member of the collection |
| Intersections.SortSortedIsIdentity | src/intersections.rs:38-45 | a list already strictly increasing in t comes back unchanged |
| Intersections.Hit | src/intersections.rs:52-59 | no hit exactly when every t ≤ 0; a hit is a member with t > 0 |
| Intersections.HitScan | src/intersections.rs:52-59 | the early-returning loop computes the same hit, and returns None exactly when no t is positive |
| Intersections.FirstPositive | src/intersections.rs:53-58 | the scan returns None iff no t is positive, and otherwise an element with t > 0 |
| Intersections.HitIsNearestPositive | src/intersections.rs:52-59 | on a sorted collection the hit's t is at most every positive t |
| Intersections.NewOfTwo | src/intersections.rs:38-45 | two crossings given far-first come out near-first |
| Intersections.HitExamplesPositive | src/intersections.rs:92-117 | with t ∈ {1, 2} the hit is t = 1; with t ∈ {−1, 1} it is t = 1 |
| Intersections.HitExampleNegative | src/intersections.rs:120-131 | with t ∈ {−2, −1} there is no hit |
| Intersections.Wrap | src/sphere.rs:62-65 | every object-space (t, body) pair becomes a crossing with that t, that body and the world ray |
| Intersections.Intersect | src/body.rs:25-30 | a body's crossings are the object-space hits of the inverse-transformed ray, as a multiset, re-wrapped with the world ray and this body, and sorted by t |
| Intersections.IntersectSphereOnSurface | src/sphere.rs:48-61 | for a linearly acting inverse transform, every crossing of the world ray maps into object space onto the unit sphere |
| Intersections.IntersectPlaneInPlane | src/plane.rs:43-52 | for a linearly acting inverse transform, every crossing of the world ray maps into object space onto the plane y = 0 |
| Intersections.NormalAt | src/body.rs:31-35 | the world normal is a vector |
| Intersections.NormalizeIdempotent | src/tuple.rs:127-129 | normalising twice is normalising once |
| Intersections.NormalAtUntransformed | src/body.rs:31-35 | for an untransformed body the world normal at a point is the object-space normal |
| Intersections.ComputedFrom | src/intersections.rs:20-30 | point = position(t), eyev = −direction, inside iff normal · eyev < 0 with the normal negated then, so afterwards normalv · eyev ≥ 0; over_point = point + normalv·EPSILON |
| Intersections.GetComputed | src/intersections.rs:20-30 | the same facts for the body's own world normal at the hit point |
| Intersections.OverPointTowardEye | src/intersections.rs:24-28 | the over-point's offset from the hit point never points away from the eye |
| Intersections.ComputedFacing | src/intersections.rs:20-30 | given the world normal at the hit, `get_computed` is the shading state built from it |
| Intersections.ComputedOnUnitSphere | src/intersections.rs:20-27 | on the untransformed unit sphere the normal is point − centre, turned round exactly when it faces away from the eye |
| Intersections.ComputedFacingEye | src/intersections.rs:24-27 | a normal facing the eye is kept and the hit is outside |
| Intersections.ComputedAwayFromEye | src/intersections.rs:24-27 | a normal facing away is negated and the hit is inside |
| Intersections.ComputedOutside | src/intersections.rs:146-155 | from (0, 0, −5) at t = 4: point (0, 0, −1), eyev and normalv (0, 0, −1), not inside |
| Intersections.ComputedInside | src/intersections.rs:156-165 | from the origin at t = 1: point (0, 0, 1), eyev (0, 0, −1), normal turned to (0, 0, −1), inside |
| Intersections.SphereComputedOutside | src/intersections.rs:146-155 | on the default sphere the outside case uses the normal (0, 0, −1) |
| Intersections.SphereComputedInside | src/intersections.rs:156-165 | on the default sphere the inside case uses the normal (0, 0, 1) |
| Intersections.NearPoleNormal | src/sphere.rs:68-70 | the default sphere's normal at (0, 0, −1) is (0, 0, −1) |
| Intersections.FarPoleNormal | src/sphere.rs:68-70 | the default sphere's normal at (0, 0, 1) is (0, 0, 1) |
| Intersections.UnitSphereNormal | src/sphere.rs:68-70 | on the default sphere the world normal at a surface point is the point minus the origin |
| Materials.Reflectiveness | src/material.rs:58-64 | a material's reflectiveness is its Phong `reflective` coefficient |
| Materials.WithColor | src/material.rs:134-137 | only the colour changes |
| Materials.WithAmbient | src/material.rs:139-142 | only the ambient coefficient changes |
| Materials.WithDiffuse | src/material.rs:144-147 | only the diffuse coefficient changes |
| Materials.WithSpecular | src/material.rs:149-152 | only the specular coefficient changes |
| Materials.WithShininess | src/material.rs:154-157 | only the shininess changes |
| Materials.WithPattern | src/material.rs:158-161 | only the pattern changes, to `Some(pattern)` |
| Materials.WithReflective | src/material.rs:162-165 | only the reflectiveness changes |
| Materials.BaseColor | src/material.rs:104-107 | without a pattern the base colour is the material colour; with a stripe, ring or checker pattern it is one of the pattern's two colours |
| Materials.PatternedBaseColor | src/material.rs:104-107 | with a pattern the base colour is the pattern's: one of its two colours, or channelwise between them for a gradient, and with identity transforms exactly the pattern-space colour at the point |
| Materials.EffectiveColor | src/material.rs:104-108 | a black light gives black; a white light gives the base colour |
| Materials.DiffuseTerm | src/material.rs:114-119 | black when the light is behind the surface, when the diffuse coefficient is 0 or the light is black |
| Materials.SpecularTerm | src/material.rs:114-127 | black when the light is behind the surface, when reflect·eye ≤ 0, when the specular coefficient is 0 or the light is black |
| Materials.PlainEffectiveColor | src/material.rs:104-108 | without a pattern the effective colour is the material colour times the light's intensity |
| Materials.Lighting | src/material.rs:92-130 | in shadow the result is exactly the ambient term; otherwise it is ambient + diffuse + specular, unclamped |
| Materials.MaterialLighting | src/material.rs:42-56 | `Material::lighting` is the Phong lighting of the wrapped Phong |
| Materials.AmbientOnlyCases | src/material.rs:110-117 | in shadow, or with the light behind the surface (light·normal < 0), the result is exactly the ambient term |
| Materials.SpecularGate | src/material.rs:114-124 | the specular term is black when reflect·eye ≤ 0 or when light·normal < 0 |
| Materials.DiffuseNonNegative | src/material.rs:114-119 | for a non-negative effective colour and diffuse coefficient the diffuse term is non-negative |
| Materials.SpecularNonNegative | src/material.rs:120-127 | for a non-negative light and specular coefficient the specular term is non-negative |
| Materials.ShadowNeverBrightens | src/material.rs:110-129 | for non-negative colours and coefficients, the shadowed result is channelwise at most the lit one |
| Materials.LitSum | src/material.rs:119-129 | with light·normal ≥ 0 and reflect·eye > 0 the result is ambient + diffuse·(light·normal) + specular·powf(reflect·eye, shine) |
| Materials.LightVectorAlongZ | src/material.rs:109 | the light vector toward (0, 0, ±10) from the origin is (0, 0, ±1) |
| Materials.LightingEyeBetweenLightAndSurface | src/material.rs:205-216 | eye between the light and the surface: the default material gives (1.9, 1.9, 1.9) |
| Materials.FullHighlight | src/material.rs:119-129 | with both dot products 1 and a white light the default material gives (1.9, 1.9, 1.9) |
| Materials.LightingLightBehindSurface | src/material.rs:270-285 | with the light behind the surface only the ambient (0.1, 0.1, 0.1) remains |
| Materials.LightingInShadow | src/material.rs:286-301 | in shadow the default material under a white light gives (0.1, 0.1, 0.1) |
| Materials.MaterialFuzzyEqIgnoresReflective | src/material.rs:168-177 | Phong `fuzzy_eq` ignores `reflective`: two materials with different reflectiveness compare equal |
| Materials.MaterialFuzzyEqSeesColor | src/material.rs:168-177 | changing the colour by more than the tolerance breaks material equality |
| Materials.PhongFuzzyEq | src/material.rs:168-177 | equal Phongs have colour-equal colours, and Phongs differing only in `reflective` are equal |
| Materials.PhongFuzzyEqAsWrittenCounterexample | src/material.rs:168-177 | the comparison with the corrected pattern test implies the one with the written test, and two striped defaults differing only in color_a are equal as written but not as intended |
| Materials.MaterialFuzzyEq | src/material.rs:179-188 | material equality is reflexive |
| Materials.DefaultMaterialValues | src/material.rs:77-89 | the defaults are white, ambient 0.1, diffuse 0.9, specular 0.9, shine 200, no pattern, reflectiveness 0, and `with_reflective(0.5)` sets 0.5 |
| Patterns.SaturateIsize | src/pattern.rs:113 | `as isize` stays within the isize range, is the identity inside it, and saturates at either bound outside it |
| Patterns.RemTrunc | src/pattern.rs:113 | Rust's `%` by b > 0 gives a remainder strictly between −b and b with the sign of the dividend |
| Patterns.RemTruncParity | src/pattern.rs:113 | the truncating remainder by 2 is zero exactly when the number is even |
| Patterns.EvenBandInRange | src/pattern.rs:113 | inside the isize range the band test is the parity of the band |
| Patterns.EvenBandSaturated | src/pattern.rs:113 | beyond isize::MAX the band counts as odd, below isize::MIN as even |
| Patterns.DefaultGradient | src/pattern.rs:150-158 | the default gradient runs from the given green to the given red with the identity transform |
| Patterns.DefaultRing | src/pattern.rs:197-205 | the default ring alternates the given green and red with the identity transform |
| Patterns.WithColors | src/pattern.rs:88-92 | the same kind of pattern and transform with both colours replaced |
| Patterns.WithTransform | src/pattern.rs:94-97 | the same kind of pattern and colours with the transform replaced |
| Patterns.Fraction | src/pattern.rs:163 | `x − floor(x)` lies in [0, 1) |
| Patterns.ColorAtInPatternSpace | src/pattern.rs:38-46 | stripe, ring and checker always return color_a or color_b |
| Patterns.ColorAt | src/pattern.rs:11-16 | the colour at a world point is color_a or color_b for every kind but the gradient |
| Patterns.ColorAtUntransformed | src/pattern.rs:11-16 | with identity transforms the world point is the pattern point |
| Patterns.StripeAlternates | src/pattern.rs:110-118 | a stripe is color_a exactly when floor(x) is even |
| Patterns.StripeIgnoresYZ | src/pattern.rs:287-322 | a stripe is constant in y and in z |
| Patterns.StripeStepSwaps | src/pattern.rs:110-118 | two steps along x give the same stripe colour, and with distinct colours one step gives a different one |
| Patterns.StripeExamples | src/pattern.rs:323-354 | the default stripe is black at 0, 0.9 and −1.1, and white at 1, −0.1 and −1 |
| Patterns.GradientBetween | src/pattern.rs:160-165 | each gradient channel lies between the two end colours' channels |
| Patterns.GradientIsLerp | src/pattern.rs:160-165 | each gradient channel is a + (b − a)·(x − floor x) |
| Patterns.GradientRepeats | src/pattern.rs:160-165 | the gradient is color_a at integer x and repeats with period 1 |
| Patterns.GradientExamples | src/pattern.rs:403-426 | white to black at x = 0.25, 0.5 and 0.75 gives 0.75, 0.5 and 0.25 grey |
| Patterns.RingBands | src/pattern.rs:207-214 | with x² + z² in [n², (n+1)²) the ring is color_a exactly when n is even |
| Patterns.RingRadiusFloor | src/pattern.rs:209 | with a lawful sqrt, `floor(sqrt(x² + z²))` is n on that annulus |
| Patterns.RingOfRadius | src/pattern.rs:207-214 | a ring colour is fixed by the parity of its radius's floor |
| Patterns.RingExampleCentre | src/pattern.rs:428-452 | the ring is color_a at the centre |
| Patterns.RingExampleOnAxes | src/pattern.rs:428-452 | the ring is color_b at (1, 0, 0) and (0, 0, 1) |
| Patterns.RingExampleDiagonal | src/pattern.rs:428-452 | the ring is color_b at (0.708, 0, 0.708) |
| Patterns.CheckerParity | src/pattern.rs:257-267 | a checker is color_a exactly when floor x + floor y + floor z is even |
| Patterns.CheckerStepSwaps | src/pattern.rs:257-267 | one unit step along any axis swaps the checker colour |
| Patterns.CheckerExamples | src/pattern.rs:454-512 | the default checker is white at 0.99 and black at 1.01 along each axis |
| Patterns.PatternFuzzyEqAsWrittenCounterexample | src/pattern.rs:124-128 | stripes that differ only in color_a compare equal as written, yet paint the origin differently |
| Patterns.PatternFuzzyEqProperties | src/pattern.rs:26-36 | the intended comparison is reflexive and symmetric and implies the written one; the written one is exactly "same kind and color_b fuzzy-equal" |
| Patterns.PatternFuzzyEq | src/pattern.rs:26-36 | the intended comparison is reflexive, implies the written one, and holds only between patterns of the same kind |
| Patterns.PatternFuzzyEqAsWritten | src/pattern.rs:124-128 | as written, patterns of the same kind with the same color_b compare equal |
| Patterns.PatternFuzzyEqPaintsAlike | src/pattern.rs:26-36 | patterns equal under the intended comparison (with equal transforms) paint every point with fuzzy-equal colours |
| Patterns.GradientFuzzyEqPaintsAlike | src/pattern.rs:171-175 | gradients with fuzzy-equal end colours paint fuzzy-equal colours everywhere |
| Worlds.New | src/world.rs:20-24 | the given bodies and lights with reflection limit 5 |
| Worlds.Default | src/world.rs:95-103 | no bodies, no lights, reflection limit 5 |
| Worlds.AllCrossings | src/world.rs:27-31 | the flattened crossings number the sum of the per-body counts; each carries the ray and a body of the world |
| Worlds.CrossingCount | src/world.rs:25-33 | each body contributes at most two crossings |
| Worlds.Intersect | src/world.rs:25-33 | the world's crossings are a sorted permutation of all bodies' crossings, as many as their sum, each with a world body |
| Worlds.EmptyWorldHasNoCrossings | src/world.rs:25-33 | a world without bodies has no hit |
| Worlds.IsShadowed | src/world.rs:79-92 | shadowed exactly when some crossing toward the first light has 0 < t < the light's distance |
| Worlds.ShadowRay | src/world.rs:79-84 | the shadow ray starts at the shaded point, and between points its direction is a vector |
| Worlds.LightDistance | src/world.rs:79-81 | with a lawful sqrt the distance is non-negative and squares to the dot of the point-to-light vector with itself |
| Worlds.NoBodiesNoShadow | src/world.rs:79-92 | with no bodies nothing is in shadow |
| Worlds.ColorAtWithLimit | src/world.rs:52-67 | black when the ray has no positive hit; undefined (the source panics) exactly when a hit meets an empty light list |
| Worlds.AddReflection | src/world.rs:64-65 | `surface + reflected` is undefined exactly when the reflected colour is, and a black reflection leaves the surface colour |
| Worlds.ReflectColorAt | src/world.rs:69-77 | black when the reflectiveness is 0 or no reflections remain; defined whenever there is a light |
| Worlds.ColorAt | src/world.rs:35-50 | `color_at` is the limited recursion with the world's own budget: black on a miss |
| Worlds.DefaultWorldIsBlack | src/world.rs:177-184 | every ray in the default world is black |
| Worlds.NoBudgetIsSurfaceOnly | src/world.rs:57-76 | with a hit and no budget left the colour is exactly the surface shading |
| Worlds.BudgetIrrelevantWithoutMirrors | src/world.rs:69-76 | without reflective bodies every budget gives the same colour |
| Worlds.HitBodyInWorld | src/world.rs:25-33 | the hit crossing carries the query ray and one of the world's bodies |
| Worlds.Evaluations | src/world.rs:52-77 | one colour evaluation nests between 1 and remaining + 1 evaluations, itself included |
| Worlds.SingleEvaluationIgnoresBudget | src/world.rs:52-77 | a call that nests no reflection although its budget allowed one gives the same colour under every budget |
| Worlds.ColorAtDepthBound | src/world.rs:20-24 | `color_at` in a new world nests at most six colour evaluations |
| Cameras.New | src/camera.rs:19-44 | stores sizes and field of view with the identity transform; the aspect-ratio branch picks half width and half height; pixel_size · hsize == 2 · half_width |
| Cameras.WithTransform | src/camera.rs:45-48 | only the transform changes |
| Cameras.HalvesKeepAspect | src/camera.rs:20-31 | half_width == half_height · aspect in both branches, and the larger half is the half size |
| Cameras.SquarePixels | src/camera.rs:20-33 | pixels are square: pixel_size · vsize == 2 · half_height |
| Cameras.PixelSizePositive | src/camera.rs:20-33 | with a positive half size, the half width and the pixel size are positive |
| Cameras.PixelCentresInsideView | src/camera.rs:66-70 | every pixel centre lies strictly inside (−half_width, half_width) × (−half_height, half_height) |
| Cameras.WorldX | src/camera.rs:67-69 | with a positive pixel size every column's x lies below the half width |
| Cameras.WorldY | src/camera.rs:68-70 | with a positive pixel size every row's y lies below the half height |
| Cameras.MiddleColumnIsCentred | src/camera.rs:67-69 | for odd hsize, the middle column has world_x = 0 |
| Cameras.PixelSizeExamples | src/camera.rs:166-176 | with tan(fov/2) = 1, canvases of 200×125 and 125×200 have pixel size 0.01 |
| Canvases.New | src/canvas.rs:37-43 | the given size, one colour per pixel, all black |
| Canvases.PixelIndex | src/canvas.rs:47-49 | for an in-row column the index divided by the width is the row and the remainder is the column |
| Canvases.ColorAt | src/canvas.rs:44-46 | the read colour is one of the buffer's, and black on an all-black canvas |
| Canvases.WritePixel | src/canvas.rs:50-53 | size and buffer length kept, validity kept, every other slot unchanged |
| Canvases.IndexInBuffer | src/canvas.rs:47-49 | an in-bounds pixel's index is within the buffer |
| Canvases.IndexInjective | src/canvas.rs:47-49 | in-bounds pixels share an index exactly when they are the same pixel |
| Canvases.RowOfIndex | src/canvas.rs:47-49 | division and remainder by the width recover the row and the column |
| Canvases.WriteThenRead | src/canvas.rs:44-53 | reading a written pixel gives the written colour |
| Canvases.WriteLeavesOthers | src/canvas.rs:44-53 | writing one in-bounds pixel leaves every other in-bounds pixel unchanged |
| Canvases.PastRightEdgeWrapsToNextRow | src/canvas.rs:44-53 | the column one past the right edge is the first pixel of the next row, so writing there changes that pixel |
| Canvases.NewCanvasIsBlack | src/canvas.rs:60-71 | a new 10×20 canvas has 200 pixels, all black |
| Text.NatToString | src/canvas/to_ppm.rs:92-94 | the decimal numeral is non-empty, all digits, and has no leading zero |
| Text.ParseNatToString | src/canvas/to_ppm.rs:92-94 | reading the numeral back gives the number |
| Text.NatToStringInjective | src/canvas/to_ppm.rs:92-94 | different numbers get different numerals |
| Text.ByteNumeralLength | src/canvas/to_ppm.rs:92-94 | a byte's numeral has 1, 2 or 3 digits exactly by its magnitude |
| Text.WordsAppend | src/canvas/to_ppm.rs:67-72 | text ending in whitespace and the text after it are read as separate words |
| Text.WordsOfRender | src/canvas/to_ppm.rs:99-131 | values laid out with whitespace separators and a final newline read back as exactly those values |
| Text.RenderExtend | src/canvas/to_ppm.rs:122-128 | appending one separator and one value extends the layout at its end |
| Ppm.HeaderWords | src/canvas/to_ppm.rs:9-13 | the header reads as "P3", the width, the height and "255" |
| Ppm.Header | src/canvas/to_ppm.rs:9-13 | the header starts with "P3\n" and ends with a newline |
| Ppm.FieldWords | src/canvas/to_ppm.rs:9-13 | four non-empty space-free fields laid out as "a\nb c\nd\n" read back as exactly those four words |
| Ppm.HeaderExample | src/canvas.rs:80-90 | the header of a 5×3 canvas is "P3\n5 3\n255\n" |
| Ppm.Round | src/canvas/to_ppm.rs:89-91 | `round` is within 0.5 of its argument, and halfway cases go away from zero |
| Ppm.SaturatingByte | src/canvas/to_ppm.rs:89-91 | `as u8` stays within 0..255 and is the identity inside that range |
| Ppm.ChannelByte | src/canvas/to_ppm.rs:88-91 | the byte is at most 255 and within 0.5 of the clamped channel times 255 |
| Ppm.ChannelByteMonotone | src/canvas/to_ppm.rs:88-91 | a brighter channel never gets a smaller byte |
| Ppm.ChannelByteSaturates | src/canvas/to_ppm.rs:88-91 | channels ≤ 0 give 0 and channels ≥ 1 give 255 |
| Ppm.ChannelByteExamples | src/canvas.rs:91-129 | 1.5, 0.5, −0.5, 0.8 and 0.6 give 255, 128, 0, 204 and 153 |
| Ppm.ChannelNumerals | src/canvas/to_ppm.rs:85-95 | 3 values per pixel, and value i is the numeral of channel i % 3 of pixel i / 3 |
| Ppm.NumeralsAreShort | src/canvas/to_ppm.rs:89-94 | every value has 1 to 3 characters and no whitespace |
| Ppm.RowChange | src/canvas/to_ppm.rs:102-103 | value i starts a new row number exactly when i is a multiple of the values per row |
| Ppm.PlaceValue | src/canvas/to_ppm.rs:109-128 | placing a value after a space or a newline keeps every line within 70 characters and sets the current line's length |
| Ppm.WriteValue | src/canvas/to_ppm.rs:100-128 | one pass writes a separator and the value; the separator is a newline exactly at a new image row or when a space and the value would pass 70 columns; the line stays within 70 |
| Ppm.Step | src/canvas/to_ppm.rs:99-128 | one pass keeps the loop invariant, only appends to the data written so far, and leaves it ending with the value just written |
| Ppm.LayOut | src/canvas/to_ppm.rs:96-132 | the data is the values joined by single separators that follow the break rule, plus a final newline; no line exceeds 70 characters |
| Ppm.PixelData | src/canvas/to_ppm.rs:84-133 | the pixel data ends in a newline, keeps lines within 70, and reads back as the 3·width·height channel values in row-major R, G, B order |
| Ppm.LayoutDetermined | src/canvas/to_ppm.rs:99-128 | the break rule admits exactly one layout: two rule-following separator sequences are equal |
| Ppm.SameNextSeparator | src/canvas/to_ppm.rs:101-128 | two rule-following layouts that agree on every earlier separator agree on the next one |
| Ppm.ToPpm | src/canvas/to_ppm.rs:67-78 | the file starts with the header, reads back as the header's four words followed by the channel values, and ends with a newline |

## Left out

- Floating point: `f64` rounding, NaN and infinities are not modelled; `F` is `real`. Concrete scenario colours that depend on `sqrt` or `powf` values (such as 0.38066) are not proved.
- `sqrt`, `tan` and `powf` are uninterpreted. Lemmas assume `SqrtLaw` (non-negative root) or `PowfLaw` (positive base gives a positive power) where they need them.
- `src/matrix.rs` is not part of this model beyond the identity. Matrix products, inverse and transpose are uninterpreted, and so are `translation`, `scaling` and `rotation`.
- `Camera::view_transform` and the world-space half of `ray_for_pixel` (`src/camera.rs:49-65`, 72-79) are left out, because they are matrix algebra. The camera-space offsets (lines 67-70) are modelled.
- `Tuples.Normalize`: a zero tuple (magnitude 0) gives NaN components in the source; the model returns the tuple unchanged.
- `Bodies.SphereIntersect`: a zero direction makes `a` zero and the source divide by zero; the model returns no hits there.
- `Intersections.SortByT`: the source's `sort_unstable_by` may order crossings with equal t differently. The model's insertion sort is one such order. Every contract speaks of sortedness and multiset equality, which any order satisfies.
- `Intersections.Intersect`: the default `Intersectable::intersect` and `normal_at` of `src/body.rs` are declared without a body in the source. The model wraps the object-space primitives through the inverse transform, as the commented line at `src/sphere.rs:49` indicates.
- `src/computed_intersection.rs` is not part of this model. Its fields are inferred from the call at `src/intersections.rs:29` and from the `reflectv` read at `src/world.rs:74`.
- `Worlds.ColorAtWithLimit`: the `lights[0]` panic on an empty light list is modelled as `None`. `Worlds.IsShadowed` requires a light, for the same reason.
- Only the first light shades and shadows, as in the source. Additional lights are carried but unused.
- `Materials.PhongFuzzyEq` and `Materials.MaterialFuzzyEq` compare patterns with the corrected pattern comparison of the Findings below, not the written one that `src/material.rs:175` reaches. `Materials.PhongFuzzyEqAsWritten` is the written version, and `Materials.PhongFuzzyEqAsWrittenCounterexample` relates the two. The comparison of `Option<Pattern>` used at line 175 has no implementation in the source files of this model; the model takes None to equal only None, and compares two Somes by their patterns.
- `World`, `Camera`, `Sphere` and `Plane` `fuzzy_eq` are left out, because they compare matrices, and matrix fuzzy equality is outside this model.
- `Cameras.New` requires hsize > 0 and vsize > 0. With hsize = 0 the source computes the pixel size as 0/0, a NaN; with vsize = 0 the aspect ratio is infinite and the half height collapses to 0. The reals have neither NaN nor infinity to model these with.
- `Canvases.ColorAt` and `Canvases.WritePixel` require the flat index to be inside the buffer, which stands for the source's slice-index panic. `usize` overflow of `y * width + x` is not modelled.
- `Ppm.PixelData` and `Ppm.ToPpm` require a valid canvas (one colour per pixel). `Canvas::new` establishes this and `write_pixel` keeps it.
- `Ppm.ChannelByte`: rounding is exact on reals, so an `f64` product that lands just below a `.5` boundary is not modelled.
- The 10×2 long-line test (`src/canvas.rs:108-129`) is not checked character by character. `Ppm.ChannelByteExamples` proves its channel values, and `Ppm.LayOut` proves the line-length and break rule it exercises.
- The alpha-dropping iterator `to_ppm` at `src/canvas/to_ppm.rs:27-79` is left out, because it depends on the `to_rgba32` module, which is not part of this model. `Ppm.ToPpm` follows the header-plus-pixel-data assembly in that function's commented-out body.
- `src/canvas/to_png.rs` is left out, because it is a call into the external `png` encoder.
- `src/bin/*.rs`, `src/main.rs` and `src/lib.rs` are left out: scene glue, parallel rendering, progress output and file I/O.
- `Pattern::color_at`'s matrix chain is modelled only through the uninterpreted `Linear` record. `Patterns.ColorAtUntransformed` covers the identity case.

## Findings

| source | as written | input that shows it | evidently intended | confidence | as-written member | corrected member |
|---|---|---|---|---|---|---|
| src/lights.rs:22 | `self.intensity.fuzzy_eq(self.intensity)` compares the light's intensity with itself | a white and a black light, both at the origin, compare equal | compare with `other.intensity`, as the derived `PartialEq` does | high (not executed) | Lights.FuzzyEqAsWrittenCounterexample | Lights.FuzzyEqMatchesLightEq |
| src/pattern.rs:124-128, 171-175, 221-225, 274-278 | `self.color_b.fuzzy_eq(other.color_b)` appears twice and `color_a` is never compared | stripes (black, white) and (white, white) compare equal yet paint the origin black and white | compare `color_a` with `color_a` and `color_b` with `color_b` | high (not executed) | Patterns.PatternFuzzyEqAsWrittenCounterexample | Patterns.PatternFuzzyEqPaintsAlike |
