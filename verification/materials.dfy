/**
 Materials (src/material.rs): the Phong reflection model with an optional pattern, the
 `Material` enum that dispatches to it, and the reflectiveness used by the world's recursion.
 */
module Materials {
  import opened Wrappers
  import opened Numerics
  import opened Tuples
  import opened Colors
  import opened Matrices
  import opened Lights
  import opened Patterns

  datatype Phong = Phong(
    color: Color,
    pattern: Option<Pattern>,
    ambient: real,
    diffuse: real,
    specular: real,
    shine: real,
    reflective: real
  )

  /** The closed set of materials; Phong is the only one. */
  datatype Material = PhongMaterial(phong: Phong)

  /** `Phong::default()`: white, ambient 0.1, diffuse 0.9, specular 0.9, shine 200, not reflective. */
  const DefaultPhong: Phong := Phong(White, None, 0.1, 0.9, 0.9, 200.0, 0.0)

  const DefaultMaterial: Material := PhongMaterial(DefaultPhong)

  /** `Material::reflectiveness`: the Phong `reflective` coefficient. */
  function Reflectiveness(mat: Material): (r: real)
    ensures r == mat.phong.reflective
  {
    match mat
    case PhongMaterial(p) => p.reflective
  }

  function WithColor(p: Phong, c: Color): (q: Phong)
    ensures q.color == c
    ensures q.pattern == p.pattern && q.ambient == p.ambient && q.diffuse == p.diffuse
    ensures q.specular == p.specular && q.shine == p.shine && q.reflective == p.reflective
  {
    p.(color := c)
  }

  function WithAmbient(p: Phong, ambient: real): (q: Phong)
    ensures q.ambient == ambient
    ensures q.color == p.color && q.pattern == p.pattern && q.diffuse == p.diffuse
    ensures q.specular == p.specular && q.shine == p.shine && q.reflective == p.reflective
  {
    p.(ambient := ambient)
  }

  function WithDiffuse(p: Phong, diffuse: real): (q: Phong)
    ensures q.diffuse == diffuse
    ensures q.color == p.color && q.pattern == p.pattern && q.ambient == p.ambient
    ensures q.specular == p.specular && q.shine == p.shine && q.reflective == p.reflective
  {
    p.(diffuse := diffuse)
  }

  function WithSpecular(p: Phong, specular: real): (q: Phong)
    ensures q.specular == specular
    ensures q.color == p.color && q.pattern == p.pattern && q.ambient == p.ambient
    ensures q.diffuse == p.diffuse && q.shine == p.shine && q.reflective == p.reflective
  {
    p.(specular := specular)
  }

  function WithShininess(p: Phong, shine: real): (q: Phong)
    ensures q.shine == shine
    ensures q.color == p.color && q.pattern == p.pattern && q.ambient == p.ambient
    ensures q.diffuse == p.diffuse && q.specular == p.specular && q.reflective == p.reflective
  {
    p.(shine := shine)
  }

  function WithPattern(p: Phong, pattern: Pattern): (q: Phong)
    ensures q.pattern == Some(pattern)
    ensures q.color == p.color && q.ambient == p.ambient && q.diffuse == p.diffuse
    ensures q.specular == p.specular && q.shine == p.shine && q.reflective == p.reflective
  {
    p.(pattern := Some(pattern))
  }

  function WithReflective(p: Phong, reflective: real): (q: Phong)
    ensures q.reflective == reflective
    ensures q.color == p.color && q.pattern == p.pattern && q.ambient == p.ambient
    ensures q.diffuse == p.diffuse && q.specular == p.specular && q.shine == p.shine
  {
    p.(reflective := reflective)
  }

  /** The surface colour before lighting: the pattern's colour if there is one, else `color`. */
  function BaseColor(m: Math, lin: Linear, p: Phong, bodyTransform: Matrix, position: Tuple): (c: Color)
    ensures p.pattern.None? ==> c == p.color
    ensures p.pattern.Some? && !p.pattern.value.Gradient? ==>
      c == p.pattern.value.colorA || c == p.pattern.value.colorB
  {
    match p.pattern
    case Some(pattern) => Patterns.ColorAt(m, lin, pattern, bodyTransform, position)
    case None => p.color
  }

  /**
   With a pattern the material's own colour is ignored: the base colour is one of the
   pattern's two colours (between them, channel by channel, for a gradient), and for an
   untransformed body and pattern it is the pattern's colour at the point itself.
   */
  lemma PatternedBaseColor(m: Math, lin: Linear, p: Phong, bodyTransform: Matrix, position: Tuple)
    requires p.pattern.Some?
    ensures var c, pat := BaseColor(m, lin, p, bodyTransform, position), p.pattern.value;
      (!pat.Gradient? ==> c == pat.colorA || c == pat.colorB)
      && (pat.Gradient? ==>
            Between(c.red, pat.colorA.red, pat.colorB.red)
            && Between(c.green, pat.colorA.green, pat.colorB.green)
            && Between(c.blue, pat.colorA.blue, pat.colorB.blue))
      && (IdentityActs(lin) && bodyTransform == Identity && pat.transform == Identity ==>
            c == ColorAtInPatternSpace(m, pat, position))
  {
    var pat := p.pattern.value;
    var objectPosition := lin.mul(lin.inverse(bodyTransform), position);
    var patternPosition := lin.mul(lin.inverse(pat.transform), objectPosition);
    if pat.Gradient? {
      GradientBetween(m, pat, patternPosition);
    }
    if IdentityActs(lin) && bodyTransform == Identity && pat.transform == Identity {
      ColorAtUntransformed(m, lin, pat, position);
    }
  }

  /** The surface colour as lit by the light: a black light leaves nothing to see. */
  function EffectiveColor(m: Math, lin: Linear, p: Phong, bodyTransform: Matrix, light: PointLight, position: Tuple): (c: Color)
    ensures light.intensity == Black ==> c == Black
    ensures light.intensity == White ==> c == BaseColor(m, lin, p, bodyTransform, position)
  {
    Mul(BaseColor(m, lin, p, bodyTransform, position), light.intensity)
  }

  function AmbientTerm(m: Math, lin: Linear, p: Phong, bodyTransform: Matrix, light: PointLight, position: Tuple): Color
  {
    Colors.Scale(EffectiveColor(m, lin, p, bodyTransform, light, position), p.ambient)
  }

  /** The unit vector from the surface point towards the light. */
  function LightVector(m: Math, light: PointLight, position: Tuple): Tuple
  {
    Normalize(m, Tuples.Sub(light.position, position))
  }

  function LightDotNormal(m: Math, light: PointLight, position: Tuple, normalv: Tuple): real
  {
    Dot(LightVector(m, light, position), normalv)
  }

  /** `(-lightv.reflect(normalv)).dot(eyev)`. */
  function ReflectDotEye(m: Math, light: PointLight, position: Tuple, eyev: Tuple, normalv: Tuple): real
  {
    Dot(Neg(Reflect(LightVector(m, light, position), normalv)), eyev)
  }

  /** The diffuse contribution: none with the light behind the surface or a zero coefficient. */
  function DiffuseTerm(m: Math, lin: Linear, p: Phong, bodyTransform: Matrix, light: PointLight, position: Tuple, normalv: Tuple): (c: Color)
    ensures LightDotNormal(m, light, position, normalv) < 0.0 ==> c == Black
    ensures p.diffuse == 0.0 || light.intensity == Black ==> c == Black
  {
    var ldn := LightDotNormal(m, light, position, normalv);
    if ldn < 0.0 then Black
    else Colors.Scale(Colors.Scale(EffectiveColor(m, lin, p, bodyTransform, light, position), p.diffuse), ldn)
  }

  /** The specular highlight: none with the light behind, the reflection away from the eye, or a zero coefficient. */
  function SpecularTerm(m: Math, p: Phong, light: PointLight, position: Tuple, eyev: Tuple, normalv: Tuple): (c: Color)
    ensures LightDotNormal(m, light, position, normalv) < 0.0 ==> c == Black
    ensures ReflectDotEye(m, light, position, eyev, normalv) <= 0.0 ==> c == Black
    ensures p.specular == 0.0 || light.intensity == Black ==> c == Black
  {
    var ldn := LightDotNormal(m, light, position, normalv);
    var rde := ReflectDotEye(m, light, position, eyev, normalv);
    if ldn < 0.0 || rde <= 0.0 then Black
    else Colors.Scale(Colors.Scale(light.intensity, p.specular), Powf(m, rde, p.shine))
  }

  /**
   `Phong::lighting`: in shadow only the ambient term; otherwise ambient + diffuse + specular,
   where diffuse and specular vanish when the light is behind the surface and specular also
   vanishes when the reflection points away from the eye. The sum is not clamped.
   */
  function Lighting(m: Math, lin: Linear, p: Phong, bodyTransform: Matrix, light: PointLight,
                    position: Tuple, eyev: Tuple, normalv: Tuple, inShadow: bool): (c: Color)
    ensures inShadow ==> c == AmbientTerm(m, lin, p, bodyTransform, light, position)
    ensures !inShadow ==> c == Colors.Add(Colors.Add(AmbientTerm(m, lin, p, bodyTransform, light, position),
                                                     DiffuseTerm(m, lin, p, bodyTransform, light, position, normalv)),
                                          SpecularTerm(m, p, light, position, eyev, normalv))
  {
    var effective := EffectiveColor(m, lin, p, bodyTransform, light, position);
    var lightv := LightVector(m, light, position);
    var ambient := Colors.Scale(effective, p.ambient);
    if inShadow then ambient
    else
      var lightDotNormal := Dot(lightv, normalv);
      if lightDotNormal < 0.0 then Colors.Add(Colors.Add(ambient, Black), Black)
      else
        var diffuse := Colors.Scale(Colors.Scale(effective, p.diffuse), lightDotNormal);
        var reflectv := Neg(Reflect(lightv, normalv));
        var reflectDotEye := Dot(reflectv, eyev);
        var specular := if reflectDotEye <= 0.0 then Black
                        else Colors.Scale(Colors.Scale(light.intensity, p.specular), Powf(m, reflectDotEye, p.shine));
        Colors.Add(Colors.Add(ambient, diffuse), specular)
  }

  /** `Material::lighting` dispatches to the Phong model. */
  function MaterialLighting(m: Math, lin: Linear, mat: Material, bodyTransform: Matrix, light: PointLight,
                            position: Tuple, eyev: Tuple, normalv: Tuple, inShadow: bool): (c: Color)
    ensures c == Lighting(m, lin, mat.phong, bodyTransform, light, position, eyev, normalv, inShadow)
  {
    match mat
    case PhongMaterial(p) => Lighting(m, lin, p, bodyTransform, light, position, eyev, normalv, inShadow)
  }

  /** A surface in shadow gets the ambient term, and so does one whose light is behind it. */
  lemma AmbientOnlyCases(m: Math, lin: Linear, p: Phong, bodyTransform: Matrix, light: PointLight,
                         position: Tuple, eyev: Tuple, normalv: Tuple, inShadow: bool)
    requires inShadow || LightDotNormal(m, light, position, normalv) < 0.0
    ensures Lighting(m, lin, p, bodyTransform, light, position, eyev, normalv, inShadow)
      == AmbientTerm(m, lin, p, bodyTransform, light, position)
  {
    if !inShadow {
      MulIdentityAbsorbing(AmbientTerm(m, lin, p, bodyTransform, light, position));
    }
  }

  /** The specular highlight is black unless the reflected light points towards the eye. */
  lemma SpecularGate(m: Math, p: Phong, light: PointLight, position: Tuple, eyev: Tuple, normalv: Tuple)
    ensures ReflectDotEye(m, light, position, eyev, normalv) <= 0.0 ==> SpecularTerm(m, p, light, position, eyev, normalv) == Black
    ensures LightDotNormal(m, light, position, normalv) < 0.0 ==> SpecularTerm(m, p, light, position, eyev, normalv) == Black
  {
  }

  predicate NonNegative(c: Color)
  {
    c.red >= 0.0 && c.green >= 0.0 && c.blue >= 0.0
  }

  /**
   With non-negative colours and coefficients, shadow never brightens a point: the shadowed
   result is channelwise at most the lit one.
   */
  lemma ShadowNeverBrightens(m: Math, lin: Linear, p: Phong, bodyTransform: Matrix, light: PointLight,
                             position: Tuple, eyev: Tuple, normalv: Tuple)
    requires PowfLaw(m)
    requires NonNegative(BaseColor(m, lin, p, bodyTransform, position)) && NonNegative(light.intensity)
    requires p.diffuse >= 0.0 && p.specular >= 0.0
    ensures AtMost(Lighting(m, lin, p, bodyTransform, light, position, eyev, normalv, true),
                   Lighting(m, lin, p, bodyTransform, light, position, eyev, normalv, false))
  {
    var effective := EffectiveColor(m, lin, p, bodyTransform, light, position);
    MulNonNegative(BaseColor(m, lin, p, bodyTransform, position), light.intensity);
    DiffuseNonNegative(m, lin, p, bodyTransform, light, position, normalv);
    SpecularNonNegative(m, p, light, position, eyev, normalv);
  }

  lemma MulNonNegative(a: Color, b: Color)
    requires NonNegative(a) && NonNegative(b)
    ensures NonNegative(Mul(a, b))
  {
    MulMonotone(0.0, a.red, b.red);
    MulMonotone(0.0, a.green, b.green);
    MulMonotone(0.0, a.blue, b.blue);
  }

  lemma ScaleNonNegative(a: Color, k: real)
    requires NonNegative(a) && k >= 0.0
    ensures NonNegative(Colors.Scale(a, k))
  {
    MulMonotone(0.0, a.red, k);
    MulMonotone(0.0, a.green, k);
    MulMonotone(0.0, a.blue, k);
  }

  lemma DiffuseNonNegative(m: Math, lin: Linear, p: Phong, bodyTransform: Matrix, light: PointLight, position: Tuple, normalv: Tuple)
    requires NonNegative(EffectiveColor(m, lin, p, bodyTransform, light, position)) && p.diffuse >= 0.0
    ensures NonNegative(DiffuseTerm(m, lin, p, bodyTransform, light, position, normalv))
  {
    var ldn := LightDotNormal(m, light, position, normalv);
    if ldn >= 0.0 {
      var effective := EffectiveColor(m, lin, p, bodyTransform, light, position);
      ScaleNonNegative(effective, p.diffuse);
      ScaleNonNegative(Colors.Scale(effective, p.diffuse), ldn);
    }
  }

  lemma SpecularNonNegative(m: Math, p: Phong, light: PointLight, position: Tuple, eyev: Tuple, normalv: Tuple)
    requires PowfLaw(m)
    requires NonNegative(light.intensity) && p.specular >= 0.0
    ensures NonNegative(SpecularTerm(m, p, light, position, eyev, normalv))
  {
    var ldn := LightDotNormal(m, light, position, normalv);
    var rde := ReflectDotEye(m, light, position, eyev, normalv);
    if ldn >= 0.0 && rde > 0.0 {
      assert Powf(m, rde, p.shine) > 0.0;
      ScaleNonNegative(light.intensity, p.specular);
      ScaleNonNegative(Colors.Scale(light.intensity, p.specular), Powf(m, rde, p.shine));
    }
  }

  /** The light vector for a light ten units straight along z from the origin. */
  lemma LightVectorAlongZ(m: Math, z: real)
    requires SqrtLaw(m)
    requires z == 10.0 || z == -10.0
    ensures LightVector(m, PointLight(Point(0.0, 0.0, z), White), Point(0.0, 0.0, 0.0)) == Vector(0.0, 0.0, z / 10.0)
  {
    var d := Tuples.Sub(Point(0.0, 0.0, z), Point(0.0, 0.0, 0.0));
    assert Dot(d, d) == 10.0 * 10.0;
    SqrtOfSquare(m, 10.0);
    assert Magnitude(m, d) == 10.0;
  }

  /**
   Eye between light and surface, all on the z axis: 0.1 + 0.9 + 0.9 = 1.9 on every channel
   (the default material, a white light at (0, 0, -10), the surface point at the origin, eye and
   normal both (0, 0, -1)).
   */
  lemma LightingEyeBetweenLightAndSurface(m: Math, lin: Linear, bodyTransform: Matrix, p: Phong, light: PointLight, position: Tuple, eyev: Tuple)
    requires SqrtLaw(m)
    requires Powf(m, 1.0, 200.0) == 1.0
    requires p == DefaultPhong && light == PointLight(Point(0.0, 0.0, -10.0), White)
    requires position == Point(0.0, 0.0, 0.0) && eyev == Vector(0.0, 0.0, -1.0)
    ensures Lighting(m, lin, p, bodyTransform, light, position, eyev, eyev, false) == Color(1.9, 1.9, 1.9)
  {
    LightVectorAlongZ(m, -10.0);
    HeadOnLight(m, light, position, eyev);
    HeadOnEye(m, light, position, eyev);
    FullHighlight(m, lin, bodyTransform, p, light, position, eyev);
  }

  /** Light and normal both (0, 0, -1): the light falls straight on. */
  lemma HeadOnLight(m: Math, light: PointLight, position: Tuple, eyev: Tuple)
    requires eyev == Vector(0.0, 0.0, -1.0) && LightVector(m, light, position) == eyev
    ensures LightDotNormal(m, light, position, eyev) == 1.0
  {
    HeadOnReflection(eyev, -1.0);
  }

  /** ... and with the eye there too the reflection comes straight back into it. */
  lemma HeadOnEye(m: Math, light: PointLight, position: Tuple, eyev: Tuple)
    requires eyev == Vector(0.0, 0.0, -1.0) && LightVector(m, light, position) == eyev
    ensures ReflectDotEye(m, light, position, eyev, eyev) == 1.0
  {
    HeadOnReflection(eyev, -1.0);
  }

  /**
   When the light faces the surface and the reflection faces the eye head on (both cosines 1),
   the default material under a white light sums to 0.1 + 0.9 + 0.9 = 1.9.
   */
  lemma FullHighlight(m: Math, lin: Linear, bodyTransform: Matrix, p: Phong, light: PointLight, position: Tuple, eyev: Tuple)
    requires Powf(m, 1.0, 200.0) == 1.0
    requires p == DefaultPhong && light.intensity == White
    requires LightDotNormal(m, light, position, eyev) == 1.0
    requires ReflectDotEye(m, light, position, eyev, eyev) == 1.0
    ensures Lighting(m, lin, p, bodyTransform, light, position, eyev, eyev, false) == Color(1.9, 1.9, 1.9)
  {
    PlainEffectiveColor(m, lin, p, bodyTransform, light, position);
    MulIdentityAbsorbing(White);
    LitSum(m, lin, p, bodyTransform, light, position, eyev, eyev, 1.0, 1.0);
    DefaultHighlightSum(EffectiveColor(m, lin, p, bodyTransform, light, position), light.intensity, Powf(m, 1.0, p.shine));
  }

  /** The default coefficients 0.1, 0.9 and 0.9 on a white surface under a white light. */
  lemma DefaultHighlightSum(e: Color, intensity: Color, highlight: real)
    requires e == White && intensity == White && highlight == 1.0
    ensures Colors.Add(Colors.Add(Colors.Scale(e, 0.1), Colors.Scale(Colors.Scale(e, 0.9), 1.0)),
                       Colors.Scale(Colors.Scale(intensity, 0.9), highlight)) == Color(1.9, 1.9, 1.9)
  {
  }

  /** Without a pattern the effective colour is the material colour times the light's intensity. */
  lemma PlainEffectiveColor(m: Math, lin: Linear, p: Phong, bodyTransform: Matrix, light: PointLight, position: Tuple)
    requires p.pattern.None?
    ensures EffectiveColor(m, lin, p, bodyTransform, light, position) == Mul(p.color, light.intensity)
  {
  }

  /** A lit point whose light and reflection both face the eye gets all three terms in full. */
  lemma LitSum(m: Math, lin: Linear, p: Phong, bodyTransform: Matrix, light: PointLight,
               position: Tuple, eyev: Tuple, normalv: Tuple, ldn: real, rde: real)
    requires LightDotNormal(m, light, position, normalv) == ldn && ldn >= 0.0
    requires ReflectDotEye(m, light, position, eyev, normalv) == rde && rde > 0.0
    ensures var e := EffectiveColor(m, lin, p, bodyTransform, light, position);
      Lighting(m, lin, p, bodyTransform, light, position, eyev, normalv, false)
      == Colors.Add(Colors.Add(Colors.Scale(e, p.ambient), Colors.Scale(Colors.Scale(e, p.diffuse), ldn)),
                    Colors.Scale(Colors.Scale(light.intensity, p.specular), Powf(m, rde, p.shine)))
  {
  }

  /** Light and eye both straight down the normal: the reflected light comes straight back. */
  lemma HeadOnReflection(v: Tuple, c: real)
    requires v == Vector(0.0, 0.0, c) && c * c == 1.0
    ensures Dot(v, v) == 1.0
    ensures Dot(Neg(Reflect(v, v)), v) == 1.0
  {
    assert Dot(v, v) == c * c;
    assert Tuples.Scale(Tuples.Scale(v, 2.0), 1.0) == Vector(0.0, 0.0, 2.0 * c);
    assert Reflect(v, v) == Vector(0.0, 0.0, -c);
    assert Dot(Neg(Reflect(v, v)), v) == c * c;
  }

  /** Light behind the surface (at (0, 0, 10)): only the ambient 0.1 remains. */
  lemma LightingLightBehindSurface(m: Math, lin: Linear, bodyTransform: Matrix, p: Phong, light: PointLight, position: Tuple, eyev: Tuple)
    requires SqrtLaw(m)
    requires p == DefaultPhong && light == PointLight(Point(0.0, 0.0, 10.0), White)
    requires position == Point(0.0, 0.0, 0.0) && eyev == Vector(0.0, 0.0, -1.0)
    ensures Lighting(m, lin, p, bodyTransform, light, position, eyev, eyev, false) == Color(0.1, 0.1, 0.1)
  {
    LightVectorAlongZ(m, 10.0);
    assert LightVector(m, light, position) == Vector(0.0, 0.0, 1.0);
    assert LightDotNormal(m, light, position, eyev) == -1.0;
    AmbientOnlyCases(m, lin, p, bodyTransform, light, position, eyev, eyev, false);
    assert EffectiveColor(m, lin, p, bodyTransform, light, position) == White;
  }

  /** In shadow with the default material and a white light: ambient 0.1 whatever the geometry. */
  lemma LightingInShadow(m: Math, lin: Linear, bodyTransform: Matrix, position: Tuple, eyev: Tuple, normalv: Tuple, lightPosition: Tuple)
    ensures Lighting(m, lin, DefaultPhong, bodyTransform, PointLight(lightPosition, White),
                     position, eyev, normalv, true)
      == Color(0.1, 0.1, 0.1)
  {
  }

  /** Optional patterns compare equal when both are absent or both present and equal. */
  predicate OptionPatternFuzzyEq(a: Option<Pattern>, b: Option<Pattern>)
  {
    match (a, b)
    case (None, None) => true
    case (Some(x), Some(y)) => PatternFuzzyEq(x, y)
    case _ => false
  }

  /** The same, with the pattern comparison as written (`color_b` compared twice). */
  predicate OptionPatternFuzzyEqAsWritten(a: Option<Pattern>, b: Option<Pattern>)
  {
    match (a, b)
    case (None, None) => true
    case (Some(x), Some(y)) => PatternFuzzyEqAsWritten(x, y)
    case _ => false
  }

  /** The scalar and colour fields Phong `fuzzy_eq` compares: all but `pattern` and `reflective`. */
  predicate PhongFieldsFuzzyEq(a: Phong, b: Phong)
  {
    ColorEq(a.color, b.color)
    && Fuzzy.FuzzyEq(a.ambient, b.ambient)
    && Fuzzy.FuzzyEq(a.diffuse, b.diffuse)
    && Fuzzy.FuzzyEq(a.specular, b.specular)
    && Fuzzy.FuzzyEq(a.shine, b.shine)
  }

  /**
   Phong `fuzzy_eq`: colour, ambient, diffuse, specular, shine and pattern; not `reflective`.
   The patterns are compared with the corrected pattern comparison.
   */
  predicate PhongFuzzyEq(a: Phong, b: Phong)
    ensures PhongFuzzyEq(a, b) ==> ColorEq(a.color, b.color)
    ensures a == b.(reflective := a.reflective) ==> PhongFuzzyEq(a, b)
  {
    PhongFieldsFuzzyEq(a, b) && OptionPatternFuzzyEq(a.pattern, b.pattern)
  }

  /** Phong `fuzzy_eq` as written, reaching the pattern comparison that ignores `color_a`. */
  predicate PhongFuzzyEqAsWritten(a: Phong, b: Phong)
  {
    PhongFieldsFuzzyEq(a, b) && OptionPatternFuzzyEqAsWritten(a.pattern, b.pattern)
  }

  /**
   The written material comparison inherits the pattern bug: default materials striped black
   and white, and white and white, compare equal as written but not under the corrected one.
   Every pair equal under the corrected comparison is equal as written.
   */
  lemma PhongFuzzyEqAsWrittenCounterexample(a: Phong, b: Phong)
    ensures PhongFuzzyEq(a, b) ==> PhongFuzzyEqAsWritten(a, b)
    ensures var black := WithPattern(DefaultPhong, Striped(Black, White, Identity));
      var white := WithPattern(DefaultPhong, Striped(White, White, Identity));
      PhongFuzzyEqAsWritten(black, white) && !PhongFuzzyEq(black, white)
  {
    if a.pattern.Some? && b.pattern.Some? {
      PatternFuzzyEqProperties(a.pattern.value, b.pattern.value);
    }
    var pb, pw := Striped(Black, White, Identity), Striped(White, White, Identity);
    PatternFuzzyEqProperties(pb, pw);
    assert !ColorEq(pb.colorA, pw.colorA);
    assert PhongFieldsFuzzyEq(WithPattern(DefaultPhong, pb), WithPattern(DefaultPhong, pw));
  }

  predicate MaterialFuzzyEq(a: Material, b: Material)
    ensures a == b ==> MaterialFuzzyEq(a, b)
  {
    PhongFuzzyEq(a.phong, b.phong)
  }

  /**
   The material comparison ignores `reflective`: a mirror and a matte copy of the same
   material compare equal, although the world shades them differently.
   */
  lemma MaterialFuzzyEqIgnoresReflective(mat: Material, reflective: real)
    ensures MaterialFuzzyEq(mat, PhongMaterial(WithReflective(mat.phong, reflective)))
    ensures MaterialFuzzyEq(DefaultMaterial, PhongMaterial(WithReflective(DefaultPhong, 1.0)))
    ensures Reflectiveness(DefaultMaterial) != Reflectiveness(PhongMaterial(WithReflective(DefaultPhong, 1.0)))
  {
    PatternFuzzyEqProperties(Striped(Black, Black, Identity), Striped(Black, Black, Identity));
    if mat.phong.pattern.Some? {
      PatternFuzzyEqProperties(mat.phong.pattern.value, mat.phong.pattern.value);
    }
  }

  /** Each compared field must be fuzzy-equal: changing the colour by more than EPSILON breaks equality. */
  lemma MaterialFuzzyEqSeesColor(mat: Material, c: Color)
    requires !ColorEq(mat.phong.color, c)
    ensures !MaterialFuzzyEq(mat, PhongMaterial(WithColor(mat.phong, c)))
  {
  }

  /** The defaults of the source: white, 0.1, 0.9, 0.9, 200, no pattern, reflectiveness 0. */
  lemma DefaultMaterialValues()
    ensures DefaultPhong.color == Color(1.0, 1.0, 1.0) && DefaultPhong.pattern.None?
    ensures DefaultPhong.ambient == 0.1 && DefaultPhong.diffuse == 0.9
    ensures DefaultPhong.specular == 0.9 && DefaultPhong.shine == 200.0
    ensures Reflectiveness(DefaultMaterial) == 0.0
    ensures WithReflective(DefaultPhong, 0.5).reflective == 0.5
  {
  }
}
