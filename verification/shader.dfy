/**
  The colour tail of the gradient's fragment shader: the noise value and the distance
  from the anchor point are each shaped by `smoothstep`, their product picks a point
  between the two colours of a layer, and the brightness uniform `u_BG_POWER` picks a
  point between the dark layer and the light layer.

  The simplex noise is an arbitrary function of three reals; the clamp inside
  `smoothstep` makes every bound below hold whatever value it returns.
*/
module Shader {
  import opened ColourCodec

  /** GLSL `clamp(x, 0.0, 1.0)`. */
  function Clamp01(x: real): (r: real)
    ensures InUnit(r)
    ensures InUnit(x) ==> r == x
  {
    if x < 0.0 then 0.0 else if x > 1.0 then 1.0 else x
  }

  lemma CubicInUnit(t: real)
    requires InUnit(t)
    ensures 0.0 <= t * t * (3.0 - 2.0 * t) <= 1.0
  {
    assert 1.0 - t * t * (3.0 - 2.0 * t) == (1.0 - t) * (1.0 - t) * (1.0 + 2.0 * t);
    NonNegProduct((1.0 - t) * (1.0 - t), 1.0 + 2.0 * t);
    NonNegProduct(t * t, 3.0 - 2.0 * t);
  }

  lemma NonNegProduct(a: real, b: real)
    requires a >= 0.0 && b >= 0.0
    ensures a * b >= 0.0
  {
  }

  /** GLSL `smoothstep(e0, e1, x)` for `e0 < e1`, the only way the shader calls it:
      the Hermite curve `t*t*(3 - 2t)` of `x` clamped into the edge interval. */
  function Smoothstep(e0: real, e1: real, x: real): (r: real)
    requires e0 < e1
    ensures InUnit(r)
    ensures x <= e0 ==> r == 0.0
    ensures x >= e1 ==> r == 1.0
  {
    var t := Clamp01((x - e0) / (e1 - e0));
    ScaledEdges(x, e0, e1);
    CubicInUnit(t);
    t * t * (3.0 - 2.0 * t)
  }

  lemma ScaledEdges(x: real, e0: real, e1: real)
    requires e0 < e1
    ensures x <= e0 ==> (x - e0) / (e1 - e0) <= 0.0
    ensures x >= e1 ==> (x - e0) / (e1 - e0) >= 1.0
  {
    if x <= e0 {
      NonPositiveQuotient(x - e0, e1 - e0);
    }
    if x >= e1 {
      QuotientAtLeastOne(x - e0, e1 - e0);
    }
  }

  lemma NonPositiveQuotient(n: real, w: real)
    requires n <= 0.0 && w > 0.0
    ensures n / w <= 0.0
  {
  }

  lemma QuotientAtLeastOne(n: real, w: real)
    requires n >= w && w > 0.0
    ensures n / w >= 1.0
  {
  }

  lemma CubicMonotone(t: real, u: real)
    requires 0.0 <= t <= u <= 1.0
    ensures t * t * (3.0 - 2.0 * t) <= u * u * (3.0 - 2.0 * u)
  {
    var d := u - t;
    assert u * u * (3.0 - 2.0 * u) - t * t * (3.0 - 2.0 * t)
        == d * (3.0 * (u + t) - 2.0 * (u * u + u * t + t * t));
    NonNegProduct(u, 1.0 - u);
    assert u * (1.0 - u) == u - u * u;
    NonNegProduct(t, 1.0 - t);
    assert t * (1.0 - t) == t - t * t;
    NonNegProduct(t, 1.0 - u);
    assert t * (1.0 - u) == t - u * t;
    NonNegProduct(d, 3.0 * (u + t) - 2.0 * (u * u + u * t + t * t));
  }

  lemma ScaleMonotone(x: real, y: real, e0: real, w: real)
    requires x <= y && w > 0.0
    ensures (x - e0) / w <= (y - e0) / w
  {
  }

  /** `smoothstep` never decreases as its argument grows. */
  lemma SmoothstepMonotone(e0: real, e1: real, x: real, y: real)
    requires e0 < e1 && x <= y
    ensures Smoothstep(e0, e1, x) <= Smoothstep(e0, e1, y)
  {
    ScaleMonotone(x, y, e0, e1 - e0);
    CubicMonotone(Clamp01((x - e0) / (e1 - e0)), Clamp01((y - e0) / (e1 - e0)));
  }

  /** GLSL `mix(x, y, a)`: for a weight in [0, 1] the result stays between the two ends,
      and it is each end exactly at weights 0 and 1. */
  function Mix(x: real, y: real, a: real): (r: real)
    ensures InUnit(a) ==> Between(r, x, y)
    ensures a == 0.0 ==> r == x
    ensures a == 1.0 ==> r == y
  {
    ConvexCombination(x, y, a);
    x * (1.0 - a) + y * a
  }

  lemma MixOffset(x: real, y: real, a: real)
    ensures x * (1.0 - a) + y * a - x == a * (y - x)
    ensures y - (x * (1.0 - a) + y * a) == (1.0 - a) * (y - x)
  {
  }

  /** True when `v` lies between two of the given values, i.e. inside their hull. */
  predicate Between(v: real, x: real, y: real) {
    (x <= v <= y) || (y <= v <= x)
  }

  /** A weight in [0, 1] makes `x * (1 - a) + y * a` a convex combination of `x` and `y`. */
  lemma ConvexCombination(x: real, y: real, a: real)
    ensures InUnit(a) ==> Between(x * (1.0 - a) + y * a, x, y)
  {
    MixOffset(x, y, a);
    if InUnit(a) {
      if x <= y {
        NonNegProduct(a, y - x);
        NonNegProduct(1.0 - a, y - x);
      } else {
        NonNegProduct(a, x - y);
        NonNegProduct(1.0 - a, x - y);
      }
    }
  }

  /** `mix` applied channel by channel to two colours. */
  function MixRgb(c1: Rgb, c2: Rgb, a: real): (c: Rgb)
    ensures InUnit(a) ==> Between(c.r, c1.r, c2.r) && Between(c.g, c1.g, c2.g) && Between(c.b, c1.b, c2.b)
    ensures a == 0.0 ==> c == c1
    ensures a == 1.0 ==> c == c2
  {
    Rgb(Mix(c1.r, c2.r, a), Mix(c1.g, c2.g, a), Mix(c1.b, c2.b, a))
  }

  /** The four palette colours the shader reads from its uniforms. */
  datatype Palette = Palette(dark1: Rgb, dark2: Rgb, light1: Rgb, light2: Rgb)

  predicate PaletteInUnit(p: Palette) {
    InUnitCube(p.dark1) && InUnitCube(p.dark2) && InUnitCube(p.light1) && InUnitCube(p.light2)
  }

  /** Simplex noise over three coordinates, left uninterpreted. */
  type Noise = (real, real, real) -> real

  /** The interpolated texture coordinate `v_uv`. */
  datatype Uv = Uv(x: real, y: real)

  /** `d` is the Euclidean distance from `uv` to the anchor `(0, 0.7)`. */
  predicate IsAnchorDistance(uv: Uv, d: real) {
    d >= 0.0 && d * d == uv.x * uv.x + (uv.y - 0.7) * (uv.y - 0.7)
  }

  /** `ns`: the noise sampled at `(uv * 0.5 + time, time * 1.2)`, shaped by `smoothstep(0, 1, .)`. */
  function NoiseShape(noise: Noise, uv: Uv, time: real): (ns: real)
    ensures InUnit(ns)
  {
    Smoothstep(0.0, 1.0, noise(uv.x * 0.5 + time, uv.y * 0.5 + time, time * 1.2))
  }

  /** `grad = ns * smoothstep(0.01, 0.9, distance(v_uv, anchor))`. */
  function Gradient(noise: Noise, uv: Uv, time: real, d: real): (grad: real)
    requires IsAnchorDistance(uv, d)
    ensures InUnit(grad)
    ensures d <= 0.01 ==> grad == 0.0
  {
    var ns := NoiseShape(noise, uv, time);
    var dist := Smoothstep(0.01, 0.9, d);
    UnitProduct(ns, dist);
    ns * dist
  }

  lemma UnitProduct(a: real, b: real)
    requires InUnit(a) && InUnit(b)
    ensures InUnit(a * b)
  {
    NonNegProduct(a, b);
    NonNegProduct(a, 1.0 - b);
  }

  /** The dark/light blend weight `smoothstep(0.4, 0.6, u_BG_POWER)`. */
  function BlendFactor(bgPower: real): (w: real)
    ensures InUnit(w)
    ensures bgPower <= 0.4 ==> w == 0.0
    ensures bgPower >= 0.6 ==> w == 1.0
  {
    Smoothstep(0.4, 0.6, bgPower)
  }

  /** The colour `gl_FragColor.rgb` the shader writes for one fragment. Every channel is a
      convex combination of that channel in the four palette colours, whatever the noise,
      time and brightness; so a palette inside [0, 1] gives a colour inside [0, 1]. */
  function FragmentColour(p: Palette, noise: Noise, uv: Uv, time: real, d: real, bgPower: real): (c: Rgb)
    requires IsAnchorDistance(uv, d)
    ensures InHull4(c.r, p.dark1.r, p.dark2.r, p.light1.r, p.light2.r)
    ensures InHull4(c.g, p.dark1.g, p.dark2.g, p.light1.g, p.light2.g)
    ensures InHull4(c.b, p.dark1.b, p.dark2.b, p.light1.b, p.light2.b)
    ensures PaletteInUnit(p) ==> InUnitCube(c)
  {
    var grad := Gradient(noise, uv, time, d);
    var w := BlendFactor(bgPower);
    NestedMixInHull(p.dark1.r, p.dark2.r, p.light1.r, p.light2.r, grad, w);
    NestedMixInHull(p.dark1.g, p.dark2.g, p.light1.g, p.light2.g, grad, w);
    NestedMixInHull(p.dark1.b, p.dark2.b, p.light1.b, p.light2.b, grad, w);
    MixRgb(MixRgb(p.dark1, p.dark2, grad), MixRgb(p.light1, p.light2, grad), w)
  }

  /** `v` lies inside the hull of four values: some is at most `v` and some at least `v`. */
  predicate InHull4(v: real, a: real, b: real, c: real, d: real) {
    (a <= v || b <= v || c <= v || d <= v) && (a >= v || b >= v || c >= v || d >= v)
  }

  lemma NestedMixInHull(a: real, b: real, c: real, d: real, g: real, w: real)
    requires InUnit(g) && InUnit(w)
    ensures InHull4(Mix(Mix(a, b, g), Mix(c, d, g), w), a, b, c, d)
  {
  }

  /** At the two theme endpoints the blend is pure: brightness 0.2 renders only the dark
      layer and 0.8 only the light layer. */
  lemma ThemeEndpointsArePure(p: Palette, noise: Noise, uv: Uv, time: real, d: real)
    requires IsAnchorDistance(uv, d)
    ensures BlendFactor(0.2) == 0.0 && BlendFactor(0.8) == 1.0
    ensures var grad := Gradient(noise, uv, time, d);
      && FragmentColour(p, noise, uv, time, d, 0.2) == MixRgb(p.dark1, p.dark2, grad)
      && FragmentColour(p, noise, uv, time, d, 0.8) == MixRgb(p.light1, p.light2, grad)
  {
  }
}
