/** `add_color`: the shadow test and the Phong-style shading of one point for
    one light source. */
module Shading {
  import opened Numeric
  import opened Vectors
  import opened Primitives
  import opened Scanning

  const Black: Color := [0, 0, 0]

  /** Shadow-ray parameters strictly between this and 1 block the light. */
  const ShadowBias := 0.0001

  /** How far, in radii, the slice side test steps off the surface. */
  const SideProbe := 0.01

  /** From the lit point towards the light: the light sits at parameter 1. */
  function ShadowRay(p: Vec3, light: Vec3): Ray {
    Ray(p, Sub(light, p))
  }

  /** A flagged crossing strictly between the point and the light. */
  predicate Blocks(tr: Trace) {
    (tr.nearValid && ShadowBias < tr.tNear < 1.0) || (tr.farValid && ShadowBias < tr.tFar < 1.0)
  }

  /** For a slice: one step back along the primary ray and one step along the
      shadow ray land on different sides of the underlying sphere, so the
      viewer and the light face different sides of the surface. */
  predicate OppositeSides(s: SphereSlice, primRay: Ray, shadowRay: Ray, minPrimT: real, sqrt: real -> real)
  {
    var back := Sub(primRay.GetPoint(minPrimT - SideProbe * s.radius), s.sphereCentre);
    var toward := Sub(shadowRay.GetPoint(SideProbe * s.radius), s.sphereCentre);
    var lookingFromOutside := Norm(back, sqrt) > s.radius;
    var litFromOutside := Norm(toward, sqrt) > s.radius;
    litFromOutside != lookingFromOutside
  }

  /** For a true square root and a positive radius, the side test compares
      squared distances from the centre of the underlying sphere: the viewer
      and the light face different sides exactly when one probe lies outside
      the sphere and the other does not. */
  lemma OppositeSidesBySquares(s: SphereSlice, primRay: Ray, shadowRay: Ray, minPrimT: real, sqrt: real -> real)
    requires IsSqrt(sqrt) && 0.0 < s.radius
    ensures var back := Sub(primRay.GetPoint(minPrimT - SideProbe * s.radius), s.sphereCentre);
      var toward := Sub(shadowRay.GetPoint(SideProbe * s.radius), s.sphereCentre);
      var lookingFromOutside := Dot(back, back) > s.radius * s.radius;
      var litFromOutside := Dot(toward, toward) > s.radius * s.radius;
      OppositeSides(s, primRay, shadowRay, minPrimT, sqrt) == (litFromOutside != lookingFromOutside)
  {
    OutsideIffFarther(Sub(primRay.GetPoint(minPrimT - SideProbe * s.radius), s.sphereCentre), s.radius, sqrt);
    OutsideIffFarther(Sub(shadowRay.GetPoint(SideProbe * s.radius), s.sphereCentre), s.radius, sqrt);
  }

  /** The norm of `v` exceeds a positive radius exactly when its squared
      length exceeds the radius squared: the side tests ask whether a point
      lies outside the underlying sphere. */
  lemma OutsideIffFarther(v: Vec3, r: real, sqrt: real -> real)
    ensures IsSqrt(sqrt) && 0.0 < r ==> (Norm(v, sqrt) > r <==> Dot(v, v) > r * r)
  {
    if !(IsSqrt(sqrt) && 0.0 < r) {
      return;
    }
    DotSelfNonNegative(v);
    var n := Norm(v, sqrt);
    assert 0.0 <= n && n * n == Dot(v, v);
    SquareBeyond(n, r, Dot(v, v));
  }

  /** Whether the light reaches the point: no slice side mismatch and no
      blocking trace on the shadow ray. */
  predicate Lit(
    objects: seq<Primitive>, primRay: Ray, p: Vec3, obj: Primitive, light: Vec3, minPrimT: real,
    sqrt: real -> real)
    ensures Lit(objects, primRay, p, obj, light, minPrimT, sqrt) ==>
      forall j :: 0 <= j < |objects| ==> !Blocks(objects[j].Intersects(ShadowRay(p, light), sqrt))
  {
    var shadowRay := ShadowRay(p, light);
    var traces := IntersectAll(objects, shadowRay, sqrt);
    NoneBlocksIff(traces);
    !(obj.SliceObject? && OppositeSides(obj.slice, primRay, shadowRay, minPrimT, sqrt))
    && NoneBlocks(traces)
  }

  /** No trace in `traces` blocks the light. */
  predicate NoneBlocks(traces: seq<Trace>) {
    |traces| == 0 || (NoneBlocks(traces[..|traces| - 1]) && !Blocks(traces[|traces| - 1]))
  }

  /** The recursive shadow test agrees with the quantified one: no trace
      blocks exactly when every trace lets the light through. */
  lemma {:induction false} NoneBlocksIff(traces: seq<Trace>)
    ensures NoneBlocks(traces) <==> forall j :: 0 <= j < |traces| ==> !Blocks(traces[j])
  {
    if |traces| > 0 {
      var init := traces[..|traces| - 1];
      NoneBlocksIff(init);
      assert forall j :: 0 <= j < |init| ==> init[j] == traces[j];
    }
  }

  /** The light reaches the point exactly when the viewer and the light are
      not on opposite sides of a slice and no object's trace of the shadow ray
      blocks it. */
  lemma LitIff(
    objects: seq<Primitive>, primRay: Ray, p: Vec3, obj: Primitive, light: Vec3, minPrimT: real,
    sqrt: real -> real)
    ensures Lit(objects, primRay, p, obj, light, minPrimT, sqrt) <==>
      !(obj.SliceObject? && OppositeSides(obj.slice, primRay, ShadowRay(p, light), minPrimT, sqrt))
      && forall j :: 0 <= j < |objects| ==> !Blocks(objects[j].Intersects(ShadowRay(p, light), sqrt))
  {
    NoneBlocksIff(IntersectAll(objects, ShadowRay(p, light), sqrt));
  }

  /** `2 (u . n) n - u`: the light direction mirrored about the normal. */
  function Mirror(u: Vec3, n: Vec3): Vec3 {
    Sub(Scale(n, 2.0 * Dot(u, n)), u)
  }

  /** `d - 2 (d . n) n`: the direction a ray leaves a mirror with normal `n`. */
  function Reflect(d: Vec3, n: Vec3): Vec3 {
    Sub(d, Scale(n, 2.0 * Dot(d, n)))
  }

  function Diffuse(m: Material, strength: real, n: Vec3, u: Vec3): real {
    strength * Abs(Dot(n, u)) * m.diffusivity
  }

  /** The power is taken before the `max` with 0. */
  function Specular(m: Material, strength: real, n: Vec3, u: Vec3, v: Vec3): real {
    strength * m.specularity * MaxReal(0.0, Pow(Dot(Mirror(u, n), v), m.shininess))
  }

  function Brightness(m: Material, strength: real, n: Vec3, u: Vec3, v: Vec3): real {
    Diffuse(m, strength, n, u) + Specular(m, strength, n, u, v)
  }

  /** `int(min(255, c * w))`: never above 255, never below 0 for
      non-negative inputs, and 255 once the product reaches it. */
  function Channel(c: int, w: real): (r: int)
    ensures r <= 255
    ensures 0 <= c && 0.0 <= w ==> 0 <= r
    ensures 255.0 <= c as real * w ==> r == 255
  {
    Trunc(MinReal(255.0, c as real * w))
  }

  function Scaled(col: Color, w: real): Color {
    [Channel(col[0], w), Channel(col[1], w), Channel(col[2], w)]
  }

  /** What `add_color` returns: never above 255 in any channel. */
  function Shade(
    objects: seq<Primitive>, primRay: Ray, p: Vec3, obj: Primitive, light: Vec3, strength: real,
    minPrimT: real, sqrt: real -> real): (c: Color)
    requires obj.WellFormed()
    ensures AtMostFull(c)
  {
    if Lit(objects, primRay, p, obj, light, minPrimT, sqrt) then
      var n := Normalise(obj.GetNormal(p), sqrt);
      var u := Normalise(Sub(light, p), sqrt);
      var v := Normalise(Neg(primRay.direction), sqrt);
      Scaled(obj.GetColorAtPoint(p), Brightness(obj.GetMaterial(), strength, n, u, v))
    else
      Black
  }

  method AddColor(
    objects: seq<Primitive>, primRay: Ray, p: Vec3, obj: Primitive, light: Vec3, strength: real,
    minPrimT: real, sqrt: real -> real) returns (color: Color)
    requires obj.WellFormed()
    ensures color == Shade(objects, primRay, p, obj, light, strength, minPrimT, sqrt)
  {
    var lit := true;
    var shadowRay := ShadowRay(p, light);
    var traces := IntersectAll(objects, shadowRay, sqrt);
    if obj.SliceObject? && OppositeSides(obj.slice, primRay, shadowRay, minPrimT, sqrt) {
      lit := false;
    }
    for k := 0 to |traces|
      invariant lit <==>
        !(obj.SliceObject? && OppositeSides(obj.slice, primRay, shadowRay, minPrimT, sqrt))
        && NoneBlocks(traces[..k])
    {
      assert traces[..k + 1][..k] == traces[..k];
      var tr := traces[k];
      if tr.nearValid {
        if ShadowBias < tr.tNear && tr.tNear < 1.0 {
          lit := false;
        }
      }
      if tr.farValid {
        if ShadowBias < tr.tFar && tr.tFar < 1.0 {
          lit := false;
        }
      }
    }
    assert traces[..|traces|] == traces;
    color := Black;
    if lit {
      var n := Normalise(obj.GetNormal(p), sqrt);
      var u := Normalise(Sub(light, p), sqrt);
      var v := Normalise(Neg(primRay.direction), sqrt);
      color := Scaled(obj.GetColorAtPoint(p), Brightness(obj.GetMaterial(), strength, n, u, v));
    }
  }

  /** What `add_color` returns for each of the first `n` light sources. */
  function Shades(scene: Scene, sqrt: real -> real, ray: Ray, p: Vec3, obj: Primitive, minT: real, n: nat): (s: seq<Color>)
    requires scene.Valid() && obj.WellFormed() && n <= |scene.lights|
    ensures |s| == n
  {
    if n == 0 then []
    else
      Shades(scene, sqrt, ray, p, obj, minT, n - 1)
        + [Shade(scene.objects, ray, p, obj, scene.lights[n - 1], scene.strengths[n - 1], minT, sqrt)]
  }

  /** Entry `k` is the shading by light source `k`. */
  lemma {:induction false} ShadesAt(scene: Scene, sqrt: real -> real, ray: Ray, p: Vec3, obj: Primitive, minT: real, n: nat, k: nat)
    requires scene.Valid() && obj.WellFormed() && k < n <= |scene.lights|
    ensures Shades(scene, sqrt, ray, p, obj, minT, n)[k]
      == Shade(scene.objects, ray, p, obj, scene.lights[k], scene.strengths[k], minT, sqrt)
  {
    if k < n - 1 {
      ShadesAt(scene, sqrt, ray, p, obj, minT, n - 1, k);
    } else {
      assert scene.lights[k] == scene.lights[n - 1] && scene.strengths[k] == scene.strengths[n - 1];
    }
  }

  predicate NonNegativeColor(c: Color) {
    0 <= c[0] && 0 <= c[1] && 0 <= c[2]
  }

  predicate AtMostFull(c: Color) {
    c[0] <= 255 && c[1] <= 255 && c[2] <= 255
  }

  /** Material parameters under which shading never goes negative. */
  predicate NonNegativeMaterial(m: Material) {
    0.0 <= m.diffusivity && 0.0 <= m.specularity
  }

  /** With non-negative strength and material, both terms are non-negative. */
  lemma BrightnessNonNegative(m: Material, strength: real, n: Vec3, u: Vec3, v: Vec3)
    requires 0.0 <= strength && NonNegativeMaterial(m)
    ensures 0.0 <= Diffuse(m, strength, n, u) && 0.0 <= Specular(m, strength, n, u, v)
    ensures 0.0 <= Brightness(m, strength, n, u, v)
  {
    NonNegativeProduct(strength, Abs(Dot(n, u)));
    NonNegativeProduct(strength * Abs(Dot(n, u)), m.diffusivity);
    NonNegativeProduct(strength, m.specularity);
    NonNegativeProduct(strength * m.specularity, MaxReal(0.0, Pow(Dot(Mirror(u, n), v), m.shininess)));
  }

  /** Every channel `add_color` returns is at most 255; with non-negative
      strength, material and surface colour it is also at least 0. */
  lemma ShadeInRange(
    objects: seq<Primitive>, primRay: Ray, p: Vec3, obj: Primitive, light: Vec3, strength: real,
    minPrimT: real, sqrt: real -> real)
    requires obj.WellFormed()
    ensures AtMostFull(Shade(objects, primRay, p, obj, light, strength, minPrimT, sqrt))
    ensures 0.0 <= strength && NonNegativeMaterial(obj.GetMaterial()) && NonNegativeColor(obj.GetColorAtPoint(p))
      ==> NonNegativeColor(Shade(objects, primRay, p, obj, light, strength, minPrimT, sqrt))
  {
    if 0.0 <= strength && NonNegativeMaterial(obj.GetMaterial()) {
      var n := Normalise(obj.GetNormal(p), sqrt);
      var u := Normalise(Sub(light, p), sqrt);
      var v := Normalise(Neg(primRay.direction), sqrt);
      BrightnessNonNegative(obj.GetMaterial(), strength, n, u, v);
    }
  }

  /** A light blocked by any object, or on the other side of a slice from the
      viewer, adds black. */
  lemma ShadowedIsBlack(
    objects: seq<Primitive>, primRay: Ray, p: Vec3, obj: Primitive, light: Vec3, strength: real,
    minPrimT: real, sqrt: real -> real, j: nat)
    requires obj.WellFormed()
    requires j < |objects| && Blocks(objects[j].Intersects(ShadowRay(p, light), sqrt))
    ensures Shade(objects, primRay, p, obj, light, strength, minPrimT, sqrt) == Black
  {
    var traces := IntersectAll(objects, ShadowRay(p, light), sqrt);
    assert traces[j] == objects[j].Intersects(ShadowRay(p, light), sqrt);
    NoneBlocksIff(traces);
  }

  /** `add_color` gives black exactly when the light does not reach the
      point; a lit point gets `int(min(255, c * (diffuse + specular)))` in each
      channel `c` of the surface colour there. */
  lemma ShadeLitOrBlack(
    objects: seq<Primitive>, primRay: Ray, p: Vec3, obj: Primitive, light: Vec3, strength: real,
    minPrimT: real, sqrt: real -> real)
    requires obj.WellFormed()
    ensures !Lit(objects, primRay, p, obj, light, minPrimT, sqrt)
      ==> Shade(objects, primRay, p, obj, light, strength, minPrimT, sqrt) == Black
    ensures Lit(objects, primRay, p, obj, light, minPrimT, sqrt) ==>
      var n := Normalise(obj.GetNormal(p), sqrt);
      var u := Normalise(Sub(light, p), sqrt);
      var v := Normalise(Neg(primRay.direction), sqrt);
      var w := Brightness(obj.GetMaterial(), strength, n, u, v);
      forall k :: 0 <= k < 3 ==>
        Shade(objects, primRay, p, obj, light, strength, minPrimT, sqrt)[k]
          == Channel(obj.GetColorAtPoint(p)[k], w)
  {
    if Lit(objects, primRay, p, obj, light, minPrimT, sqrt) {
      var n := Normalise(obj.GetNormal(p), sqrt);
      var u := Normalise(Sub(light, p), sqrt);
      var v := Normalise(Neg(primRay.direction), sqrt);
      var w := Brightness(obj.GetMaterial(), strength, n, u, v);
      var col := obj.GetColorAtPoint(p);
      assert Shade(objects, primRay, p, obj, light, strength, minPrimT, sqrt) == Scaled(col, w);
      assert Scaled(col, w) == [Channel(col[0], w), Channel(col[1], w), Channel(col[2], w)];
    }
  }

  /** On a slice, a light on the other side of the surface from the viewer
      adds black whatever else is in the scene. */
  lemma SliceBackSideIsBlack(
    objects: seq<Primitive>, primRay: Ray, p: Vec3, s: SphereSlice, light: Vec3, strength: real,
    minPrimT: real, sqrt: real -> real)
    requires s.radius != 0.0
    requires OppositeSides(s, primRay, ShadowRay(p, light), minPrimT, sqrt)
    ensures Shade(objects, primRay, p, SliceObject(s), light, strength, minPrimT, sqrt) == Black
  {
  }

  lemma TimesOne(k: real, c: real)
    requires c == 1.0
    ensures k * c == k
  {
  }

  lemma ReflectLengthAlgebra(nn: real, nd: real, t: real, dd: real)
    requires nn == 1.0 && t == -2.0 * nd
    ensures nn * t * t + 2.0 * nd * t + dd == dd
  {
  }

  /** For a unit normal the reflected direction makes the opposite angle with
      the normal and keeps the length of the incoming one. */
  lemma ReflectKeepsAngleAndLength(d: Vec3, n: Vec3)
    requires Dot(n, n) == 1.0
    ensures Dot(Reflect(d, n), n) == -Dot(d, n)
    ensures Dot(Reflect(d, n), Reflect(d, n)) == Dot(d, d)
  {
    var t := -2.0 * Dot(d, n);
    assert Reflect(d, n) == Add(d, Scale(n, t));
    DotAlongLeft(d, n, t, n);
    TimesOne(t, Dot(n, n));
    SquaredLengthAlong(d, n, t);
    DotSymmetric(n, d);
    ReflectLengthAlgebra(Dot(n, n), Dot(n, d), t, Dot(d, d));
  }

  /** The shading mirror vector is the reflected direction of the light ray
      reversed. */
  lemma MirrorIsReversedReflection(u: Vec3, n: Vec3)
    ensures Mirror(u, n) == Neg(Reflect(u, n))
  {
  }

  /** Shading does not depend on which way the normal points: flipping it
      leaves the diffuse term (an absolute value) and the mirror vector
      unchanged. Only the slice side test tells the two sides apart. */
  lemma BrightnessIgnoresNormalSign(m: Material, strength: real, n: Vec3, u: Vec3, v: Vec3)
    ensures Brightness(m, strength, Neg(n), u, v) == Brightness(m, strength, n, u, v)
  {
    assert Dot(Neg(n), u) == -Dot(n, u);
    assert Dot(u, Neg(n)) == -Dot(u, n);
    var k := 2.0 * Dot(u, n);
    assert (-n.x) * (-k) == n.x * k && (-n.y) * (-k) == n.y * k && (-n.z) * (-k) == n.z * k;
    assert Mirror(u, Neg(n)) == Mirror(u, n);
  }

  lemma {:induction false} PowOddNegative(x: real, h: nat)
    requires x < 0.0
    ensures Pow(x, 2 * h + 1) < 0.0
  {
    PowEvenPositive(x, h);
    assert Pow(x, 2 * h + 1) == x * Pow(x, 2 * h);
    NegativeTimesPositive(x, Pow(x, 2 * h));
  }

  /** Because the power is taken before the `max` with 0, an even shininess
      lights a highlight on the side facing away from the mirror direction
      too, while an odd one does not. */
  lemma SpecularBackLobe(m: Material, strength: real, n: Vec3, u: Vec3, v: Vec3, h: nat)
    requires 0.0 < strength && 0.0 < m.specularity
    requires Dot(Mirror(u, n), v) < 0.0
    ensures m.shininess == 2 * h ==> 0.0 < Specular(m, strength, n, u, v)
    ensures m.shininess == 2 * h + 1 ==> Specular(m, strength, n, u, v) == 0.0
  {
    var x := Dot(Mirror(u, n), v);
    if m.shininess == 2 * h {
      PowEvenPositive(x, h);
      PositiveProduct(strength, m.specularity);
      PositiveProduct(strength * m.specularity, Pow(x, 2 * h));
    }
    if m.shininess == 2 * h + 1 {
      PowOddNegative(x, h);
    }
  }
}
