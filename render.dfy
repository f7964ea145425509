/** `cast_ray`: the colour of one pixel of the picture. */
module Render {
  import opened Numeric
  import opened Vectors
  import opened Primitives
  import opened Scanning
  import opened Shading
  import opened Reflections

  /** Every pixel starts out mid grey. */
  const Grey := 127

  /** The picture before any ray is cast: every channel of every pixel grey. */
  method NewPixels(rows: nat, cols: nat) returns (pixels: array3<int>)
    ensures fresh(pixels)
    ensures pixels.Length0 == rows && pixels.Length1 == cols && pixels.Length2 == 3
    ensures forall a, b, c :: 0 <= a < rows && 0 <= b < cols && 0 <= c < 3 ==> pixels[a, b, c] == Grey
  {
    pixels := new int[rows, cols, 3]((_, _, _) => Grey);
  }

  /** From the screen point, directed away from the viewpoint: going back one
      unit along it reaches the viewpoint. */
  function PrimaryRay(screenPoint: Vec3, viewpoint: Vec3): (r: Ray)
    ensures r.GetPoint(-1.0) == viewpoint
    ensures r.GetPoint(0.0) == screenPoint
  {
    Ray(screenPoint, Sub(screenPoint, viewpoint))
  }

  /** `min(255, pixel[c] + added[c])` for each channel `c`. */
  function AddClamped(pixel: Color, added: Color): Color {
    [MinInt(255, pixel[0] + added[0]), MinInt(255, pixel[1] + added[1]), MinInt(255, pixel[2] + added[2])]
  }

  /** One light source's turn: its shading is added, and then, for a
      reflective surface, the whole reflected colour again. */
  function LightStep(pixel: Color, shade: Color, reflected: Option<Color>): Color {
    var shaded := AddClamped(pixel, shade);
    match reflected
    case Some(r) => AddClamped(shaded, r)
    case None => shaded
  }

  /** The pixel after the first `k` light sources. */
  function Composite(shades: seq<Color>, reflected: Option<Color>, pixel: Color, k: nat): Color
    requires k <= |shades|
  {
    if k == 0 then pixel
    else LightStep(Composite(shades, reflected, pixel, k - 1), shades[k - 1], reflected)
  }

  /** The pixel `cast_ray` leaves behind: unchanged when the primary ray hits
      nothing, otherwise recomposed from black at the nearest hit. The
      reflection is computed only for a reflective surface. */
  function PixelColor(scene: Scene, sqrt: real -> real, screenPoint: Vec3, viewpoint: Vec3, pixel: Color): (c: Color)
    requires scene.Valid() && |scene.objects| > 0
    ensures AtMostFull(pixel) ==> AtMostFull(c)
  {
    var ray := PrimaryRay(screenPoint, viewpoint);
    var traces := IntersectAll(scene.objects, ray, sqrt);
    var st := Scan(traces, PrimaryTest, |traces|);
    if !st.hit then pixel
    else
      var p := ray.GetPoint(st.minT);
      var obj := scene.objects[st.minIndex];
      var reflected :=
        if obj.GetMaterial().reflectivity != 0.0
        then Some(Reflection(scene, sqrt, ray, p, obj, obj.GetNormal(p), Black, 0, st.minT))
        else None;
      var shades := Shades(scene, sqrt, ray, p, obj, st.minT, |scene.lights|);
      CompositeInRange(shades, reflected, Black, |scene.lights|);
      Composite(shades, reflected, Black, |scene.lights|)
  }

  function PixelAt(pixels: array3<int>, i: nat, j: nat): Color
    requires i < pixels.Length0 && j < pixels.Length1 && pixels.Length2 == 3
    reads pixels
  {
    [pixels[i, j, 0], pixels[i, j, 1], pixels[i, j, 2]]
  }

  /** Adds `added` to pixel `(i, j)` channel by channel, capped at 255. */
  method AddToPixel(pixels: array3<int>, i: nat, j: nat, added: Color)
    requires i < pixels.Length0 && j < pixels.Length1 && pixels.Length2 == 3
    modifies pixels
    ensures PixelAt(pixels, i, j) == AddClamped(old(PixelAt(pixels, i, j)), added)
    ensures forall a, b, c :: 0 <= a < pixels.Length0 && 0 <= b < pixels.Length1 && 0 <= c < 3 && (a != i || b != j) ==>
      pixels[a, b, c] == old(pixels[a, b, c])
  {
    pixels[i, j, 0] := MinInt(255, pixels[i, j, 0] + added[0]);
    pixels[i, j, 1] := MinInt(255, pixels[i, j, 1] + added[1]);
    pixels[i, j, 2] := MinInt(255, pixels[i, j, 2] + added[2]);
  }

  /** The body of the light loop of `cast_ray` for one light source. */
  method AddLight(pixels: array3<int>, i: nat, j: nat, shade: Color, reflected: Option<Color>)
    requires i < pixels.Length0 && j < pixels.Length1 && pixels.Length2 == 3
    modifies pixels
    ensures PixelAt(pixels, i, j) == LightStep(old(PixelAt(pixels, i, j)), shade, reflected)
    ensures forall a, b, c :: 0 <= a < pixels.Length0 && 0 <= b < pixels.Length1 && 0 <= c < 3 && (a != i || b != j) ==>
      pixels[a, b, c] == old(pixels[a, b, c])
  {
    AddToPixel(pixels, i, j, shade);
    if reflected.Some? {
      AddToPixel(pixels, i, j, reflected.value);
    }
  }

  /** The light loop of `cast_ray`: each light's turn, in order, on pixel
      `(i, j)`. */
  method CompositeInto(
    scene: Scene, sqrt: real -> real, ray: Ray, p: Vec3, obj: Primitive, minT: real,
    reflected: Option<Color>, pixels: array3<int>, i: nat, j: nat)
    requires scene.Valid() && obj.WellFormed()
    requires i < pixels.Length0 && j < pixels.Length1 && pixels.Length2 == 3
    modifies pixels
    ensures PixelAt(pixels, i, j) == Composite(Shades(scene, sqrt, ray, p, obj, minT, |scene.lights|),
      reflected, old(PixelAt(pixels, i, j)), |scene.lights|)
    ensures forall a, b, c :: 0 <= a < pixels.Length0 && 0 <= b < pixels.Length1 && 0 <= c < 3 && (a != i || b != j) ==>
      pixels[a, b, c] == old(pixels[a, b, c])
  {
    ghost var before := PixelAt(pixels, i, j);
    ghost var shades := Shades(scene, sqrt, ray, p, obj, minT, |scene.lights|);
    for k := 0 to |scene.lights|
      invariant PixelAt(pixels, i, j) == Composite(shades, reflected, before, k)
      invariant forall a, b, c :: 0 <= a < pixels.Length0 && 0 <= b < pixels.Length1 && 0 <= c < 3 && (a != i || b != j) ==>
        pixels[a, b, c] == old(pixels[a, b, c])
    {
      CompositeLight(scene, sqrt, ray, p, obj, minT, reflected, pixels, i, j, k);
    }
  }

  /** One pass of the light loop of `cast_ray`: light source `k`'s shading,
      and then any reflected colour, is added to the pixel. */
  method CompositeLight(
    scene: Scene, sqrt: real -> real, ray: Ray, p: Vec3, obj: Primitive, minT: real,
    reflected: Option<Color>, pixels: array3<int>, i: nat, j: nat, k: nat)
    requires scene.Valid() && obj.WellFormed() && k < |scene.lights|
    requires i < pixels.Length0 && j < pixels.Length1 && pixels.Length2 == 3
    modifies pixels
    ensures PixelAt(pixels, i, j)
      == LightStep(old(PixelAt(pixels, i, j)), Shades(scene, sqrt, ray, p, obj, minT, |scene.lights|)[k], reflected)
    ensures forall a, b, c :: 0 <= a < pixels.Length0 && 0 <= b < pixels.Length1 && 0 <= c < 3 && (a != i || b != j) ==>
      pixels[a, b, c] == old(pixels[a, b, c])
  {
    var added := AddColor(scene.objects, ray, p, obj, scene.lights[k], scene.strengths[k], minT, sqrt);
    ShadesAt(scene, sqrt, ray, p, obj, minT, |scene.lights|, k);
    AddLight(pixels, i, j, added, reflected);
  }

  /** The reflected colour `cast_ray` computes before its light loop: only
      for a reflective surface, from black and bounce number 0. */
  method ReflectedColor(scene: Scene, sqrt: real -> real, ray: Ray, p: Vec3, obj: Primitive, minT: real)
    returns (reflected: Option<Color>)
    requires scene.Valid() && obj.WellFormed()
    ensures reflected ==
      if obj.GetMaterial().reflectivity != 0.0
      then Some(Reflection(scene, sqrt, ray, p, obj, obj.GetNormal(p), Black, 0, minT))
      else None
  {
    reflected := None;
    if obj.GetMaterial().reflectivity != 0.0 {
      var total := new int[3](_ => 0);
      assert total[..] == Black;
      total := AddReflection(scene, sqrt, ray, p, obj, obj.GetNormal(p), total, 0, minT);
      reflected := Some(total[..]);
    }
  }

  /** Colours pixel `(i, j)` for the screen point it stands for. */
  method CastRay(
    scene: Scene, sqrt: real -> real, screenPoint: Vec3, viewpoint: Vec3, pixels: array3<int>, i: nat, j: nat)
    requires scene.Valid() && |scene.objects| > 0
    requires i < pixels.Length0 && j < pixels.Length1 && pixels.Length2 == 3
    modifies pixels
    ensures PixelAt(pixels, i, j) == PixelColor(scene, sqrt, screenPoint, viewpoint, old(PixelAt(pixels, i, j)))
    ensures forall a, b, c :: 0 <= a < pixels.Length0 && 0 <= b < pixels.Length1 && 0 <= c < 3 && (a != i || b != j) ==>
      pixels[a, b, c] == old(pixels[a, b, c])
  {
    var ray := PrimaryRay(screenPoint, viewpoint);
    var traces := IntersectAll(scene.objects, ray, sqrt);
    var minT, minIndex, hit := NearestHit(traces, PrimaryTest);
    var p := ray.GetPoint(minT);
    var obj := scene.objects[minIndex];
    if hit {
      pixels[i, j, 0], pixels[i, j, 1], pixels[i, j, 2] := 0, 0, 0;
      assert PixelAt(pixels, i, j) == Black;
      var reflected := ReflectedColor(scene, sqrt, ray, p, obj, minT);
      CompositeInto(scene, sqrt, ray, p, obj, minT, reflected, pixels, i, j);
    } else {
      assert PixelAt(pixels, i, j) == old(PixelAt(pixels, i, j));
    }
  }

  /** Adding with the cap never leaves a channel above 255, and adding
      non-negative colours to a non-negative pixel keeps it non-negative. */
  lemma {:induction false} CompositeInRange(shades: seq<Color>, reflected: Option<Color>, pixel: Color, k: nat)
    requires k <= |shades|
    ensures var c := Composite(shades, reflected, pixel, k);
      (AtMostFull(pixel) ==> AtMostFull(c))
      && (NonNegativeColor(pixel)
          && (forall m :: 0 <= m < k ==> NonNegativeColor(shades[m]))
          && (reflected.Some? ==> NonNegativeColor(reflected.value))
          ==> NonNegativeColor(c))
  {
    if k > 0 {
      CompositeInRange(shades, reflected, pixel, k - 1);
    }
  }

  /** The colour composed at a hit on a surface of a scene without negative
      light lies within 0 to 255 in every channel. */
  lemma HitColorInRange(scene: Scene, sqrt: real -> real, ray: Ray, p: Vec3, obj: Primitive, minT: real)
    requires NonNegativeScene(scene) && obj in scene.objects
    ensures var reflected :=
        if obj.GetMaterial().reflectivity != 0.0
        then Some(Reflection(scene, sqrt, ray, p, obj, obj.GetNormal(p), Black, 0, minT))
        else None;
      var c := Composite(Shades(scene, sqrt, ray, p, obj, minT, |scene.lights|), reflected, Black, |scene.lights|);
      NonNegativeColor(c) && AtMostFull(c)
  {
    NonNegativeSceneSurface(scene, obj);
    var reflected :=
      if obj.GetMaterial().reflectivity != 0.0
      then Some(Reflection(scene, sqrt, ray, p, obj, obj.GetNormal(p), Black, 0, minT))
      else None;
    if obj.GetMaterial().reflectivity != 0.0 {
      ReflectionNeverDecreases(scene, sqrt, ray, p, obj, obj.GetNormal(p), Black, 0, minT);
    }
    ShadesInRange(scene, sqrt, ray, p, obj, minT);
    CompositeInRange(Shades(scene, sqrt, ray, p, obj, minT, |scene.lights|), reflected, Black, |scene.lights|);
  }

  /** Every pixel `cast_ray` writes stays within 0 to 255 in a scene without
      negative light, starting from a pixel in that range. */
  lemma PixelInRange(scene: Scene, sqrt: real -> real, screenPoint: Vec3, viewpoint: Vec3, pixel: Color)
    requires NonNegativeScene(scene) && |scene.objects| > 0
    requires NonNegativeColor(pixel) && AtMostFull(pixel)
    ensures NonNegativeColor(PixelColor(scene, sqrt, screenPoint, viewpoint, pixel))
    ensures AtMostFull(PixelColor(scene, sqrt, screenPoint, viewpoint, pixel))
  {
    var ray := PrimaryRay(screenPoint, viewpoint);
    var traces := IntersectAll(scene.objects, ray, sqrt);
    var st := Scan(traces, PrimaryTest, |traces|);
    if st.hit {
      HitColorInRange(scene, sqrt, ray, ray.GetPoint(st.minT), scene.objects[st.minIndex], st.minT);
    }
  }

  /** The old pixel survives exactly when no object offers the primary ray
      a crossing: on a miss it is returned as it was, and on a hit it does not
      matter what it was. */
  lemma PixelKeptOnlyOnMiss(
    scene: Scene, sqrt: real -> real, screenPoint: Vec3, viewpoint: Vec3, pixel: Color, other: Color)
    requires scene.Valid() && |scene.objects| > 0
    ensures var ray := PrimaryRay(screenPoint, viewpoint);
      (forall j :: 0 <= j < |scene.objects| ==> Candidate(scene.objects[j].Intersects(ray, sqrt)).None?)
      ==> PixelColor(scene, sqrt, screenPoint, viewpoint, pixel) == pixel
    ensures var ray := PrimaryRay(screenPoint, viewpoint);
      (exists j :: 0 <= j < |scene.objects| && Candidate(scene.objects[j].Intersects(ray, sqrt)).Some?)
      ==> PixelColor(scene, sqrt, screenPoint, viewpoint, pixel) == PixelColor(scene, sqrt, screenPoint, viewpoint, other)
  {
    var ray := PrimaryRay(screenPoint, viewpoint);
    PrimaryScanOverScene(scene.objects, ray, sqrt);
    var traces := IntersectAll(scene.objects, ray, sqrt);
    if exists j :: 0 <= j < |scene.objects| && Candidate(scene.objects[j].Intersects(ray, sqrt)).Some? {
      var j :| 0 <= j < |scene.objects| && Candidate(scene.objects[j].Intersects(ray, sqrt)).Some?;
      assert Candidate(traces[j]).Some?;
    }
  }

  lemma StepProduct(k: int, r: int)
    ensures (k - 1) * r + r == k * r
  {
  }

  /** The reflected colour is added once per light source, not once per
      pixel: when every light leaves the surface black, `k` lights give
      `min(255, k * r)` in each channel of the reflected colour `r`. */
  lemma {:induction false} ReflectionAddedPerLight(shades: seq<Color>, r: Color, k: nat)
    requires k <= |shades| && NonNegativeColor(r)
    requires forall m :: 0 <= m < |shades| ==> shades[m] == Black
    ensures var c := Composite(shades, Some(r), Black, k);
      forall b :: 0 <= b < 3 ==> c[b] == MinInt(255, k * r[b])
  {
    if k > 0 {
      ReflectionAddedPerLight(shades, r, k - 1);
      StepProduct(k, r[0]);
      StepProduct(k, r[1]);
      StepProduct(k, r[2]);
      assert shades[k - 1] == Black;
    }
  }
}
