/** `add_reflection`: the recursive mirror bounce that adds to a running
    colour total what a reflective surface shows. */
module Reflections {
  import opened Numeric
  import opened Vectors
  import opened Primitives
  import opened Scanning
  import opened Shading

  /** The reflected ray starts this far along its own direction, so that it
      does not meet the surface it leaves. */
  const ReflectionOffset := 0.001

  /** The reflected ray starts one offset out from the hit point along the
      mirrored direction. */
  function ReflectedRay(incident: Ray, p: Vec3, normal: Vec3): (r: Ray)
    ensures r.GetPoint(-ReflectionOffset) == p
  {
    var r := Reflect(incident.direction, normal);
    Ray(Add(p, Scale(r, ReflectionOffset)), r)
  }

  /** For a unit normal the reflected ray leaves at the mirrored angle, with
      the incoming ray's length of direction. */
  lemma ReflectedRayMirrors(incident: Ray, p: Vec3, normal: Vec3)
    requires Dot(normal, normal) == 1.0
    ensures var r := ReflectedRay(incident, p, normal);
      Dot(r.direction, normal) == -Dot(incident.direction, normal)
      && Dot(r.direction, r.direction) == Dot(incident.direction, incident.direction)
  {
    ReflectKeepsAngleAndLength(incident.direction, normal);
  }

  /** `int(w * c)`: one channel of a reflected colour at weight `w`. A
      non-negative weight adds no negative light, and a weight of at most 1
      never amplifies the channel. */
  function Weighted(w: real, c: int): (v: int)
    ensures 0.0 <= w && 0 <= c ==> 0 <= v
    ensures 0.0 <= w <= 1.0 && 0 <= c ==> v <= c
  {
    WeightedProduct(w, c as real);
    Trunc(w * c as real)
  }

  /** `total[b] + int(w * c[b])` for each channel `b`. */
  function AddWeighted(total: Color, w: real, c: Color): Color {
    [total[0] + Weighted(w, c[0]), total[1] + Weighted(w, c[1]), total[2] + Weighted(w, c[2])]
  }

  /** The total after adding the first `n` light sources' shading of the
      bounce point at weight `w`. */
  function Gather(shades: seq<Color>, w: real, total: Color, n: nat): Color
    requires n <= |shades|
  {
    if n == 0 then total
    else AddWeighted(Gather(shades, w, total, n - 1), w, shades[n - 1])
  }

  /** One bounce of a reflected ray: the ray itself, the point where it
      meets the nearest surface, that surface, the ray parameter there, and
      the colour `add_color` gives that point for each light source. */
  datatype Bounce = Bounce(ray: Ray, point: Vec3, surface: Primitive, t: real, seen: seq<Color>)

  /** What a bounce records is what the scene shows along its ray. */
  ghost predicate BounceOf(scene: Scene, sqrt: real -> real, b: Bounce)
    requires scene.Valid()
  {
    b.surface in scene.objects && b.seen == Shades(scene, sqrt, b.ray, b.point, b.surface, b.t, |scene.lights|)
  }

  /** The bounce off the surface at `p` with normal `normal`, if the
      reflected ray hits anything. */
  function NextBounce(scene: Scene, sqrt: real -> real, incident: Ray, p: Vec3, normal: Vec3): (b: Option<Bounce>)
    requires scene.Valid()
    ensures b.Some? ==> BounceOf(scene, sqrt, b.value)
  {
    var ray := ReflectedRay(incident, p, normal);
    var traces := IntersectAll(scene.objects, ray, sqrt);
    var st := Scan(traces, ReflectedTest, |traces|);
    if !st.hit then None
    else
      var q := ray.GetPoint(st.minT);
      var next := scene.objects[st.minIndex];
      Some(Bounce(ray, q, next, st.minT, Shades(scene, sqrt, ray, q, next, st.minT, |scene.lights|)))
  }

  /** Every bounce of `bs` is one the scene shows. */
  ghost predicate ChainOf(scene: Scene, sqrt: real -> real, bs: seq<Bounce>)
    requires scene.Valid()
  {
    forall k :: 0 <= k < |bs| ==> BounceOf(scene, sqrt, bs[k])
  }

  /** Every bounce of `bs` but the last is off a surface that reflects. */
  predicate ReflectsOnward(bs: seq<Bounce>) {
    forall k :: 0 <= k < |bs| - 1 ==> bs[k].surface.GetMaterial().reflectivity != 0.0
  }

  /** A bounce the scene shows extends a chain the scene shows. */
  lemma ChainOfCons(scene: Scene, sqrt: real -> real, b: Bounce, rest: seq<Bounce>)
    requires scene.Valid() && BounceOf(scene, sqrt, b) && ChainOf(scene, sqrt, rest)
    ensures ChainOf(scene, sqrt, [b] + rest)
  {
    forall k | 1 <= k < |rest| + 1
      ensures BounceOf(scene, sqrt, ([b] + rest)[k])
    {
      assert ([b] + rest)[k] == rest[k - 1];
    }
  }

  /** A bounce off a surface that reflects may come before any chain that
      keeps reflecting. */
  lemma ReflectsOnwardCons(b: Bounce, rest: seq<Bounce>)
    requires b.surface.GetMaterial().reflectivity != 0.0 && ReflectsOnward(rest)
    ensures ReflectsOnward([b] + rest)
  {
    forall k | 1 <= k < |rest|
      ensures ([b] + rest)[k].surface.GetMaterial().reflectivity != 0.0
    {
      assert ([b] + rest)[k] == rest[k - 1];
    }
  }

  /** The chain of bounces `add_reflection` follows from bounce number
      `count`: it ends at the limit, on a miss, or after a surface that does
      not reflect. */
  function Bounces(scene: Scene, sqrt: real -> real, incident: Ray, p: Vec3, normal: Vec3, count: nat): (bs: seq<Bounce>)
    requires scene.Valid() && count <= scene.reflectionLimit
    ensures |bs| <= scene.reflectionLimit - count
    ensures ReflectsOnward(bs) && ChainOf(scene, sqrt, bs)
    decreases scene.reflectionLimit - count
  {
    if count == scene.reflectionLimit then []
    else
      match NextBounce(scene, sqrt, incident, p, normal)
      case None => []
      case Some(b) =>
        if b.surface.GetMaterial().reflectivity != 0.0 then
          var rest := Bounces(scene, sqrt, b.ray, b.point, b.surface.GetNormal(b.point), count + 1);
          ChainOfCons(scene, sqrt, b, rest);
          ReflectsOnwardCons(b, rest);
          [b] + rest
        else
          [b]
  }

  /** The total after adding what each bounce of `bs` sees, the first at
      weight `refl` raised to `count + 1`, each later one at the reflectivity
      of the surface before it raised to one more than its bounce number. */
  function Deposit(bs: seq<Bounce>, refl: real, total: Color, count: nat): Color
    decreases |bs|
  {
    if |bs| == 0 then total
    else
      var b := bs[0];
      var gathered := Gather(b.seen, Pow(refl, 1 + count), total, |b.seen|);
      Deposit(bs[1..], b.surface.GetMaterial().reflectivity, gathered, count + 1)
  }

  /** The colour total `add_reflection` returns. Bounce number `count` is
      weighted by the reflectivity of the surface it leaves raised to
      `count + 1`. The parameter `minPrimT` is accepted and, as in the tracer,
      not used: the shading at each bounce uses that bounce's own ray
      parameter. */
  function Reflection(
    scene: Scene, sqrt: real -> real, incident: Ray, p: Vec3, obj: Primitive, normal: Vec3,
    total: Color, count: nat, minPrimT: real): (r: Color)
    requires scene.Valid() && count <= scene.reflectionLimit
    ensures count == scene.reflectionLimit || NextBounce(scene, sqrt, incident, p, normal).None? ==> r == total
    decreases scene.reflectionLimit - count
  {
    if count == scene.reflectionLimit then total
    else
      match NextBounce(scene, sqrt, incident, p, normal)
      case None => total
      case Some(b) =>
        var gathered := Gather(b.seen, Pow(obj.GetMaterial().reflectivity, 1 + count), total, |b.seen|);
        if b.surface.GetMaterial().reflectivity != 0.0 then
          Reflection(scene, sqrt, b.ray, b.point, b.surface, b.surface.GetNormal(b.point), gathered, count + 1, b.t)
        else
          gathered
  }

  /** When the reflected ray hits, the chain starts with that bounce and goes
      on from it if the surface hit reflects. */
  lemma BouncesStep(scene: Scene, sqrt: real -> real, incident: Ray, p: Vec3, normal: Vec3, count: nat, b: Bounce)
    requires scene.Valid() && count < scene.reflectionLimit
    requires NextBounce(scene, sqrt, incident, p, normal) == Some(b)
    ensures Bounces(scene, sqrt, incident, p, normal, count)
      == if b.surface.GetMaterial().reflectivity != 0.0
         then [b] + Bounces(scene, sqrt, b.ray, b.point, b.surface.GetNormal(b.point), count + 1)
         else [b]
  {
  }

  /** `add_reflection` stops, leaving the total as it was, exactly when the
      bounce limit is reached or the reflected ray hits nothing. */
  lemma ReflectionStops(
    scene: Scene, sqrt: real -> real, incident: Ray, p: Vec3, obj: Primitive, normal: Vec3,
    total: Color, count: nat, minPrimT: real)
    requires scene.Valid() && count <= scene.reflectionLimit
    ensures Bounces(scene, sqrt, incident, p, normal, count) == []
      <==> count == scene.reflectionLimit || NextBounce(scene, sqrt, incident, p, normal).None?
    ensures count == scene.reflectionLimit || NextBounce(scene, sqrt, incident, p, normal).None?
      ==> Reflection(scene, sqrt, incident, p, obj, normal, total, count, minPrimT) == total
  {
  }

  /** Depositing a chain deposits its first bounce and then the rest. */
  lemma DepositStep(b: Bounce, rest: seq<Bounce>, refl: real, total: Color, count: nat)
    ensures Deposit([b] + rest, refl, total, count)
      == Deposit(rest, b.surface.GetMaterial().reflectivity,
           Gather(b.seen, Pow(refl, 1 + count), total, |b.seen|), count + 1)
  {
    assert ([b] + rest)[1..] == rest;
  }

  /** The recursion of `add_reflection` follows the chain of bounces and
      deposits what each of them sees. */
  lemma {:induction false} ReflectionIsDeposit(
    scene: Scene, sqrt: real -> real, incident: Ray, p: Vec3, obj: Primitive, normal: Vec3,
    total: Color, count: nat, minPrimT: real)
    requires scene.Valid() && count <= scene.reflectionLimit
    ensures Reflection(scene, sqrt, incident, p, obj, normal, total, count, minPrimT)
      == Deposit(Bounces(scene, sqrt, incident, p, normal, count), obj.GetMaterial().reflectivity, total, count)
    decreases scene.reflectionLimit - count
  {
    if count < scene.reflectionLimit {
      match NextBounce(scene, sqrt, incident, p, normal)
      case None =>
        assert Bounces(scene, sqrt, incident, p, normal, count) == [];
      case Some(b) =>
        BouncesStep(scene, sqrt, incident, p, normal, count, b);
        var gathered := Gather(b.seen, Pow(obj.GetMaterial().reflectivity, 1 + count), total, |b.seen|);
        if b.surface.GetMaterial().reflectivity != 0.0 {
          var normal' := b.surface.GetNormal(b.point);
          ReflectionIsDeposit(scene, sqrt, b.ray, b.point, b.surface, normal', gathered, count + 1, b.t);
          assert Reflection(scene, sqrt, incident, p, obj, normal, total, count, minPrimT)
            == Reflection(scene, sqrt, b.ray, b.point, b.surface, normal', gathered, count + 1, b.t);
          DepositStep(b, Bounces(scene, sqrt, b.ray, b.point, normal', count + 1),
            obj.GetMaterial().reflectivity, total, count);
        } else {
          DepositStep(b, [], obj.GetMaterial().reflectivity, total, count);
        }
    }
  }

  /** The light loop of `add_reflection`: adds the weighted shading of the
      bounce point for every light source to the total in place. */
  method GatherInto(
    scene: Scene, sqrt: real -> real, ray: Ray, q: Vec3, next: Primitive, minT: real, w: real,
    colorTotal: array<int>, ghost shades: seq<Color>)
    requires scene.Valid() && next.WellFormed() && colorTotal.Length == 3
    requires shades == Shades(scene, sqrt, ray, q, next, minT, |scene.lights|)
    modifies colorTotal
    ensures colorTotal[..] == Gather(shades, w, old(colorTotal[..]), |scene.lights|)
  {
    ghost var start: Color := colorTotal[..];
    for a := 0 to |scene.lights|
      invariant colorTotal[..] == Gather(shades, w, start, a)
    {
      GatherLight(scene, sqrt, ray, q, next, minT, w, colorTotal, a, shades);
    }
  }

  /** One pass of the light loop: the shading by light source `a`, weighted,
      is added to the total. */
  method GatherLight(
    scene: Scene, sqrt: real -> real, ray: Ray, q: Vec3, next: Primitive, minT: real, w: real,
    colorTotal: array<int>, a: nat, ghost shades: seq<Color>)
    requires scene.Valid() && next.WellFormed() && colorTotal.Length == 3 && a < |scene.lights|
    requires shades == Shades(scene, sqrt, ray, q, next, minT, |scene.lights|)
    modifies colorTotal
    ensures colorTotal[..] == AddWeighted(old(colorTotal[..]), w, shades[a])
  {
    var c := AddColor(scene.objects, ray, q, next, scene.lights[a], scene.strengths[a], minT, sqrt);
    ShadesAt(scene, sqrt, ray, q, next, minT, |scene.lights|, a);
    AddWeightedInto(colorTotal, w, c);
  }

  /** The channel loop: `color_total[b] += int(w * c[b])` for each `b`. */
  method AddWeightedInto(colorTotal: array<int>, w: real, c: Color)
    requires colorTotal.Length == 3
    modifies colorTotal
    ensures colorTotal[..] == AddWeighted(old(colorTotal[..]), w, c)
  {
    ghost var before: Color := colorTotal[..];
    for b := 0 to 3
      invariant forall m :: 0 <= m < 3 ==>
        colorTotal[m] == if m < b then before[m] + Weighted(w, c[m]) else before[m]
    {
      colorTotal[b] := colorTotal[b] + Weighted(w, c[b]);
    }
    assert colorTotal[..] == [colorTotal[0], colorTotal[1], colorTotal[2]];
  }

  method AddReflection(
    scene: Scene, sqrt: real -> real, incident: Ray, p: Vec3, obj: Primitive, normal: Vec3,
    colorTotal: array<int>, count: nat, minPrimT: real) returns (result: array<int>)
    requires scene.Valid() && count <= scene.reflectionLimit
    requires colorTotal.Length == 3
    modifies colorTotal
    ensures result == colorTotal
    ensures colorTotal[..] == Reflection(scene, sqrt, incident, p, obj, normal, old(colorTotal[..]), count, minPrimT)
    decreases scene.reflectionLimit - count
  {
    if count == scene.reflectionLimit {
      return colorTotal;
    }
    var reflectedRay := ReflectedRay(incident, p, normal);
    var traces := IntersectAll(scene.objects, reflectedRay, sqrt);
    var minT, minIndex, hit := NearestHit(traces, ReflectedTest);
    if !hit {
      return colorTotal;
    }
    var q := reflectedRay.GetPoint(minT);
    var next := scene.objects[minIndex];
    ghost var bounce := Bounce(reflectedRay, q, next, minT, Shades(scene, sqrt, reflectedRay, q, next, minT, |scene.lights|));
    assert NextBounce(scene, sqrt, incident, p, normal) == Some(bounce);
    var nextNormal := next.GetNormal(q);
    var w := Pow(obj.GetMaterial().reflectivity, 1 + count);
    GatherInto(scene, sqrt, reflectedRay, q, next, minT, w, colorTotal, bounce.seen);
    if next.GetMaterial().reflectivity != 0.0 {
      result := AddReflection(scene, sqrt, reflectedRay, q, next, nextNormal, colorTotal, count + 1, minT);
      return;
    }
    return colorTotal;
  }

  /** Surface data under which shading and reflection never subtract light. */
  predicate NonNegativeSurface(obj: Primitive) {
    var m := obj.GetMaterial();
    NonNegativeMaterial(m) && 0.0 <= m.reflectivity && NonNegativeColor(m.color)
    && (obj.PlaneObject? && obj.plane.texture.Some? ==>
          forall x, y :: 0 <= x < |obj.plane.texture.value| && 0 <= y < |obj.plane.texture.value[x]| ==>
            NonNegativeColor(obj.plane.texture.value[x][y]))
  }

  predicate NonNegativeScene(scene: Scene) {
    scene.Valid()
    && (forall i :: 0 <= i < |scene.strengths| ==> 0.0 <= scene.strengths[i])
    && forall i :: 0 <= i < |scene.objects| ==> NonNegativeSurface(scene.objects[i])
  }

  /** A surface without negative light that reflects at most what reaches
      it. */
  predicate AttenuatingSurface(obj: Primitive) {
    NonNegativeSurface(obj) && obj.GetMaterial().reflectivity <= 1.0
  }

  predicate AttenuatingScene(scene: Scene) {
    scene.Valid()
    && (forall i :: 0 <= i < |scene.strengths| ==> 0.0 <= scene.strengths[i])
    && forall i :: 0 <= i < |scene.objects| ==> AttenuatingSurface(scene.objects[i])
  }

  lemma AttenuatingIsNonNegative(scene: Scene)
    requires AttenuatingScene(scene)
    ensures NonNegativeScene(scene)
  {
  }

  lemma NonNegativeSceneSurface(scene: Scene, obj: Primitive)
    requires NonNegativeScene(scene) && obj in scene.objects
    ensures obj.WellFormed() && NonNegativeSurface(obj)
  {
    var i :| 0 <= i < |scene.objects| && scene.objects[i] == obj;
  }

  lemma AttenuatingSceneSurface(scene: Scene, obj: Primitive)
    requires AttenuatingScene(scene) && obj in scene.objects
    ensures obj.WellFormed() && AttenuatingSurface(obj)
  {
    var i :| 0 <= i < |scene.objects| && scene.objects[i] == obj;
  }

  lemma SurfaceColorNonNegative(obj: Primitive, p: Vec3)
    requires obj.WellFormed() && NonNegativeSurface(obj)
    ensures NonNegativeColor(obj.GetColorAtPoint(p))
  {
    if obj.PlaneObject? && obj.plane.texture.Some? {
      var xy := obj.plane.TexelIndex(p);
      assert NonNegativeColor(obj.plane.texture.value[xy.0][xy.1]);
    }
  }

  /** A non-negative weight times a non-negative channel is non-negative,
      and no larger than the channel when the weight is at most 1. */
  lemma WeightedProduct(w: real, c: real)
    ensures 0.0 <= w && 0.0 <= c ==> 0.0 <= w * c
    ensures 0.0 <= w <= 1.0 && 0.0 <= c ==> w * c <= c
  {
    if 0.0 <= w && 0.0 <= c {
      NonNegativeProduct(w, c);
      if w <= 1.0 {
        NonNegativeProduct(1.0 - w, c);
      }
    }
  }

  /** Each weighted channel adds between 0 and the channel itself. */
  lemma AddWeightedBounds(total: Color, w: real, c: Color)
    requires 0.0 <= w && NonNegativeColor(c)
    ensures forall b :: 0 <= b < 3 ==> total[b] <= AddWeighted(total, w, c)[b]
    ensures w <= 1.0 && AtMostFull(c) ==>
      forall b :: 0 <= b < 3 ==> AddWeighted(total, w, c)[b] <= total[b] + 255
  {
  }

  /** In a scene without negative light every light source's shading lies
      between 0 and 255 in each channel. */
  lemma ShadesInRange(scene: Scene, sqrt: real -> real, ray: Ray, p: Vec3, obj: Primitive, minT: real)
    requires NonNegativeScene(scene) && obj.WellFormed() && NonNegativeSurface(obj)
    ensures var shades := Shades(scene, sqrt, ray, p, obj, minT, |scene.lights|);
      forall m :: 0 <= m < |shades| ==> NonNegativeColor(shades[m]) && AtMostFull(shades[m])
  {
    var shades := Shades(scene, sqrt, ray, p, obj, minT, |scene.lights|);
    forall m | 0 <= m < |shades|
      ensures NonNegativeColor(shades[m]) && AtMostFull(shades[m])
    {
      ShadesAt(scene, sqrt, ray, p, obj, minT, |scene.lights|, m);
      SurfaceColorNonNegative(obj, p);
      ShadeInRange(scene.objects, ray, p, obj, scene.lights[m], scene.strengths[m], minT, sqrt);
    }
  }

  /** Over `n` lights the gathered total grows by between 0 and `255 n` per
      channel. */
  lemma {:induction false} GatherBounds(shades: seq<Color>, w: real, total: Color, n: nat)
    requires n <= |shades| && 0.0 <= w
    requires forall m :: 0 <= m < n ==> NonNegativeColor(shades[m])
    ensures var g := Gather(shades, w, total, n);
      (forall b :: 0 <= b < 3 ==> total[b] <= g[b])
      && (w <= 1.0 && (forall m :: 0 <= m < n ==> AtMostFull(shades[m])) ==>
            forall b :: 0 <= b < 3 ==> g[b] <= total[b] + 255 * n)
  {
    if n > 0 {
      GatherBounds(shades, w, total, n - 1);
      AddWeightedBounds(Gather(shades, w, total, n - 1), w, shades[n - 1]);
    }
  }

  /** The most `bounces` bounces can add to one channel with `lights` light
      sources: 255 per light and bounce. */
  function Budget(lights: nat, bounces: nat): (b: int)
    ensures 0 <= b
  {
    if bounces == 0 then 0 else 255 * lights + Budget(lights, bounces - 1)
  }

  /** No channel of `r` exceeds the same channel of `total` by more than
      `bound`. */
  predicate AddsAtMost(r: Color, total: Color, bound: int) {
    forall c :: 0 <= c < 3 ==> r[c] <= total[c] + bound
  }

  lemma {:induction false} BudgetMonotone(lights: nat, m: nat, n: nat)
    requires m <= n
    ensures Budget(lights, m) <= Budget(lights, n)
  {
    if m < n {
      BudgetMonotone(lights, m, n - 1);
    }
  }

  /** A bounce off a surface that reflects no negative amount and sees no
      negative light. */
  predicate NonNegativeBounce(b: Bounce) {
    0.0 <= b.surface.GetMaterial().reflectivity
    && forall m :: 0 <= m < |b.seen| ==> NonNegativeColor(b.seen[m])
  }

  /** A bounce off a surface that reflects at most what reaches it and sees
      at most full intensity from each light source. */
  predicate AttenuatingBounce(b: Bounce) {
    0.0 <= b.surface.GetMaterial().reflectivity <= 1.0
    && forall m :: 0 <= m < |b.seen| ==> NonNegativeColor(b.seen[m]) && AtMostFull(b.seen[m])
  }

  /** Every bounce of the chain attenuates and records one colour per light
      source. */
  predicate ChainAttenuates(bs: seq<Bounce>, lights: nat) {
    forall k :: 0 <= k < |bs| ==> AttenuatingBounce(bs[k]) && |bs[k].seen| == lights
  }

  /** Depositing what a chain of bounces without negative light sees only
      ever adds to the total. */
  lemma {:induction false} DepositNeverDecreases(bs: seq<Bounce>, refl: real, total: Color, count: nat)
    requires 0.0 <= refl
    requires forall k :: 0 <= k < |bs| ==> NonNegativeBounce(bs[k])
    ensures var r := Deposit(bs, refl, total, count);
      forall c :: 0 <= c < 3 ==> total[c] <= r[c]
    decreases |bs|
  {
    if |bs| > 0 {
      var b := bs[0];
      PowNonNegative(refl, 1 + count);
      GatherBounds(b.seen, Pow(refl, 1 + count), total, |b.seen|);
      var gathered := Gather(b.seen, Pow(refl, 1 + count), total, |b.seen|);
      DepositNeverDecreases(bs[1..], b.surface.GetMaterial().reflectivity, gathered, count + 1);
    }
  }

  /** A bounce of a scene without negative light sees none. */
  lemma BounceNonNegative(scene: Scene, sqrt: real -> real, b: Bounce)
    requires NonNegativeScene(scene) && BounceOf(scene, sqrt, b)
    ensures NonNegativeBounce(b)
  {
    NonNegativeSceneSurface(scene, b.surface);
    ShadesInRange(scene, sqrt, b.ray, b.point, b.surface, b.t);
    assert b.seen == Shades(scene, sqrt, b.ray, b.point, b.surface, b.t, |scene.lights|);
  }

  /** In a scene without negative light, reflection only ever adds to the
      total. */
  lemma ReflectionNeverDecreases(
    scene: Scene, sqrt: real -> real, incident: Ray, p: Vec3, obj: Primitive, normal: Vec3,
    total: Color, count: nat, minPrimT: real)
    requires NonNegativeScene(scene) && count <= scene.reflectionLimit
    requires 0.0 <= obj.GetMaterial().reflectivity
    ensures var r := Reflection(scene, sqrt, incident, p, obj, normal, total, count, minPrimT);
      forall c :: 0 <= c < 3 ==> total[c] <= r[c]
  {
    ReflectionIsDeposit(scene, sqrt, incident, p, obj, normal, total, count, minPrimT);
    var bs := Bounces(scene, sqrt, incident, p, normal, count);
    forall k | 0 <= k < |bs|
      ensures NonNegativeBounce(bs[k])
    {
      BounceNonNegative(scene, sqrt, bs[k]);
    }
    DepositNeverDecreases(bs, obj.GetMaterial().reflectivity, total, count);
  }

  lemma BounceGathered(seen: seq<Color>, refl: real, count: nat, total: Color)
    requires 0.0 <= refl <= 1.0
    requires forall m :: 0 <= m < |seen| ==> NonNegativeColor(seen[m]) && AtMostFull(seen[m])
    ensures forall c :: 0 <= c < 3 ==>
      Gather(seen, Pow(refl, 1 + count), total, |seen|)[c] <= total[c] + 255 * |seen|
  {
    PowNonNegative(refl, 1 + count);
    PowAtMostOne(refl, 1 + count);
    GatherBounds(seen, Pow(refl, 1 + count), total, |seen|);
  }

  /** With reflectivities at most 1 no weight exceeds 1, so each bounce of the
      chain adds at most 255 per channel for each light source. */
  lemma {:induction false} DepositBounded(bs: seq<Bounce>, refl: real, total: Color, count: nat, lights: nat)
    requires 0.0 <= refl <= 1.0
    requires ChainAttenuates(bs, lights)
    ensures AddsAtMost(Deposit(bs, refl, total, count), total, Budget(lights, |bs|))
    decreases |bs|
  {
    if |bs| > 0 {
      var b := bs[0];
      BounceGathered(b.seen, refl, count, total);
      var gathered := Gather(b.seen, Pow(refl, 1 + count), total, |b.seen|);
      DepositBounded(bs[1..], b.surface.GetMaterial().reflectivity, gathered, count + 1, lights);
    }
  }

  /** A bounce of a scene whose surfaces attenuate sees at most full
      intensity from each light source. */
  lemma BounceAttenuating(scene: Scene, sqrt: real -> real, b: Bounce)
    requires AttenuatingScene(scene) && BounceOf(scene, sqrt, b)
    ensures AttenuatingBounce(b) && |b.seen| == |scene.lights|
  {
    AttenuatingIsNonNegative(scene);
    AttenuatingSceneSurface(scene, b.surface);
    NonNegativeSceneSurface(scene, b.surface);
    ShadesInRange(scene, sqrt, b.ray, b.point, b.surface, b.t);
    assert b.seen == Shades(scene, sqrt, b.ray, b.point, b.surface, b.t, |scene.lights|);
  }

  /** The bound of `DepositBounded`, widened to any number of bounces at
      least as long as the chain. */
  lemma DepositWithinBudget(bs: seq<Bounce>, refl: real, total: Color, count: nat, lights: nat, n: nat)
    requires 0.0 <= refl <= 1.0 && |bs| <= n && ChainAttenuates(bs, lights)
    ensures AddsAtMost(Deposit(bs, refl, total, count), total, Budget(lights, n))
  {
    DepositBounded(bs, refl, total, count, lights);
    BudgetMonotone(lights, |bs|, n);
  }

  /** In a scene whose surfaces attenuate, every bounce of the chain sees at
      most full intensity from each light source. */
  lemma BouncesAttenuating(scene: Scene, sqrt: real -> real, incident: Ray, p: Vec3, normal: Vec3, count: nat)
    requires AttenuatingScene(scene) && count <= scene.reflectionLimit
    ensures ChainAttenuates(Bounces(scene, sqrt, incident, p, normal, count), |scene.lights|)
  {
    var bs := Bounces(scene, sqrt, incident, p, normal, count);
    forall k | 0 <= k < |bs|
      ensures AttenuatingBounce(bs[k]) && |bs[k].seen| == |scene.lights|
    {
      BounceAttenuating(scene, sqrt, bs[k]);
    }
  }

  /** So depositing the chain stays within the budget of the bounces left
      before the limit. */
  lemma BouncesWithinBudget(
    scene: Scene, sqrt: real -> real, incident: Ray, p: Vec3, normal: Vec3, count: nat,
    refl: real, total: Color)
    requires AttenuatingScene(scene) && count <= scene.reflectionLimit && 0.0 <= refl <= 1.0
    ensures AddsAtMost(Deposit(Bounces(scene, sqrt, incident, p, normal, count), refl, total, count),
      total, Budget(|scene.lights|, scene.reflectionLimit - count))
  {
    BouncesAttenuating(scene, sqrt, incident, p, normal, count);
    DepositWithinBudget(Bounces(scene, sqrt, incident, p, normal, count), refl, total, count,
      |scene.lights|, scene.reflectionLimit - count);
  }

  /** With reflectivities at most 1, the remaining bounces add at most 255 per
      channel for each light source and each bounce left before the limit. */
  lemma ReflectionBounded(
    scene: Scene, sqrt: real -> real, incident: Ray, p: Vec3, obj: Primitive, normal: Vec3,
    total: Color, count: nat, minPrimT: real)
    requires AttenuatingScene(scene) && count <= scene.reflectionLimit
    requires 0.0 <= obj.GetMaterial().reflectivity <= 1.0
    ensures AddsAtMost(Reflection(scene, sqrt, incident, p, obj, normal, total, count, minPrimT),
      total, Budget(|scene.lights|, scene.reflectionLimit - count))
  {
    ReflectionIsDeposit(scene, sqrt, incident, p, obj, normal, total, count, minPrimT);
    BouncesWithinBudget(scene, sqrt, incident, p, normal, count, obj.GetMaterial().reflectivity, total);
  }
}
