/** The scene primitives of the tracer: rays, materials, spheres, textured planes
    and sphere slices, each with its intersection test, its surface normal and its
    colour at a point. */
module Primitives {
  import opened Numeric
  import opened Vectors

  /** An RGB triple. */
  type Color = c: seq<int> | |c| == 3 witness [0, 0, 0]

  datatype Material = Material(
    color: Color,
    diffusivity: real,
    specularity: real,
    shininess: nat,
    reflectivity: real)

  /** A half-line `source + t * direction`, `t >= 0`. */
  datatype Ray = Ray(source: Vec3, direction: Vec3) {
    /** The point reached after moving `t` times the direction from the source. */
    function GetPoint(t: real): (p: Vec3)
      ensures Sub(p, source) == Scale(direction, t)
      ensures p == Add(source, Scale(direction, t))
      ensures t == 0.0 ==> p == source
    {
      var p := Vec3(source.x + direction.x * t, source.y + direction.y * t, source.z + direction.z * t);
      assert p.x - source.x == direction.x * t && p.y - source.y == direction.y * t
        && p.z - source.z == direction.z * t;
      p
    }
  }

  /** The four-element list every `intersects` returns: two ray parameters and a
      flag for each saying whether that root is reported (not necessarily
      ahead of the ray). */
  datatype Trace = Trace(tNear: real, tFar: real, nearValid: bool, farValid: bool)

  const NoHit := Trace(0.0, 0.0, false, false)

  /** A slot that is not flagged carries the parameter zero. */
  predicate ZeroFilled(tr: Trace) {
    (!tr.nearValid ==> tr.tNear == 0.0) && (!tr.farValid ==> tr.tFar == 0.0)
  }

  /** `a t^2 + b t + c = 0`: where a ray meets a sphere. */
  datatype Quadratic = Quadratic(a: real, b: real, c: real) {
    function Discriminant(): real { b * b - 4.0 * a * c }

    function Near(sqrt: real -> real): real
      requires a != 0.0
    {
      (-b - sqrt(Discriminant())) / (2.0 * a)
    }

    function Far(sqrt: real -> real): real
      requires a != 0.0
    {
      (-b + sqrt(Discriminant())) / (2.0 * a)
    }
  }

  /** The coefficients both sphere-like shapes compute from the ray and the
      sphere's centre and radius. */
  function SphereQuadratic(ray: Ray, centre: Vec3, radius: real): Quadratic {
    var w := Sub(ray.source, centre);
    Quadratic(Dot(ray.direction, ray.direction), 2.0 * Dot(ray.direction, w), Dot(w, w) - radius * radius)
  }

  /** The outward normal `(p - centre) / radius`. */
  function RadialNormal(centre: Vec3, radius: real, p: Vec3): Vec3
    requires radius != 0.0
  {
    Divide(Sub(p, centre), radius)
  }

  /** Scaled back by the radius the outward normal gives the offset from the
      centre, and at a point on the sphere it has length one. */
  lemma RadialNormalScales(centre: Vec3, radius: real, p: Vec3)
    requires radius != 0.0
    ensures Scale(RadialNormal(centre, radius, p), radius) == Sub(p, centre)
    ensures OnSphere(centre, radius, p) ==> Dot(RadialNormal(centre, radius, p), RadialNormal(centre, radius, p)) == 1.0
  {
    var v := Sub(p, centre);
    var n := Divide(v, radius);
    DividedSquaredLength(v, radius);
    if OnSphere(centre, radius, p) {
      CancelSquare(Dot(n, n), radius, Dot(v, v));
    }
  }

  predicate OnSphere(centre: Vec3, radius: real, p: Vec3) {
    Dot(Sub(p, centre), Sub(p, centre)) == radius * radius
  }

  datatype Sphere = Sphere(centre: Vec3, radius: real, material: Material) {
    function GetNormal(p: Vec3): (n: Vec3)
      requires radius != 0.0
    {
      RadialNormal(centre, radius, p)
    }

    /** A negative discriminant is a miss. A ray that starts inside (the near
        root behind it, the far one ahead) reports only the far root. Otherwise
        both roots are reported as valid, even when both lie behind the ray. A
        direction of length zero is treated as a miss. The near root is only
        ever flagged together with the far one. */
    function Intersects(ray: Ray, sqrt: real -> real): (tr: Trace)
      ensures ZeroFilled(tr)
      ensures tr.nearValid ==> tr.farValid
      ensures !tr.farValid ==> tr == NoHit
    {
      var q := SphereQuadratic(ray, centre, radius);
      if q.Discriminant() < 0.0 || q.a == 0.0 then NoHit
      else
        var t0, t1 := q.Near(sqrt), q.Far(sqrt);
        if t0 < 0.0 && t1 > 0.0 then Trace(0.0, t1, false, true)
        else if t0 < 0.0 && t1 > 0.0 then NoHit
        else Trace(t0, t1, true, true)
    }

    function GetColorAtPoint(p: Vec3): Color { material.color }
  }

  /** A texture image: rows of colours, indexed `[x][y]`. */
  type Texture = seq<seq<Color>>

  predicate Rectangular(tex: Texture) {
    |tex| > 0 && |tex[0]| > 0 && forall i :: 0 <= i < |tex| ==> |tex[i]| == |tex[0]|
  }

  /** An infinite plane `p . normal == d`, optionally tiled with a texture laid
      out along the axes `texVec1`, `texVec2` at `texSize` texels per unit. */
  datatype Plane = Plane(
    point: Vec3,
    normal: Vec3,
    d: real,
    material: Material,
    texture: Option<Texture>,
    texVec1: Vec3,
    texVec2: Vec3,
    texSize: real)
  {
    predicate Valid() {
      texture.Some? ==> Rectangular(texture.value)
    }

    function GetNormal(p: Vec3): Vec3 { normal }

    /** The texel a point is painted with: its coordinates along the texture
        axes, scaled, truncated toward zero and wrapped into the image. */
    function TexelIndex(p: Vec3): (xy: (int, int))
      requires texture.Some? && Rectangular(texture.value)
      ensures 0 <= xy.0 < |texture.value| && 0 <= xy.1 < |texture.value[0]|
    {
      (Wrap(TexCoord(p, texVec1), |texture.value|), Wrap(TexCoord(p, texVec2), |texture.value[0]|))
    }

    /** The texel coordinate of a point along one texture axis, before
        truncation. */
    function TexCoord(p: Vec3, axis: Vec3): real {
      Dot(Sub(p, point), axis) * texSize
    }

    /** Without a texture the material colour; with one, always one of the
        image's texels. */
    function GetColorAtPoint(p: Vec3): (c: Color)
      requires Valid()
      ensures texture.None? ==> c == material.color
      ensures texture.Some? ==>
        exists x, y :: 0 <= x < |texture.value| && 0 <= y < |texture.value[x]| && c == texture.value[x][y]
    {
      if texture.Some? then
        var xy := TexelIndex(p);
        assert |texture.value[xy.0]| == |texture.value[0]|;
        texture.value[xy.0][xy.1]
      else
        material.color
    }

    /** A ray parallel to the plane misses; otherwise the single crossing is
        reported in both slots, unless it lies behind the ray. */
    function Intersects(ray: Ray): (tr: Trace)
      ensures ZeroFilled(tr) && tr.nearValid == tr.farValid && tr.tNear == tr.tFar
      ensures tr.nearValid ==> 0.0 <= tr.tNear
      ensures Dot(ray.direction, normal) == 0.0 ==> tr == NoHit
    {
      if Dot(ray.direction, normal) == 0.0 then NoHit
      else
        var t := (d - Dot(normal, ray.source)) / Dot(normal, ray.direction);
        if t < 0.0 then NoHit else Trace(t, t, true, true)
    }

    /** The closed half-space on the side the normal points away from: for a
        plane through its defining point, the points whose offset from that
        point does not go along the normal. */
    predicate Contains(p: Vec3)
      ensures Dot(point, normal) == d ==> (Contains(p) <==> Dot(Sub(p, point), normal) <= 0.0)
    {
      Dot(p, normal) <= d
    }
  }

  /** The `Plane` constructor: the normal is normalised, `d` is fixed by the
      given point, and the texture axes come from the direction towards
      `secondPoint` (the origin unless the caller gives one). */
  function NewPlane(
    point: Vec3, normal: Vec3, material: Material, texture: Option<Texture>,
    secondPoint: Vec3, texSize: real, sqrt: real -> real): (pl: Plane)
    ensures Dot(pl.point, pl.normal) == pl.d && pl.Contains(point)
    ensures Dot(pl.texVec2, pl.texVec1) == 0.0 && Dot(pl.texVec2, normal) == 0.0
  {
    var n := Normalise(normal, sqrt);
    var tv1 := Normalise(Sub(secondPoint, point), sqrt);
    CrossPerpendicular(normal, tv1);
    Plane(point, n, Dot(point, n), material, texture, tv1, Neg(Cross(normal, tv1)), texSize)
  }

  /** A texel coordinate made an image index: `int(coord) % n`. */
  function Wrap(coord: real, n: int): (i: int)
    requires 0 < n
    ensures 0 <= i < n
  {
    Trunc(coord) % n
  }

  /** Texture scale used when the caller gives none. */
  const DefaultTexSize := 100.0

  /** A sphere with a cap cut off by a plane: the part kept is on the
      `Contains` side of `cutoff`. `edgeCentre` is the point of the sphere at
      the centre of the kept part, `unitPole` points from it to the centre. */
  datatype SphereSlice = SphereSlice(
    edgeCentre: Vec3,
    radius: real,
    material: Material,
    unitPole: Vec3,
    pole: Vec3,
    sphereCentre: Vec3,
    maxEdgeDist: real,
    cutoff: Plane)
  {
    /** Each root of the sphere's quadratic is reported exactly when the cutoff
        plane keeps its point. */
    function Intersects(ray: Ray, sqrt: real -> real): (tr: Trace)
      ensures ZeroFilled(tr)
      ensures tr.nearValid ==> cutoff.Contains(ray.GetPoint(tr.tNear))
      ensures tr.farValid ==> cutoff.Contains(ray.GetPoint(tr.tFar))
    {
      var q := SphereQuadratic(ray, sphereCentre, radius);
      if q.Discriminant() < 0.0 || q.a == 0.0 then NoHit
      else
        var t0, t1 := q.Near(sqrt), q.Far(sqrt);
        var c0 := cutoff.Contains(ray.GetPoint(t0));
        var c1 := cutoff.Contains(ray.GetPoint(t1));
        if c0 && c1 then Trace(t0, t1, true, true)
        else if c0 && !c1 then Trace(t0, 0.0, true, false)
        else if !c0 && c1 then Trace(0.0, t1, false, true)
        else NoHit
    }

    function GetNormal(p: Vec3): (n: Vec3)
      requires radius != 0.0
    {
      RadialNormal(sphereCentre, radius, p)
    }

    function GetColorAtPoint(p: Vec3): Color { material.color }
  }

  /** The `SphereSlice` constructor. */
  function NewSphereSlice(
    edgeCentre: Vec3, radius: real, poleDir: Vec3, maxEdgeDist: real,
    material: Material, sqrt: real -> real): (s: SphereSlice)
    ensures Sub(s.sphereCentre, s.edgeCentre) == s.pole
    ensures s.cutoff.Valid()
    ensures s.cutoff.Contains(Add(edgeCentre, Scale(s.unitPole, maxEdgeDist)))
  {
    var unitPole := Normalise(poleDir, sqrt);
    var pole := Scale(unitPole, radius);
    var cut := Add(edgeCentre, Scale(unitPole, maxEdgeDist));
    SphereSlice(edgeCentre, radius, material, unitPole, pole, Add(edgeCentre, pole), maxEdgeDist,
      NewPlane(cut, pole, material, None, Origin, DefaultTexSize, sqrt))
  }

  /** Any object of the scene. */
  datatype Primitive =
    | SphereObject(sphere: Sphere)
    | PlaneObject(plane: Plane)
    | SliceObject(slice: SphereSlice)
  {
    /** What the methods of the object need to be defined: a non-zero radius
        (the normal divides by it) and a rectangular texture. */
    predicate WellFormed() {
      match this
      case SphereObject(s) => s.radius != 0.0
      case PlaneObject(p) => p.Valid()
      case SliceObject(s) => s.radius != 0.0
    }

    function GetMaterial(): Material {
      match this
      case SphereObject(s) => s.material
      case PlaneObject(p) => p.material
      case SliceObject(s) => s.material
    }

    /** Every shape fills an unused slot of its trace with zero. */
    function Intersects(ray: Ray, sqrt: real -> real): (tr: Trace)
      ensures ZeroFilled(tr)
    {
      match this
      case SphereObject(s) => s.Intersects(ray, sqrt)
      case PlaneObject(p) => p.Intersects(ray)
      case SliceObject(s) => s.Intersects(ray, sqrt)
    }

    function GetNormal(p: Vec3): Vec3
      requires WellFormed()
    {
      match this
      case SphereObject(s) => s.GetNormal(p)
      case PlaneObject(pl) => pl.GetNormal(p)
      case SliceObject(s) => s.GetNormal(p)
    }

    function GetColorAtPoint(p: Vec3): Color
      requires WellFormed()
    {
      match this
      case SphereObject(s) => s.GetColorAtPoint(p)
      case PlaneObject(pl) => pl.GetColorAtPoint(p)
      case SliceObject(s) => s.GetColorAtPoint(p)
    }
  }

  /** `a`, `b`, `c` with a non-zero `a`, a real square root of the discriminant,
      and `t` one of the two roots the tracer computes. */
  predicate IsRoot(q: Quadratic, sqrt: real -> real, t: real) {
    q.a != 0.0 && 0.0 <= q.Discriminant() && (t == q.Near(sqrt) || t == q.Far(sqrt))
  }

  /** The near root never exceeds the far one. */
  lemma RootsOrdered(q: Quadratic, sqrt: real -> real)
    requires IsSqrt(sqrt)
    requires 0.0 < q.a && 0.0 <= q.Discriminant()
    ensures q.Near(sqrt) <= q.Far(sqrt)
  {
    OrderedQuotients(q.b, sqrt(q.Discriminant()), 2.0 * q.a);
  }

  /** Either root of the sphere quadratic is a point at distance `radius` from
      the centre. */
  lemma RootOnSphere(ray: Ray, centre: Vec3, radius: real, sqrt: real -> real, t: real)
    requires IsSqrt(sqrt)
    requires IsRoot(SphereQuadratic(ray, centre, radius), sqrt, t)
    ensures OnSphere(centre, radius, ray.GetPoint(t))
  {
    var w := Sub(ray.source, centre);
    var q := SphereQuadratic(ray, centre, radius);
    QuadraticRoot(q.a, q.b, q.c, sqrt(q.Discriminant()), t);
    var v := Add(w, Scale(ray.direction, t));
    SquaredLengthAlong(w, ray.direction, t);
    assert Dot(v, v) == q.a * t * t + q.b * t + q.c + radius * radius;
    assert Sub(ray.GetPoint(t), centre) == v;
  }

  /** The shape of a sphere trace: a miss exactly when the quadratic has no
      real root (or the direction is zero); otherwise the far root is always
      reported, the near one is dropped exactly when the ray starts inside, and
      the two come out in order. The second, identical inside test never
      fires. */
  lemma SphereTraceShape(s: Sphere, ray: Ray, sqrt: real -> real)
    requires IsSqrt(sqrt)
    ensures var q := SphereQuadratic(ray, s.centre, s.radius);
      var tr := s.Intersects(ray, sqrt);
      (tr == NoHit <==> q.Discriminant() < 0.0 || q.a == 0.0)
      && (tr != NoHit ==>
            tr.farValid && tr.tFar == q.Far(sqrt)
            && (tr.nearValid <==> !(q.Near(sqrt) < 0.0 < q.Far(sqrt)))
            && (tr.nearValid ==> tr.tNear == q.Near(sqrt) <= tr.tFar)
            && (!tr.nearValid ==> 0.0 < tr.tFar))
  {
    var q := SphereQuadratic(ray, s.centre, s.radius);
    if 0.0 <= q.Discriminant() && q.a != 0.0 {
      DotSelfNonNegative(ray.direction);
      RootsOrdered(q, sqrt);
    }
  }

  /** Every root a sphere reports lies on the sphere, and the normal there is a
      unit vector. */
  lemma SphereTraceOnSurface(s: Sphere, ray: Ray, sqrt: real -> real)
    requires IsSqrt(sqrt)
    requires s.radius != 0.0
    ensures var tr := s.Intersects(ray, sqrt);
      (tr.nearValid ==>
         OnSphere(s.centre, s.radius, ray.GetPoint(tr.tNear))
         && Dot(s.GetNormal(ray.GetPoint(tr.tNear)), s.GetNormal(ray.GetPoint(tr.tNear))) == 1.0)
      && (tr.farValid ==>
         OnSphere(s.centre, s.radius, ray.GetPoint(tr.tFar))
         && Dot(s.GetNormal(ray.GetPoint(tr.tFar)), s.GetNormal(ray.GetPoint(tr.tFar))) == 1.0)
  {
    var tr := s.Intersects(ray, sqrt);
    if tr.nearValid {
      RootOnSphere(ray, s.centre, s.radius, sqrt, tr.tNear);
      RadialNormalScales(s.centre, s.radius, ray.GetPoint(tr.tNear));
    }
    if tr.farValid {
      RootOnSphere(ray, s.centre, s.radius, sqrt, tr.tFar);
      RadialNormalScales(s.centre, s.radius, ray.GetPoint(tr.tFar));
    }
  }

  /** A ray whose source is `dist` from the centre along the unit vector
      `u`, with direction `sign * u`: its quadratic is monic with
      discriminant `(2r)^2`. */
  lemma DirectedQuadratic(centre: Vec3, r: real, dist: real, u: Vec3, sign: real)
    requires Dot(u, u) == 1.0
    requires sign == 1.0 || sign == -1.0
    ensures var q := SphereQuadratic(Ray(Add(centre, Scale(u, dist)), Scale(u, sign)), centre, r);
      q == Quadratic(1.0, 2.0 * sign * dist, dist * dist - r * r)
      && q.Discriminant() == (2.0 * r) * (2.0 * r)
  {
    var w, d := Scale(u, dist), Scale(u, sign);
    assert Sub(Add(centre, w), centre) == w;
    ScaledSquaredLength(u, sign);
    ScaledSquaredLength(u, dist);
    assert (u.x * sign) * (u.x * dist) == sign * dist * (u.x * u.x);
    assert (u.y * sign) * (u.y * dist) == sign * dist * (u.y * u.y);
    assert (u.z * sign) * (u.z * dist) == sign * dist * (u.z * u.z);
    assert Dot(d, w) == sign * dist * Dot(u, u);
    assert sign * sign == 1.0;
    var b := 2.0 * sign * dist;
    assert b * b == 4.0 * (sign * sign) * (dist * dist);
  }

  /** The roots of a monic quadratic whose discriminant is `(2r)^2`. */
  lemma MonicRoots(q: Quadratic, r: real, sqrt: real -> real)
    requires IsSqrt(sqrt)
    requires 0.0 < r
    requires q.a == 1.0 && q.Discriminant() == (2.0 * r) * (2.0 * r)
    ensures q.Near(sqrt) == -q.b / 2.0 - r && q.Far(sqrt) == -q.b / 2.0 + r
  {
    var k := 2.0 * r;
    SqrtOfSquare(sqrt, k);
    assert q.Discriminant() == k * k;
    assert sqrt(q.Discriminant()) == k;
    assert q.Near(sqrt) == (-q.b - 2.0 * r) / 2.0;
  }

  /** A ray aimed straight at a sphere's centre from `dist` away, along any
      unit direction, meets it at `dist - r` and `dist + r`; aimed straight
      away, it still reports both crossings as valid, at negative parameters
      behind its source. */
  lemma SphereHeadOn(centre: Vec3, r: real, dist: real, u: Vec3, m: Material, sqrt: real -> real)
    requires IsSqrt(sqrt)
    requires 0.0 < r < dist
    requires Dot(u, u) == 1.0
    ensures Sphere(centre, r, m).Intersects(Ray(Add(centre, Scale(u, dist)), Neg(u)), sqrt)
         == Trace(dist - r, dist + r, true, true)
    ensures Sphere(centre, r, m).Intersects(Ray(Add(centre, Scale(u, dist)), u), sqrt)
         == Trace(-dist - r, -dist + r, true, true)
  {
    var src := Add(centre, Scale(u, dist));
    assert Neg(u) == Scale(u, -1.0) && u == Scale(u, 1.0);
    DirectedQuadratic(centre, r, dist, u, -1.0);
    MonicRoots(SphereQuadratic(Ray(src, Scale(u, -1.0)), centre, r), r, sqrt);
    DirectedQuadratic(centre, r, dist, u, 1.0);
    MonicRoots(SphereQuadratic(Ray(src, Scale(u, 1.0)), centre, r), r, sqrt);
  }

  /** A ray parallel to the plane is a miss. Any other ray is reported to hit
      it exactly when it crosses the plane at a non-negative parameter, and
      then at that parameter, in both slots. */
  lemma PlaneCrossing(pl: Plane, ray: Ray, t: real)
    ensures Dot(ray.direction, pl.normal) == 0.0 ==> pl.Intersects(ray) == NoHit
    ensures var tr := pl.Intersects(ray);
      (tr.nearValid ==> tr.farValid && tr.tNear == tr.tFar && 0.0 <= tr.tNear
                        && Dot(ray.GetPoint(tr.tNear), pl.normal) == pl.d)
      && (Dot(ray.direction, pl.normal) != 0.0 && 0.0 <= t && Dot(ray.GetPoint(t), pl.normal) == pl.d
          ==> tr.nearValid && tr.tNear == t)
  {
    var n, src, dir := pl.normal, ray.source, ray.direction;
    DotSymmetric(dir, n);
    var num, den := pl.d - Dot(n, src), Dot(n, dir);
    var tr := pl.Intersects(ray);
    if tr.nearValid {
      DotAlong(n, src, dir, tr.tNear);
      DotSymmetric(ray.GetPoint(tr.tNear), n);
      assert tr.tNear * den == num;
    }
    if den != 0.0 && 0.0 <= t && Dot(ray.GetPoint(t), pl.normal) == pl.d {
      DotAlong(n, src, dir, t);
      DotSymmetric(ray.GetPoint(t), n);
      assert t * den == num;
      assert (num / den) * den == num;
      ZeroProduct(t - num / den, den);
    }
  }

  /** The constructor's frame: the normal has unit length whenever the given
      one is non-zero, the defining point lies on the plane, and the second
      texture axis is perpendicular to the first and to the given normal. */
  lemma NewPlaneFrame(
    point: Vec3, normal: Vec3, material: Material, texture: Option<Texture>,
    secondPoint: Vec3, texSize: real, sqrt: real -> real)
    requires IsSqrt(sqrt)
    requires Norm(normal, sqrt) != 0.0
    ensures var pl := NewPlane(point, normal, material, texture, secondPoint, texSize, sqrt);
      Dot(pl.normal, pl.normal) == 1.0
      && Dot(pl.point, pl.normal) == pl.d && pl.Contains(point)
      && Dot(pl.texVec2, pl.texVec1) == 0.0 && Dot(pl.texVec2, normal) == 0.0
  {
    NormaliseIsUnit(normal, sqrt);
    var tv1 := Normalise(Sub(secondPoint, point), sqrt);
    CrossPerpendicular(normal, tv1);
  }

  /** Moving one image length lands on the same index from a non-negative
      coordinate, and from one at least one image length below zero. */
  lemma WrapPeriodic(coord: real, n: nat)
    requires 0 < n
    requires 0.0 <= coord || coord + n as real <= 0.0
    ensures Wrap(coord + n as real, n) == Wrap(coord, n)
  {
    if 0.0 <= coord {
      TruncShift(coord, n);
    } else {
      TruncShiftNegative(coord, n);
    }
    ModShift(Trunc(coord), n);
  }

  /** In between the repetition breaks: truncation toward zero makes texel 0
      two texels wide around the texture origin, so from any coordinate that
      is not a whole number and lies strictly between `-n` and 0, moving one
      image length lands on a different index (for an image more than one
      texel long). */
  lemma WrapSeam(coord: real, n: nat)
    requires 1 < n
    requires -(n as real) < coord < 0.0 && coord.Floor as real != coord
    ensures Wrap(coord + n as real, n) != Wrap(coord, n)
  {
    TruncAcrossZero(coord, n);
    ModShiftBreaks(Trunc(coord), n);
  }

  /** A concrete case of the seam: `-0.5` and `0.5` share texel 0, and
      `-0.5 + 2` does not come back to it. */
  lemma WrapSeamAtZero()
    ensures Wrap(-0.5, 2) == Wrap(0.5, 2) == 0
    ensures Wrap(-0.5 + 2.0, 2) == 1 != Wrap(-0.5, 2)
  {
    assert Trunc(-0.5) == 0 && Trunc(0.5) == 0 && Trunc(1.5) == 1;
  }

  /** Without a texture a plane shows its material colour everywhere. With
      one, the point's two texel coordinates, truncated toward zero, are
      reduced modulo the image's length and height, which always gives a
      texel inside the image. */
  lemma PlaneColorLookup(pl: Plane, p: Vec3)
    requires pl.Valid()
    ensures pl.texture.None? ==> pl.GetColorAtPoint(p) == pl.material.color
    ensures pl.texture.Some? ==>
      var tex := pl.texture.value;
      var x := Trunc(pl.TexCoord(p, pl.texVec1)) % |tex|;
      var y := Trunc(pl.TexCoord(p, pl.texVec2)) % |tex[0]|;
      0 <= x < |tex| && 0 <= y < |tex[x]| && pl.GetColorAtPoint(p) == tex[x][y]
  {
    if pl.texture.Some? {
      var tex := pl.texture.value;
      var xy := pl.TexelIndex(p);
      assert |tex[xy.0]| == |tex[0]|;
    }
  }

  /** Moving `k` along a unit first axis that is perpendicular to the second
      adds `k * texSize` to the first texture coordinate and keeps the second. */
  lemma TexCoordAlongAxis(pl: Plane, p: Vec3, k: real)
    requires Dot(pl.texVec1, pl.texVec1) == 1.0 && Dot(pl.texVec1, pl.texVec2) == 0.0
    ensures pl.TexCoord(Add(p, Scale(pl.texVec1, k)), pl.texVec1) == pl.TexCoord(p, pl.texVec1) + k * pl.texSize
    ensures pl.TexCoord(Add(p, Scale(pl.texVec1, k)), pl.texVec2) == pl.TexCoord(p, pl.texVec2)
  {
    var diff := Sub(p, pl.point);
    var diff' := Sub(Add(p, Scale(pl.texVec1, k)), pl.point);
    assert diff' == Add(diff, Scale(pl.texVec1, k));
    AlongUnit(diff, pl.texVec1, k);
    AlongPerpendicular(diff, pl.texVec1, pl.texVec2, k);
    Distribute(Dot(diff, pl.texVec1), k, pl.texSize);
  }

  /** Wherever the first texel coordinate is non-negative, or at least one
      image length below zero, moving one image length along the first
      texture axis lands on the same texel. */
  lemma TextureRepeats(pl: Plane, p: Vec3)
    requires pl.Valid() && pl.texture.Some?
    requires Dot(pl.texVec1, pl.texVec1) == 1.0 && Dot(pl.texVec1, pl.texVec2) == 0.0
    requires 0.0 < pl.texSize
    requires 0.0 <= pl.TexCoord(p, pl.texVec1) || pl.TexCoord(p, pl.texVec1) + |pl.texture.value| as real <= 0.0
    ensures pl.GetColorAtPoint(Add(p, Scale(pl.texVec1, |pl.texture.value| as real / pl.texSize)))
         == pl.GetColorAtPoint(p)
  {
    var len := |pl.texture.value|;
    var k := len as real / pl.texSize;
    TexCoordAlongAxis(pl, p, k);
    assert k * pl.texSize == len as real;
    WrapPeriodic(pl.TexCoord(p, pl.texVec1), len);
  }

  /** With the slice flags decided by the cutoff plane, every root a slice
      reports lies on the underlying sphere and is kept by the cutoff plane,
      and the normal there is a unit vector. */
  lemma SliceTraceOnSurface(s: SphereSlice, ray: Ray, sqrt: real -> real)
    requires IsSqrt(sqrt)
    requires s.radius != 0.0
    ensures var tr := s.Intersects(ray, sqrt);
      (tr.nearValid ==>
         OnSphere(s.sphereCentre, s.radius, ray.GetPoint(tr.tNear))
         && s.cutoff.Contains(ray.GetPoint(tr.tNear))
         && Dot(s.GetNormal(ray.GetPoint(tr.tNear)), s.GetNormal(ray.GetPoint(tr.tNear))) == 1.0)
      && (tr.farValid ==>
         OnSphere(s.sphereCentre, s.radius, ray.GetPoint(tr.tFar))
         && s.cutoff.Contains(ray.GetPoint(tr.tFar))
         && Dot(s.GetNormal(ray.GetPoint(tr.tFar)), s.GetNormal(ray.GetPoint(tr.tFar))) == 1.0)
  {
    var tr := s.Intersects(ray, sqrt);
    if tr.nearValid {
      RootOnSphere(ray, s.sphereCentre, s.radius, sqrt, tr.tNear);
      RadialNormalScales(s.sphereCentre, s.radius, ray.GetPoint(tr.tNear));
    }
    if tr.farValid {
      RootOnSphere(ray, s.sphereCentre, s.radius, sqrt, tr.tFar);
      RadialNormalScales(s.sphereCentre, s.radius, ray.GetPoint(tr.tFar));
    }
  }

  /** Conversely, a root of the underlying sphere that the cutoff plane keeps is
      always reported, in its own slot. */
  lemma SliceKeptRootsReported(s: SphereSlice, ray: Ray, sqrt: real -> real)
    ensures var q := SphereQuadratic(ray, s.sphereCentre, s.radius);
      var tr := s.Intersects(ray, sqrt);
      (q.Discriminant() < 0.0 || q.a == 0.0 ==> tr == NoHit)
      && (0.0 <= q.Discriminant() && q.a != 0.0 ==>
            (tr.nearValid <==> s.cutoff.Contains(ray.GetPoint(q.Near(sqrt))))
            && (tr.farValid <==> s.cutoff.Contains(ray.GetPoint(q.Far(sqrt))))
            && (tr.nearValid ==> tr.tNear == q.Near(sqrt))
            && (tr.farValid ==> tr.tFar == q.Far(sqrt)))
  {
  }

  /** A unit vector scaled by a positive length has that length, and
      normalising it gives the unit vector back. */
  lemma ScaledUnitNormalises(u: Vec3, r: real, sqrt: real -> real)
    requires IsSqrt(sqrt)
    requires Dot(u, u) == 1.0 && 0.0 < r
    ensures Dot(Scale(u, r), Scale(u, r)) == r * r
    ensures Normalise(Scale(u, r), sqrt) == u
  {
    var v := Scale(u, r);
    ScaledSquaredLength(u, r);
    assert Dot(v, v) == r * r;
    SqrtOfSquare(sqrt, r);
    assert Norm(v, sqrt) == r;
    DivideUndoesScale(u, r);
  }

  /** The constructed slice: its edge centre lies on the underlying sphere, and
      a point `k` along the pole from the edge centre is kept exactly when
      `k <= maxEdgeDist` (so `maxEdgeDist == radius` keeps a hemisphere). */
  lemma SliceAxisKept(
    edgeCentre: Vec3, radius: real, poleDir: Vec3, maxEdgeDist: real,
    material: Material, sqrt: real -> real, k: real)
    requires IsSqrt(sqrt)
    requires 0.0 < radius
    requires Norm(poleDir, sqrt) != 0.0
    ensures var s := NewSphereSlice(edgeCentre, radius, poleDir, maxEdgeDist, material, sqrt);
      OnSphere(s.sphereCentre, s.radius, s.edgeCentre)
      && (s.cutoff.Contains(Add(s.edgeCentre, Scale(s.unitPole, k))) <==> k <= maxEdgeDist)
  {
    var s := NewSphereSlice(edgeCentre, radius, poleDir, maxEdgeDist, material, sqrt);
    var u := s.unitPole;
    NormaliseIsUnit(poleDir, sqrt);
    ScaledUnitNormalises(u, radius, sqrt);
    var pole := Scale(u, radius);
    assert Sub(edgeCentre, s.sphereCentre) == Neg(pole);
    assert Dot(Neg(pole), Neg(pole)) == Dot(pole, pole);
    assert s.cutoff.normal == u;
    AlongUnit(edgeCentre, u, maxEdgeDist);
    AlongUnit(edgeCentre, u, k);
  }

}
