# Ray tracer core in Dafny

A model of the ray–scene engine of a small recursive ray tracer, over exact
`real` arithmetic. It covers:

- the primitives of `classes.py`: `Ray.get_point`; the `intersects`,
  `get_normal` and `get_color_at_point` of `Sphere`, `Plane` and `SphereSlice`;
  the `Plane.contains` half-space test; and the textured plane's modulo lookup;
- the tracing logic of `raytracing.py`: the shadow test and the clamped
  Phong-style shading of `add_color`; the nearest-hit scan shared by `cast_ray`
  and `add_reflection`; the depth-bounded recursive reflection that adds into a
  colour array in place; and the compositing of one pixel of the picture by
  `cast_ray`.

Files, leaves first:

- `numeric.dfy` (`Numeric`): Python's `int()` as truncation toward zero, integer
  powers, `min`/`max`/`abs`, and the `IsSqrt` hypothesis on the square root.
- `vectors.dfy` (`Vectors`): 3-vectors, dot and cross products, and `normalise`.
- `primitives.dfy` (`Primitives`): the shapes. A `Primitive` is a tagged union
  `SphereObject | PlaneObject | SliceObject`, and the slice owns its cutoff
  `Plane`.
- `scan.dfy` (`Scanning`): the scene value and the nearest-hit scan
  (`NearestHit`, proved against `Scan`).
- `shading.dfy` (`Shading`): `add_color` (`AddColor`, proved against `Shade`).
- `reflection.dfy` (`Reflections`): `add_reflection`. `AddReflection` mutates an
  `array<int>` of three channels in place and is proved against `Reflection`.
  `Reflection` in turn is shown equal to depositing a chain of `Bounces`.
- `render.dfy` (`Render`): `cast_ray` for one pixel of an `array3<int>`
  picture, proved against `PixelColor`.

The module-level globals (`objects`, `light_sources`, `light_strengths`,
`reflection_limit`) are passed explicitly as a `Scene` value. `np.sqrt` and
`np.linalg.norm` use a square-root function passed as a parameter `sqrt`.
Lemmas that need its meaning require `IsSqrt(sqrt)`: on non-negative
arguments, `sqrt` returns the non-negative root.

Behaviours of the code worth knowing, all of which the model keeps:

- A sphere flags both roots valid even when both are negative. "Valid" does not
  mean "ahead of the ray". The callers filter on `t > 0`, and the scan's
  candidate rule ignores the flags.
- The reflected scan's hit test checks the near parameter in both disjuncts
  (raytracing.py:129). So a trace that flags only an exit point ahead is
  offered to the minimum, but it is not a hit (`ReflectedTestIgnoresExitOnly`).
- `cast_ray` adds the reflected colour once per light source inside the light
  loop, not once per pixel (`ReflectionAddedPerLight`).
- The shading clamps only from above, with `min(255, …)`.
- Texture tiling holds where the texel coordinate is non-negative, and where
  it is at least one image length below zero. Truncation toward zero makes
  texel 0 two texels wide across the texture origin. So, for an image more
  than one texel long, for every coordinate strictly between minus one image
  length and 0 that is not a whole number, moving one image length lands on
  a different texel (`WrapPeriodic`,
  `WrapSeam`, `WrapSeamAtZero`).
- Nothing falls back to the material colour when a textured point "cannot be
  resolved": every point gets a texel.
- The specular term takes the power before `max(0, …)`. So an even shininess
  also lights the side opposite the mirror direction (`SpecularBackLobe`).

## Model

| member | source | states |
|---|---|---|
| `Primitives.Ray.GetPoint` | classes.py:21-22 | the point at `t` minus the source is `t` times the direction, and `t = 0` gives the source |
| `Primitives.SphereTraceShape` | classes.py:35-52 | a sphere trace is the no-hit `[0,0,False,False]` exactly when the discriminant is negative (or the direction is zero). Otherwise the far root is always flagged, and the near root is dropped exactly when it is negative and the far one positive. The flagged roots come out in order. The second, identical inside test never fires |
| `Primitives.RootsOrdered` | classes.py:46-47 | with a positive leading coefficient and a non-negative discriminant, `t_0 <= t_1` |
| `Primitives.RootOnSphere` | classes.py:36-47 | either computed root gives a point at squared distance `radius^2` from the centre |
| `Primitives.Sphere.GetNormal` | classes.py:29-33 | `(p - centre) / radius`; no postcondition of its own, its facts are `RadialNormalScales` and `SphereTraceOnSurface` |
| `Primitives.RadialNormalScales` | classes.py:29-33 | `get_normal`'s `(p - centre) / radius` scaled back by the radius is the offset `p - centre`, and at a point on the sphere it has squared length 1 |
| `Primitives.Sphere.Intersects` | classes.py:35-52 | unflagged slots carry 0, the near root is flagged only with the far one, and a trace without a far root is `[0,0,False,False]` (the full case analysis is `SphereTraceShape`) |
| `Primitives.SphereTraceOnSurface` | classes.py:29-52 | every root a sphere flags valid lies on the sphere, and `get_normal` there is a unit vector |
| `Primitives.DirectedQuadratic` | classes.py:36-42 | a ray from `dist` along a unit vector `u` from the centre, with direction `u` or `-u`, has `a = 1`, `b = +-2 dist`, `c = dist^2 - r^2` and discriminant `(2r)^2` |
| `Primitives.SphereHeadOn` | classes.py:35-52 | a ray aimed at the centre from distance `dist`, along any unit direction, gets `[dist-r, dist+r, True, True]`. Aimed away, it gets `[-dist-r, -dist+r, True, True]`: both roots negative, still flagged valid |
| `Primitives.Plane.GetNormal` | classes.py:83-84 | the plane's stored unit normal, whatever the point; no postcondition of its own, its length is `NewPlaneFrame` |
| `Primitives.Plane.Intersects` | classes.py:99-105 | both slots carry the same parameter and the same flag, unflagged slots carry 0, a flagged parameter is non-negative, and a ray parallel to the plane misses |
| `Primitives.Plane.Contains` | classes.py:107-110 | for a plane through its defining point, `contains(p)` holds exactly when the offset `p - point` has a non-positive component along the normal |
| `Primitives.PlaneCrossing` | classes.py:99-105 | a ray parallel to the plane misses. A flagged plane hit has `t >= 0` in both slots, with `normal . P(t) == d`. Any non-negative crossing of a non-parallel ray is reported |
| `Primitives.NewPlane` | classes.py:58-76 | the constructed plane's `d` puts its defining point on the plane (so `contains` it), and `tex_vec_2` is perpendicular to `tex_vec_1` and to the given normal |
| `Primitives.NewPlaneFrame` | classes.py:58-76 | given a non-zero normal, the constructed plane's normal has length 1, on top of the frame facts `NewPlane` states |
| `Primitives.Plane.TexelIndex` | classes.py:89-95 | the wrapped texel index always lies inside the image |
| `Primitives.Wrap` | classes.py:95 | `int(coord) % n` lies in `[0, n)` |
| `Primitives.Plane.GetColorAtPoint` | classes.py:86-97 | without a texture, the material colour; with one, always one of the image's texels |
| `Primitives.PlaneColorLookup` | classes.py:86-97 | without a texture, the colour is `material.color`. With one, it is the texel at `int(x) mod length`, `int(y) mod height`, which is always inside the image |
| `Primitives.TexCoordAlongAxis` | classes.py:89-92 | moving along the first texture axis shifts only the first texel coordinate, by distance times `tex_size` |
| `Primitives.WrapPeriodic` | classes.py:91-95 | from a non-negative coordinate, or one at least one image length below zero, moving one image length gives the same index |
| `Primitives.WrapSeam` | classes.py:91-95 | from a coordinate strictly between minus one image length and 0 that is not a whole number, moving one image length gives a different index (image longer than one texel) |
| `Primitives.WrapSeamAtZero` | classes.py:91-95 | truncation toward zero breaks the tiling at the texture origin: `-0.5` and `0.5` share texel 0, and `-0.5 + 2` does not come back to it |
| `Primitives.TextureRepeats` | classes.py:86-97 | where the first texel coordinate is non-negative or at least one image length below zero, `color_at(p + tex_vec_1 * length / tex_size) == color_at(p)` |
| `Primitives.SphereSlice.Intersects` | classes.py:124-148 | unflagged slots carry 0, and every flagged root's point is kept by the cutoff plane (the converse is `SliceKeptRootsReported`) |
| `Primitives.SphereSlice.GetNormal` | classes.py:149-153 | `(p - sphere_centre) / radius`, about the full sphere's centre; no postcondition of its own, its facts are `RadialNormalScales` and `SliceTraceOnSurface` |
| `Primitives.SliceKeptRootsReported` | classes.py:124-148 | a negative discriminant gives no valid root. Otherwise each root's flag equals the cutoff plane's `contains` at that root's point, and a flagged slot carries that root |
| `Primitives.SliceTraceOnSurface` | classes.py:124-153 | every root a slice flags lies on the underlying sphere and inside the cutoff half-space, and the normal there is a unit vector |
| `Primitives.NewSphereSlice` | classes.py:113-122 | the full sphere's centre minus the edge centre is the pole vector, the cutoff plane is well-formed, and the cut point `max_edge_dist` along the unit pole is kept by it |
| `Primitives.SliceAxisKept` | classes.py:113-122 | the constructed slice's edge centre lies on the underlying sphere, and the point `k` along the pole is kept exactly when `k <= max_edge_dist` |
| `Primitives.Primitive.Intersects` | classes.py:132-148 | every shape's trace carries `t = 0` in each slot it flags invalid |
| `Vectors.Normalise` | classes.py:157-158 | `v / norm(v)`, with a norm-0 vector left as it is; no postcondition of its own, its facts are `NormaliseScalesBack` and `NormaliseIsUnit` |
| `Vectors.NormaliseScalesBack` | classes.py:157-158 | scaling `normalise(v)` back by the norm gives `v`; a vector of norm 0 is returned unchanged |
| `Vectors.DivideUndoesScale` | classes.py:157-158 | dividing by a non-zero factor undoes scaling by it, so normalising a scaled unit vector gives it back (`ScaledUnitNormalises`) |
| `Vectors.NormaliseIsUnit` | classes.py:157-158 | `normalise` of a vector of non-zero norm has length 1 |
| `Numeric.Trunc` | classes.py:91-92 | Python's `int()` truncates toward zero: within 1 below a non-negative argument and within 1 above a negative one |
| `Numeric.PowNonIncreasing` | raytracing.py:152 | for reflectivity in `[0,1]`, the bounce weight `reflectivity^(1+count)` does not grow with `count` and stays in `[0,1]` |
| `Scanning.IntersectAll` | raytracing.py:176 | the list of traces has one entry per object, each that object's `intersects` |
| `Scanning.IndexOf` | raytracing.py:182 | `list.index` gives the first position holding an equal trace |
| `Scanning.HitBy` | raytracing.py:178-179 | a trace passes either hit test (the primary one here, the reflected one at raytracing.py:129) only when it offers a candidate |
| `Scanning.Candidate` | raytracing.py:180-187 | a trace offers a candidate exactly when one of its two parameters is positive, and the candidate is one of its parameters and positive |
| `Scanning.Scan` | raytracing.py:176-187 | the scan's state after `n` traces: `hit` needs at least one trace, and the index is inside the list (its meaning is `ScanNearest`) |
| `Scanning.ScanNearest` | raytracing.py:176-187 | `hit` is whether some trace passes the hit test. The chosen `t` is at most 10000 and at most every candidate. Below 10000, the chosen index is the first trace offering that `t`; otherwise the index is 0 |
| `Scanning.NearestHit` | raytracing.py:177-187 | the scan loop computes exactly `Scan` over all traces |
| `Scanning.PrimaryHitIffCandidate` | raytracing.py:178-187 | for a trace with zero-filled unused slots, the primary hit test holds exactly when the trace offers a candidate, and that candidate is positive |
| `Scanning.ReflectedTestIgnoresExitOnly` | raytracing.py:129 | a trace flagging only a far crossing ahead is a primary hit and offers a candidate, but fails the reflected hit test |
| `Scanning.PrimaryScanOverScene` | raytracing.py:176-190 | over real shapes, the primary scan hits exactly when some object offers a candidate. A chosen `t` below 10000 is positive and is offered by the chosen object |
| `Shading.OutsideIffFarther` | raytracing.py:80-83 | a norm exceeds a positive radius exactly when the squared length exceeds the radius squared |
| `Shading.OppositeSides` | raytracing.py:78-85 | the slice side test, comparing each probe's distance from the full sphere's centre with the radius; no postcondition of its own, its meaning is `OppositeSidesBySquares` |
| `Shading.OppositeSidesBySquares` | raytracing.py:78-85 | the slice side test is true exactly when one probe point is outside the full sphere (squared distance above radius squared) and the other is not |
| `Shading.Lit` | raytracing.py:78-93 | a lit point has no object whose shadow trace flags a root strictly between 0.0001 and 1 (both directions are `LitIff`) |
| `Shading.Shade` | raytracing.py:64-109 | `add_color`'s result is at most 255 in every channel (its cases are `ShadeLitOrBlack`) |
| `Shading.NoneBlocksIff` | raytracing.py:87-93 | the shadow loop leaves the light unblocked exactly when no trace flags a root strictly between 0.0001 and 1 |
| `Shading.LitIff` | raytracing.py:78-93 | `lit` ends False exactly when some object's shadow trace flags a root strictly between 0.0001 and 1, or when, for a slice, the looking-from-outside and lit-from-outside tests disagree |
| `Shading.AddColor` | raytracing.py:64-109 | the shadow-test loop returns the shading `Shade` defines |
| `Shading.Channel` | raytracing.py:105-107 | `int(min(255, c*w))` is at most 255, is at least 0 for non-negative inputs, and is exactly 255 once `c*w` reaches 255 |
| `Shading.ShadeLitOrBlack` | raytracing.py:96-109 | an unlit point gets black. A lit point gets `int(min(255, colour[k] * (diffuse + specular)))` in each channel |
| `Shading.ShadowedIsBlack` | raytracing.py:87-98 | one blocking trace is enough to make the light add black |
| `Shading.SliceBackSideIsBlack` | raytracing.py:78-85 | on a slice, a light on the other side from the viewer adds black whatever else is in the scene |
| `Shading.BrightnessNonNegative` | raytracing.py:102-103 | with non-negative strength, diffusivity and specularity, both brightness terms are non-negative |
| `Shading.ShadeInRange` | raytracing.py:102-108 | every channel of `add_color` is at most 255, and at least 0 when strength, material and surface colour are non-negative |
| `Shading.ShadesAt` | raytracing.py:195-196 | entry `k` of the per-light shadings is `add_color` for light `k` with its strength |
| `Shading.ReflectKeepsAngleAndLength` | raytracing.py:123-124 | for a unit normal, `r = d - 2(d.n)n` satisfies `r.n = -(d.n)` and `|r|^2 = |d|^2` |
| `Shading.MirrorIsReversedReflection` | raytracing.py:100 | the shading's reflection vector `2(u.n)n - u` is the reflected direction of `u`, reversed |
| `Shading.BrightnessIgnoresNormalSign` | raytracing.py:99-103 | flipping the normal does not change diffuse plus specular brightness |
| `Shading.SpecularBackLobe` | raytracing.py:103 | with a negative mirror cosine, an even shininess still gives a positive specular term, while an odd one gives 0 |
| `Reflections.Weighted` | raytracing.py:152 | `int(w*c)` is non-negative for non-negative inputs, and at most `c` when `w <= 1` |
| `Reflections.ReflectedRay` | raytracing.py:123-125 | stepping back the 0.001 offset along the reflected ray reaches the hit point |
| `Reflections.ReflectedRayMirrors` | raytracing.py:123-124 | for a unit normal, the reflected direction keeps the incoming direction's length and its angle with the normal is mirrored |
| `Reflections.NextBounce` | raytracing.py:124-145 | a bounce the reflected scan finds hits an object of the scene and records that point's `add_color` for every light |
| `Reflections.Bounces` | raytracing.py:115-155 | the chain of bounces has at most `reflection_limit - count` entries, every bounce but the last is off a reflective surface, and every bounce is one the scene shows (an object of the scene, with that point's `add_color` for every light) |
| `Reflections.ChainOfCons` | raytracing.py:127-150 | a bounce the scene shows, put in front of a chain the scene shows, gives a chain the scene shows |
| `Reflections.ReflectsOnwardCons` | raytracing.py:146-148 | a bounce off a reflective surface, put in front of a chain whose bounces but the last reflect, keeps that property |
| `Reflections.ReflectionStops` | raytracing.py:115-145 | the recursion stops with no bounce exactly at the limit or on a miss, and then returns `color_total` unchanged |
| `Reflections.Reflection` | raytracing.py:112-157 | at the bounce limit, or when the reflected ray hits nothing, the total comes back unchanged (its meaning is `ReflectionIsDeposit`) |
| `Reflections.ReflectionIsDeposit` | raytracing.py:112-157 | the recursion adds, for each bounce in turn, each light's colour at weight `(reflectivity of the surface left)^(1+count)` |
| `Reflections.AddWeightedInto` | raytracing.py:151-152 | the channel loop adds `int(w*c[b])` to each `color_total[b]` in place |
| `Reflections.GatherLight` | raytracing.py:149-152 | one pass of the light loop adds light `a`'s weighted `add_color` into `color_total` |
| `Reflections.GatherInto` | raytracing.py:149-152 | the light loop adds every light's weighted `add_color` into `color_total` |
| `Reflections.AddReflection` | raytracing.py:112-157 | the recursive method leaves in `color_total`, and returns, the total `Reflection` defines |
| `Reflections.GatherBounds` | raytracing.py:149-152 | with non-negative shadings, the light loop only adds. With weight at most 1 and shadings at most 255, it adds at most `255` per light |
| `Reflections.DepositNeverDecreases` | raytracing.py:149-155 | depositing bounces that see no negative light never lowers a channel |
| `Reflections.DepositBounded` | raytracing.py:149-155 | with reflectivities in `[0,1]`, each bounce adds at most 255 per light and channel |
| `Reflections.DepositWithinBudget` | raytracing.py:149-155 | the same bound, widened to any number of bounces at least the chain's length |
| `Reflections.BounceAttenuating` | raytracing.py:127-150 | in a scene without negative light whose reflectivities lie in `[0,1]`, a bounce reflects at most what reaches it and sees between 0 and 255 per channel from each light |
| `Reflections.BouncesAttenuating` | raytracing.py:115-155 | so does every bounce of the chain `add_reflection` follows |
| `Reflections.BouncesWithinBudget` | raytracing.py:115-155 | depositing that chain adds at most 255 per light, channel and bounce left before the limit |
| `Reflections.ReflectionNeverDecreases` | raytracing.py:149-155 | in a scene without negative light, `add_reflection` never lowers a channel of the total |
| `Reflections.ReflectionBounded` | raytracing.py:115-155 | with reflectivities in `[0,1]`, `add_reflection` adds at most 255 per light, channel and bounce left before the limit |
| `Render.NewPixels` | raytracing.py:162 | the picture starts with every channel of every pixel at 127 |
| `Render.PrimaryRay` | raytracing.py:169-171 | the ray starts at the screen point, and going back one unit along it reaches the viewpoint |
| `Render.PixelColor` | raytracing.py:164-204 | starting from a pixel at most 255, the composed pixel stays at most 255 in every channel |
| `Render.ReflectedColor` | raytracing.py:193-194 | the reflected colour is computed only for a reflective surface, as `add_reflection` from black at bounce 0 |
| `Render.AddToPixel` | raytracing.py:198-200 | each channel of pixel `(i,j)` becomes `min(255, old + added)`, and no other pixel changes |
| `Render.AddLight` | raytracing.py:198-204 | one light's turn adds its shading and then, for a reflective surface, the reflected colour, each capped at 255 |
| `Render.CompositeLight` | raytracing.py:195-204 | one pass of the light loop runs `add_color` for light `k` and adds it and any reflected colour to the pixel |
| `Render.CompositeInto` | raytracing.py:195-204 | the light loop composes every light's turn in order on pixel `(i,j)` and touches no other pixel |
| `Render.CastRay` | raytracing.py:164-204 | the pixel becomes `PixelColor`: unchanged on a miss, otherwise recomposed from black. The reflection is computed once, from depth 0, only for a reflective surface. No other pixel changes |
| `Render.CompositeInRange` | raytracing.py:198-204 | after every addition, each channel is at most 255, and non-negative additions keep it non-negative |
| `Render.HitColorInRange` | raytracing.py:191-204 | in a scene without negative light, a hit pixel lies in `[0,255]` in every channel |
| `Render.PixelInRange` | raytracing.py:162-204 | starting from a pixel in `[0,255]`, `cast_ray` leaves it in `[0,255]` |
| `Render.PixelKeptOnlyOnMiss` | raytracing.py:189-192 | with no candidate from any object, the pixel keeps its colour (the initial grey). On a hit, its old colour does not matter, because it is reset to 0 |
| `Render.ReflectionAddedPerLight` | raytracing.py:195-204 | the reflected colour is added once per light: with `k` lights that each shade black, each channel is `min(255, k * reflected)` |

## Left out

- Floating point: all arithmetic is exact `real`, with no rounding, NaN or infinity. `np.sqrt` and `np.linalg.norm` are a square-root parameter, constrained by `IsSqrt` wherever a lemma needs it.
- Primitives.Sphere.Intersects: a zero-length ray direction (`a == 0`, hence `b == 0`) is treated as a miss. The source computes 0/0 there and returns `[nan, nan, True, True]`. No caller's result changes: a NaN offers no candidate to the scans (raytracing.py:180-187), passes neither hit test (raytracing.py:129, 178) and blocks no light (raytracing.py:89, 92). For `SphereSlice` the source already returns `[0,0,False,False]`, because `contains` of a NaN point is False (classes.py:108, 138-148), which is the model's miss.
- Vectors.Normalise: a vector of norm zero is returned unchanged, where the source produces NaN components.
- Primitives.Primitive.WellFormed: shapes are assumed to have a non-zero radius, because `get_normal` divides by it. Textures are assumed rectangular and non-empty, as decoded image arrays are.
- Render.CastRay: the object list must be non-empty. The source indexes `objects[min_index]` unconditionally and fails on an empty list.
- Texture loading with PIL and its file-not-found fallback (classes.py:78-82): foreign library I/O. A texture is given as decoded data (`Option<Texture>`).
- The image transpose, rotation and saving (raytracing.py:217-221): foreign library I/O.
- The module-level scene construction and the screen sampling loop with `linspace` (raytracing.py:10-56, 159-160, 210-212). These are caller-supplied inputs: the scene is a `Scene` value, and `cast_ray` is modelled for one pixel with its screen point and viewpoint given.
- Timing, progress printing and the unused `threading` import (raytracing.py:5-6, 13, 205-208, 222-224): no effect on the picture.
- `uint8` storage of pixels and colours: pixels are unbounded `int`, kept in range only by the `min(255, …)` caps the code applies. No modular wrap-around is modelled.
- The `Plane` constructor's default-`second_point` branch (classes.py:67-73): it only assigns a local variable and does not affect the fields.
- `Material` is plain data (`Primitives.Material`); its constructor's defaults are not modelled.
