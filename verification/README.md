# raycast in Dafny

A model of the core of `raycast`, a small Monte-Carlo path tracer written in
Rust. The model covers:

- the vector algebra (`Vec3`, used as point, direction and colour);
- the ray and its parametric point;
- the sphere intersection test;
- the scene's nearest-hit search;
- the three scattering materials (diffuse, metallic, dielectric);
- the pinhole camera;
- the renderer: the bounce-bounded recursive `color_ray`, jittered samples,
  accumulation and byte quantisation, and the row-major pixel buffer;
- the helpers `clamp` and `parse_pair`.

Floating point becomes exact `real` arithmetic. The square root and the
tangent are function parameters. The only assumption about the square root is
the predicate `IsSqrt`: it is non-negative and squares back on the
non-negative reals. Random numbers are inputs:

- the diffuse and metallic rules take the unit-ball sample they would draw;
- a pixel sample carries its two jitter values;
- a sample also carries one unit-ball draw per bounce level.

Modules follow the source files:

| module | file |
|---|---|
| `Vectors` | `vec3.dfy` |
| `Rays` | `ray.dfy` |
| `Hittable` | `hittable.dfy` |
| `Spheres` | `sphere.dfy` |
| `Worlds` | `world.dfy` |
| `Materials` | `material.dfy` |
| `Cameras` | `camera.dfy` |
| `Utils` | `utils.dfy` |
| `Rendering` | `renderer.dfy` |

`options.dfy` holds the `Option` type.

The model keeps these behaviours of the code:

- The background gradient uses the raw direction's `y`, not the unit
  direction's. A long ray can leave the [white, sky] range.
- `right` is `world_up × front` and is not normalised. So the camera frame is
  orthogonal but not orthonormal.
- The direction `cast_ray` gives is `horizontal + vertical − front − position`.
- The per-pixel accumulator starts at white, not black. A pixel is therefore
  `(white + Σ samples) / N`. `Rendering.AverageOfCopies` shows that `N` equal
  samples `c` give `c + 1/N`, not `c`.
- The parameter interval of the intersection test is closed, `[minimum, maximum]`.
  On a tie the later sphere wins the nearest-hit search.
- The lower bound of the scene search is `0.0001`.

## Model

| member | source | states |
|---|---|---|
| Vectors.Vec3.Div | src/vec3.rs:203-210 | dividing by a non-zero `k` multiplies by `1/k`, and scaling the result by `k` gives the vector back |
| Vectors.Vec3.Cross | src/vec3.rs:94-101 | the cross product is orthogonal to both factors |
| Vectors.Vec3.Magnitude2 | src/vec3.rs:68-71 | the squared length is non-negative and is zero exactly for the zero vector |
| Vectors.Vec3.Magnitude | src/vec3.rs:73-76 | the length is a non-negative square root of the squared length, positive exactly for a non-zero vector |
| Vectors.Vec3.Unit | src/vec3.rs:78-87 | for a non-zero vector the result has unit length, and scaling it by the length gives the vector back |
| Vectors.Vec3.Reflect | src/vec3.rs:103-107 | about a unit normal, reflection negates the component along the normal and keeps the length |
| Vectors.ReflectInvolutive | src/vec3.rs:103-107 | reflecting twice about the same unit normal gives the vector back |
| Vectors.ReflectForm | src/vec3.rs:103-107 | `v − 2(v·n)n` is `v + n(−2 v·n)`; about a unit normal its dot with the normal is `−v·n` and its length is kept |
| Vectors.Vec3.Refract | src/vec3.rs:109-116 | for a unit vector and a unit normal, the refracted direction points against the normal and has length at least one, so it is never zero |
| Vectors.RefractBounds | src/vec3.rs:109-116 | the perpendicular part is orthogonal to the normal, so adding the parallel part gives a dot of `−q ≤ 0` and a squared length `‖p‖² + abs(1 − ‖p‖²) ≥ 1` |
| Vectors.Vec3.NearlyZero | src/vec3.rs:55-58 | nearly zero is nearly equal to the zero vector, and holds for the zero vector |
| Vectors.Vec3.NearlyEq | src/vec3.rs:60-66 | componentwise closeness within ten machine epsilons is reflexive |
| Vectors.NearlyEqSymmetric | src/vec3.rs:60-66 | closeness is symmetric |
| Vectors.RandomInUnitSphere | src/vec3.rs:31-44 | rejection sampling returns the first draw strictly inside the unit ball, after rejecting every earlier draw; it returns none exactly when no draw qualifies |
| Vectors.RandomInHemisphere | src/vec3.rs:46-53 | the result lies in the normal's closed half-space, has the sample's length, and is the sample or its negation, chosen by the sign of `sample·normal` |
| Vectors.AddSubRoundTrip | src/vec3.rs:136-167 | adding then subtracting a vector, or the reverse, gives the original back |
| Vectors.NegInverse | src/vec3.rs:128-134 | negation is the additive inverse and is involutive |
| Vectors.SubIsAddNeg | src/vec3.rs:157-167 | subtraction is addition of the negation |
| Vectors.AddCommutative | src/vec3.rs:136-146 | addition commutes |
| Vectors.DotSymmetric | src/vec3.rs:89-92 | the dot product is symmetric |
| Vectors.DotAdd | src/vec3.rs:89-92 | the dot product distributes over addition |
| Vectors.DotScale | src/vec3.rs:89-92 | scalars factor out of the dot product |
| Vectors.CrossAntiCommutative | src/vec3.rs:94-101 | swapping the factors negates the cross product |
| Vectors.Lagrange | src/vec3.rs:94-101 | the squared length of `a × b` is `‖a‖²·‖b‖² − (a·b)²` (Lagrange's identity), so the cross product is zero only for parallel factors |
| Vectors.UnitCrossAtMostOne | src/vec3.rs:94-101 | the cross product of two unit vectors has squared length at most one |
| Vectors.MulCommutative | src/vec3.rs:186-192 | the componentwise product commutes |
| Vectors.MulAssociative | src/vec3.rs:186-192 | the componentwise product associates |
| Vectors.MagnitudeOfScale | src/vec3.rs:178-184 | scaling by `k` multiplies the squared length by `k²` |
| Vectors.ScaleScale | src/vec3.rs:178-184 | scaling twice is scaling by the product |
| Vectors.MagnitudeOfSum | src/vec3.rs:68-71 | `‖v + kn‖² = ‖v‖² + 2k(v·n) + k²‖n‖²` |
| Vectors.ArithmeticExamples | src/vec3.rs:218-254 | the add, sub, mul and div unit-test cases hold exactly |
| Rays.NewRay | src/ray.rs:10-12 | a new ray keeps the origin and the direction it is given |
| Rays.Ray.At | src/ray.rs:14-17 | the point at `t` differs from the origin by `t` directions |
| Rays.AtZero | src/ray.rs:14-17 | parameter zero is the origin |
| Rays.AtOne | src/ray.rs:14-17 | parameter one is origin plus direction |
| Rays.AtDifference | src/ray.rs:14-17 | the parametrisation is affine: two points differ by the direction times the parameter difference |
| Spheres.NewSphere | src/sphere.rs:15-24 | keeps location, radius and material, and caches a reciprocal whose product with the radius is one |
| Spheres.QuadraticOf | src/sphere.rs:28-31 | the coefficients are the squared length of the direction, the dot of the offset from the centre with the direction, and the squared offset less the squared radius; a ray with a direction has a positive leading coefficient |
| Spheres.SurfaceEquation | src/sphere.rs:28-31 | the coefficients `a`, `b/2`, `c` vanish at `t` exactly when the ray point at `t` lies on the sphere |
| Spheres.SurfacePoint | src/sphere.rs:28-31 | the same equivalence at a single parameter |
| Spheres.Roots | src/sphere.rs:34-44 | with `d² = discriminant`, the candidates `(−b/2 ∓ d)/a` are ordered, and a parameter is a root exactly when it is one of them |
| Spheres.BothRoots | src/sphere.rs:34-44 | the same for all parameters at once |
| Spheres.NoRoots | src/sphere.rs:34-37 | a negative discriminant leaves no root |
| Spheres.ChooseRoot | src/sphere.rs:42-48 | keeps the nearer candidate if it lies in `[minimum, maximum]`, else the farther one if it does; the choice is the least admissible candidate |
| Spheres.SolveQuadratic | src/sphere.rs:34-48 | no answer on a negative discriminant; an answer is a root in the interval and no larger than any root in the interval; some root in the interval implies an answer |
| Spheres.HitAt | src/sphere.rs:50-62 | the point is on the ray at the parameter; the normal is the scaled outward radius, flipped when the ray leaves from inside, so it never agrees with the ray; at a surface point it has unit length |
| Spheres.UnitNormal | src/sphere.rs:51 | on the surface, `(point − location) · (1/radius)` has unit length, and so has its negation |
| Spheres.HitSphere | src/sphere.rs:28-65 | the result is the intersection record of the nearest surface point in `[minimum, maximum]`, and exists whenever the ray meets the surface there |
| Worlds.NewWorld | src/world.rs:9-13 | a new scene has no objects |
| Worlds.AddObject | src/world.rs:15-17 | the new sphere goes last and every other object keeps its place |
| Worlds.ObjectHit | src/world.rs:19-25 | one sphere's answer from `0.0001` with no upper bound: a root at or beyond `0.0001` with a unit normal, no farther than any such root |
| Worlds.Closer | src/world.rs:24-31 | one loop turn's choice: the result is the best so far or the new answer, none only when both are none, no farther than either, and the new answer on a tie |
| Worlds.NearestSpec | src/world.rs:19-35 | the fold gives none exactly when every answer is none; otherwise it gives one of the answers, no farther than any, and strictly nearer than every later one |
| Worlds.NearestHit | src/world.rs:19-35 | a found hit lies at or beyond `0.0001` on the ray, has a unit normal opposing the ray, and carries a valid material |
| Worlds.BoundedHit | src/world.rs:25-31 | narrowing the upper bound to a finite maximum keeps the unbounded answer when it is within the bound, and otherwise gives nothing |
| Worlds.ScanObject | src/world.rs:24-33 | one loop turn: asking the next sphere within the current bound, and narrowing on a hit, extends the fold by that sphere |
| Worlds.TestCameraRay | src/world.rs:19-35 | the loop with its shrinking bound returns exactly the nearest of all the spheres' unbounded answers |
| Worlds.NearestInScene | src/world.rs:19-35 | no sphere meets the ray at or beyond `0.0001` before the answer; no answer means no sphere meets it there; the answer is some sphere's record |
| Materials.DiffuseScatter | src/material.rs:22-28 | never absorbs; keeps the albedo; leaves the hit point along the hemisphere sample, or along the normal when the sample is nearly zero; the direction is never zero for a non-zero normal |
| Materials.MetalicScatter | src/material.rs:30-39 | scatters exactly when the blurred reflection has a positive dot with the normal, and then along it with the albedo |
| Materials.MetalicFuzzSign | src/material.rs:31 | only the absolute value of the fuzziness matters |
| Materials.MetalicMirror | src/material.rs:30-39 | with zero fuzziness about a unit normal, the metal scatters exactly when the ray arrives against the normal, along the mirror direction |
| Materials.RefractionRatio | src/material.rs:42-45 | entering, the ratio is the reciprocal of the index; leaving, it is the index |
| Materials.DielectricScatter | src/material.rs:41-66 | never absorbs and never tints; reflects under total internal reflection and refracts otherwise; about a unit normal the direction is never zero |
| Materials.EnteringNeverReflects | src/material.rs:50-54 | entering a medium with index at least one, against the normal, never totally reflects |
| Materials.Scatter | src/material.rs:13-19 | every scattered ray starts at the hit point; diffuse and dielectric never absorb; the attenuation is the albedo, or white for a dielectric; about a unit normal the direction is never zero |
| Cameras.NewCamera | src/camera.rs:14-33 | `front` is the unit vector along `position − look_at`; `right` is orthogonal to `front` and to the world's up; `up` is orthogonal to `front` and `right`; the field-of-view factor is the tangent of half the angle in radians |
| Cameras.CastRay | src/camera.rs:35-43 | the ray starts at the camera position; its direction plus `front` plus the position is the image-plane offset |
| Cameras.CastRayCenter | src/camera.rs:35-43 | the image centre looks along `−front − position` |
| Cameras.CastRayAffine | src/camera.rs:35-43 | the direction is affine in `(x, y)`: the centre direction plus `x·aspect·fov` right vectors and `y·fov` up vectors |
| Cameras.CastRayNonZero | src/camera.rs:35-43 | when the frame is as built and `position·front ≠ −1`, no primary ray has a zero direction |
| Cameras.NewCameraCastsRays | src/camera.rs:14-43 | a camera built by `Camera::new` with `position·front ≠ −1` casts only rays with a direction (a sufficient condition, not a necessary one) |
| Cameras.FlatCameraCastsOneDirection | src/camera.rs:35-43 | a camera whose `right` and `up` are zero casts every image point in the direction of the image centre |
| Cameras.AxialCameraIsFlat | src/camera.rs:21-23 | when the world up is parallel to the view axis (`world_up × front = 0`), `Camera::new` builds zero `right` and `up` vectors |
| Cameras.AxialCameraExample | src/camera.rs:14-43 | a camera at a unit vector `u`, looking towards `2u` with world up `u`, casts the zero direction at every image point |
| Utils.Clamp | src/utils.rs:27-29 | for `lo ≤ hi` the result lies in `[lo, hi]`; values inside are kept, and values outside go to the nearer end |
| Utils.ClampIdempotent | src/utils.rs:27-29 | clamping twice is clamping once |
| Utils.Find | src/utils.rs:10 | the first occurrence of the separator, or none exactly when it does not occur |
| Utils.ParsePair | src/utils.rs:9-17 | for a one-byte separator: none without a separator; otherwise a pair exactly when both halves around the first separator parse, and then the pair of their values |
| Utils.ParseUsize | src/utils.rs:12 | a size parses exactly when the text after an optional `+` is a non-empty run of digits whose value fits in 64 bits, and then the size is that value |
| Utils.ParseUsizeShape | src/utils.rs:12 | a text that parses to `n` is an optional `+`, some zeros, and the decimal text of `n` |
| Utils.ParseUsizeOfShape | src/utils.rs:12 | conversely, an optional `+`, any number of zeros and the decimal text of `n ≤ 2^64 − 1` parse to `n` |
| Utils.ParseUsizeRoundTrip | src/utils.rs:12 | the decimal text of every `usize` parses back to it |
| Utils.ParsePairRoundTrip | src/utils.rs:9-17 | two sizes printed around a non-digit separator parse back to the pair |
| Utils.SecondSeparatorFails | src/utils.rs:10-12 | a second separator stays in the right half and spoils it |
| Utils.ParsePairFailures | src/utils.rs:49-52 | empty input, a missing separator and empty halves give none |
| Utils.ParsePairExample | src/utils.rs:53 | `"400x800"` split at `x` gives `(400, 800)` |
| Rendering.Background | src/renderer.rs:97-100 | with `t = (y + 1)/2`, the sky is `1 − t/2`, `1 − 3t/10`, `1`; for `y` in `[−1, 1]` the red and green channels stay in range |
| Rendering.BackgroundEnds | src/renderer.rs:97-100 | looking straight down gives white, and straight up gives the sky colour |
| Rendering.Step | src/renderer.rs:87-95 | the ray escapes exactly when nothing is hit, and then shows the background; a bounced ray starts at the nearest hit and has a direction |
| Rendering.ColorRayTerminal | src/renderer.rs:82-101 | with no bounces left the colour is black for every ray and scene; with bounces left, a ray that hits nothing shows the background, and a ray whose nearest surface absorbs it is black |
| Rendering.ColorRayBounced | src/renderer.rs:89-93 | a scattered ray's colour is the colour of the scattered ray, one bounce down, tinted by the attenuation |
| Rendering.ColorRayTinted | src/renderer.rs:82-101 | carrying the product of the attenuations down the path and tinting the terminal colour gives `color_ray` times the starting tint |
| Rendering.ColorRayFromWhite | src/renderer.rs:82-101 | the accumulator form started from white computes exactly `color_ray` |
| Rendering.ColorRayUsesBounceDraws | src/renderer.rs:82-101 | the colour depends only on the first `bounce` draws |
| Rendering.EmptySceneIsSky | src/renderer.rs:87-100 | with bounces left, an empty scene shows the background along every ray |
| Rendering.Quantize | src/renderer.rs:75-77 | clamped to [0, 1], scaled by 255 and truncated: 0 at or below 0, 255 at or above 1, and otherwise the largest byte not above `255c` |
| Rendering.QuantizeMonotone | src/renderer.rs:75-77 | a brighter channel never quantises lower |
| Rendering.NewRenderer | src/renderer.rs:35-44 | keeps the sizes and the sample count; the sampling factor times the sample count is one |
| Rendering.SampleCoords | src/renderer.rs:65-66 | for jitter in [0, 1), `u` lies in [−0.5, 0.5) and `v` in (−0.5, 0.5] |
| Rendering.AccumulateIsWhitePlusSum | src/renderer.rs:62-69 | the accumulator is white plus the sum of the samples |
| Rendering.SumOfCopies | src/renderer.rs:62-69 | `n` equal samples sum to `n` times the sample |
| Rendering.AccumulateCopies | src/renderer.rs:62-69 | the accumulator over `n` equal samples `c` holds `1 + n·c` in every channel |
| Rendering.AverageOfCopies | src/renderer.rs:62-72 | averaging `n` equal samples `c` gives `c + 1/n` in every channel |
| Rendering.DrawPixel | src/renderer.rs:60-79 | a pixel is `(white + Σ samples) × factor`, each channel quantised |
| Rendering.FlattenIndex | src/renderer.rs:46-56 | in equal-width rows laid end to end, row `y` column `x` is at `y·width + x`, inside the buffer |
| Rendering.DrawScene | src/renderer.rs:46-56 | for a positive width, the buffer has `width × height` pixels, and entry `y·width + x` is the pixel at `(x, y)` |
| Rendering.ScanlineInScene | src/renderer.rs:46-53 | scanline `y` is exactly the slice `[y·width, (y + 1)·width)` of the buffer |

## Left out

- src/main.rs: argument handling, scene set-up, timing and printing are outside the model.
- `write_image`, `pixels_to_bytes` and the `Pixel` byte layout are file I/O and unsafe memory reinterpretation.
- The parallel scanline scheduling of `draw_scene` is left out. Scanlines are independent and are drawn one after another here; the row-major layout is what the model states.
- `thread_rng` streams become inputs. `Vec3::random_color` is only a draw of three numbers and is not modelled.
- Vectors.RandomInUnitSphere: the source loops until a draw lands inside the ball. The model runs over a finite list of draws and reports none when the list runs out.
- Floating point is left out: rounding, NaN, infinities and overflow. `f64::INFINITY` as the search's upper bound is the `Infinity` bound.
- Vectors.IsSqrt leaves `sqrt` of a negative argument unconstrained. The source gets NaN there, in the dielectric's sine when `cos_theta < −1`.
- Vectors.Vec3.Unit requires a non-zero vector. The source's guard `magnitude >= 0.0` is always true, so a zero vector divides by zero and gives NaN. Every ray operation therefore requires a non-zero direction.
- Rendering.SampleColor, Rendering.DrawPixel, Rendering.DrawScanline and Rendering.DrawScene require every drawn sample's primary ray to have a direction (`Rendering.Traceable`). The direction of `cast_ray` is zero where `horizontal + vertical` equals `front + position`. That is one image point at most when `right ≠ 0`, `aspect_ratio ≠ 0` and `fov_factor ≠ 0`. A camera whose world up lies along the view axis, or whose `fov_factor` is zero, casts one direction for the whole image, and `Cameras.AxialCameraExample` gives one where that direction is zero. The source traces that ray with NaN arithmetic, which the model does not represent. `Cameras.CastRayNonZero` gives a sufficient condition on the camera: `position·front ≠ −1`.
- Rendering.DrawScene requires a positive width. With width 0, `chunks_mut(0)` in src/renderer.rs:49 panics, and the model does not represent the panic.
- Utils.ParsePair requires a one-byte (ASCII) separator. `find` returns a byte offset, and cutting one byte after a longer separator is not a character boundary, so the source panics whenever such a separator occurs.
- Rendering.NewRenderer requires at least one sample per pixel. The source divides by zero when the count is 0.
- Spheres.Sphere requires a non-zero radius and a valid material. The source divides by the radius, and the dielectric takes the reciprocal of its index on entry.
- Rendering.ColorRay takes one unit-ball draw per bounce level. The dielectric consumes none in the source. Indexing draws by level still covers every stream the source can see.
- Rendering.ColorRayTinted and Rendering.ColorRayFromWhite are a reference formulation that accumulates attenuations along the path. They are not code the source contains.
- The concrete cases of the `hit_sphere` test in src/sphere.rs are not restated as lemmas. `Spheres.HitSphere` states the general behaviour they sample.
- Utils.ParsePair is generic over the half-parser. Only the `usize` instance that main.rs uses is modelled. The `f32`, `f64` and `i32` cases of `test_parse_pair` are not.
- The `random_in_unit_sphere` test asserts `magnitude < 1`. Vectors.RandomInUnitSphere states it for the squared length.
