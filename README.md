# Ray Tracing in One Weekend — a Dafny model of the tracer's core

This project models the core of a small C# path tracer, the one from "Ray Tracing in One Weekend".
The model covers these parts:

- rays and their hit records;
- spheres and the ray/sphere intersection;
- the three materials (Lambertian, Metal, Dielectric) and how they scatter a ray;
- the scene, which is a list of (sphere, material) pairs searched for the nearest hit;
- the thin-lens camera;
- the random-sampling helpers, including the rejection samplers for the unit sphere and the unit disk;
- the conversion of accumulated radiance into an 8-bit colour;
- the scene runner, which fills a framebuffer keyed by screen point with the sum of
  `samplesPerPixel` recursive `RayColor` samples per pixel; the division by the sample count
  happens later, in `GetColor`, which the runner does not call.

Single-precision floats become mathematical reals. `MathF.Sqrt` is a parameter `sqrt`, and every
lemma that depends on it requires `IsSqrt(sqrt)` (for `x >= 0`: `sqrt(x) >= 0` and
`sqrt(x) * sqrt(x) == x`). Division is `Numerics.Div`, which gives 0 for a zero divisor. Where a
divisor is zero, the model's claims (such as `UnitVector` of the zero vector being zero, or
`ChannelByteOfZero` with no samples) are about that convention, not about the infinity or NaN
IEEE arithmetic would give.
`float.PositiveInfinity` as the upper end of the search range is `Limit.PositiveInfinity`.

The shared `System.Random` is modelled as follows:

- inside `RandomUtil.Random` it is an infinite stream of draws in `[0, 1)` with a cursor;
- the materials, the camera and the runner take the samples they consume as parameters (`lens`,
  `bounces`, `ScatterSample`).

The module layout follows the source files:

| module | file |
|---|---|
| `Numerics` | vector algebra and real-arithmetic facts |
| `Rays` | `Ray.cs`, `RayHit.cs` |
| `VectorExtensions` | `Vector3Extensions.cs` |
| `Cameras` | `Camera.cs` |
| `Spheres` | `Sphere.cs` |
| `Materials` | `Material.cs` |
| `RandomUtil` | `RandomUtil.cs` |
| `Scenes` | `Scene.cs` |
| `SceneRunners` | `SceneRunner.cs` |

`Scene`, `Random` and `SceneRunner` are classes because the source mutates their state. Everything
else is values and functions, as in the source.

Three details of the code that the model keeps as written:

- `SceneRunner` stores `samplesPerPixel` unchanged (`src/Scenes/SceneRunner.cs:33`), so zero or
  a negative count gives an all-black pixel; no clamp to at least 1 happens in the renderer.
- `Sphere.Hit` tests `discriminant > 0` (`src/Sphere.cs:20`), so a tangent ray (discriminant
  exactly 0) counts as a miss.
- The `Metal` constructor caps the fuzz at 1 from above only (`src/Material.cs:23`); a negative
  fuzz is kept.

## Model

| member | source | states |
|---|---|---|
| Rays.PointAt | src/Ray.cs:9 | the point at parameter t lies t direction-vectors away from the origin |
| Rays.PointAtZero | src/Ray.cs:9 | the ray starts at its origin |
| Rays.PointAtOne | src/Ray.cs:9 | at parameter 1 the point is origin plus direction |
| Rays.PointAtDifference | src/Ray.cs:9 | two points on a ray differ by (t2 - t1) times the direction, so the ray is a straight line |
| VectorExtensions.UnitVector | src/Vector3Extensions.cs:9 | rescaling the result by the input's length gives the input back; zero stays zero |
| VectorExtensions.UnitVectorIsUnit | src/Vector3Extensions.cs:9 | a non-zero vector normalises to length 1 |
| VectorExtensions.LengthOfNonZero | src/Vector3Extensions.cs:9 | a non-zero vector has positive length and is length times its unit vector |
| VectorExtensions.UnitVectorOrthogonal | src/Vector3Extensions.cs:9 | normalising preserves orthogonality to another vector |
| VectorExtensions.UnitVectorOfUnit | src/Vector3Extensions.cs:9 | normalisation is idempotent: a unit vector is its own unit vector |
| VectorExtensions.ToByte | src/Vector3Extensions.cs:23-25 | the clamped, scaled, truncated channel is always a byte value 0..255 |
| VectorExtensions.ToByteCases | src/Vector3Extensions.cs:23-25 | values from 0.999 up saturate at 255; below that the byte is floor(256 * value) |
| VectorExtensions.ToByteMonotone | src/Vector3Extensions.cs:23-25 | a larger value never gives a smaller byte |
| VectorExtensions.ChannelByte | src/Vector3Extensions.cs:17-25 | averaged, gamma-corrected, clamped channel is a byte 0..255 |
| VectorExtensions.GetColor | src/Vector3Extensions.cs:11-27 | each channel is a byte 0..255 computed from its own component alone |
| VectorExtensions.ScaleIsAverage | src/Vector3Extensions.cs:17-21 | multiplying by 1/samplesPerPixel is the average over the samples |
| VectorExtensions.ChannelByteExact | src/Vector3Extensions.cs:17-25 | without square roots: average >= 0.999^2 gives 255, otherwise b^2 <= 65536 * average < (b+1)^2 |
| VectorExtensions.ChannelByteOfZero | src/Vector3Extensions.cs:19-25 | a pixel that gathered no light is byte 0 |
| VectorExtensions.AverageMonotone | src/Vector3Extensions.cs:17 | averaging keeps non-negative sums ordered and non-negative |
| VectorExtensions.GammaMonotone | src/Vector3Extensions.cs:17-21 | gamma correction is monotone in the summed radiance |
| VectorExtensions.ChannelByteMonotone | src/Vector3Extensions.cs:13-25 | more light never gives a darker channel byte |
| Cameras.CornerCentresViewport | src/Camera.cs:35-38 | half a viewport right and up from the lower-left corner lies the point focusDistance in front of the origin along -w, the viewport's centre |
| Cameras.NewCamera | src/Camera.cs:20-41 | stores lookFrom, aspect ratio and field of view; lens radius is aperture / 2; w, u, v are the normalised basis; viewport is 2 tan(theta/2) high and aspect-ratio times as wide, centred at lookFrom - focusDistance * w |
| Cameras.CrossWithDirection | src/Camera.cs:31-32 | an up vector not parallel to the viewing direction stays non-parallel to its unit vector |
| Cameras.BasisOrthonormal | src/Camera.cs:31-33 | w, u = unit(up x w), v = w x u are unit length and pairwise orthogonal |
| Cameras.CameraBasisOrthonormal | src/Camera.cs:31-33 | when vUp is not parallel to lookFrom - lookAt, the constructed camera's u, v, w are orthonormal |
| Cameras.GetRay | src/Camera.cs:43-49 | whatever the lens sample, the ray reaches lowerLeftCorner + s * horizontal + t * vertical at parameter 1; with no lens it starts at the camera origin |
| Cameras.PinholeRaysStartAtLookFrom | src/Camera.cs:35-48 | a camera with aperture 0 shoots every ray from lookFrom |
| Cameras.RayStartsOnLens | src/Camera.cs:45-48 | with an orthonormal u, v and a disk sample, the ray origin is within lensRadius of the camera origin |
| Spheres.GetRayHit | src/Sphere.cs:41-46 | the hit records t, the point on the ray at t, and a normal that is (point - center) / radius |
| Spheres.Hit | src/Sphere.cs:10-39 | a hit lies strictly between tMin and tMax and is GetRayHit of its t; discriminant <= 0 misses; the near root is taken when in range, otherwise only the far root |
| Spheres.SurfaceEquation | src/Sphere.cs:13-19 | a point of the ray is on the sphere exactly when t solves a t^2 + 2 b t + c = 0 with the source's a, b, c |
| Spheres.PositiveDiscriminantDirection | src/Sphere.cs:15-20 | a positive discriminant implies a non-zero ray direction (a > 0) |
| Spheres.PositiveDiscriminantRadius | src/Sphere.cs:17-20 | a positive discriminant implies a non-zero radius, so the normal's division is well defined |
| Spheres.QuadraticRoots | src/Sphere.cs:19-29 | for a > 0 the roots of the quadratic are exactly (-b -/+ sqrt(disc)) / a |
| Spheres.TwoRoots | src/Sphere.cs:19-29 | with a positive discriminant the near root is smaller than the far root, both are on the sphere, and every on-surface t is one of them |
| Spheres.HitOnSurface | src/Sphere.cs:10-46 | a reported hit point is on the sphere, at distance radius from the center, with a unit normal |
| Spheres.HitIsNearest | src/Sphere.cs:20-38 | a reported hit is never farther than any on-sphere t in (tMin, tMax); with a positive discriminant such a t guarantees a hit (a tangent ray, discriminant 0, misses) |
| Spheres.NegativeDiscriminantMisses | src/Sphere.cs:19-20 | a negative discriminant means no point of the ray is on the sphere |
| Spheres.HitNarrowed | src/Sphere.cs:22-34 | lowering tMax to c keeps exactly the hits with t < c, so the scene loop's narrowing is sound |
| Materials.NewMetal | src/Material.cs:20-24 | a Metal with the given albedo whose fuzz is the input capped at 1 |
| Materials.MetalScatter | src/Material.cs:26-33 | attenuation is the albedo, the ray leaves the hit point, its direction is the mirrored unit direction plus fuzz times the sample, and it succeeds exactly when it leaves along the normal |
| Materials.MetalMirror | src/Material.cs:26-32 | with fuzz 0 the direction is exactly the mirror image of the unit direction, is a unit vector, and scattering succeeds iff the incoming ray points against the normal |
| Materials.MetalFuzzBounded | src/Material.cs:23-29 | for any fuzz in [-1, 1] (the constructor keeps negative fuzz) the scattered direction deviates from the mirror direction by less than 1 |
| Materials.LambertianScatter | src/Material.cs:45-52 | always succeeds with the albedo, from the hit point, in direction normal + sample |
| Materials.LambertianScattersOutward | src/Material.cs:47-48 | with a unit normal and a sample in the unit sphere, the scattered ray leaves the surface |
| Materials.NiOverNt | src/Material.cs:72-83 | leaving the glass the ratio is the index; entering it the ratio times the index is 1 |
| Materials.Cosine | src/Material.cs:72-83 | the cosine times the direction's length is the direction's projection on the normal, multiplied by the index when leaving and negated when entering; a zero direction gives 0 |
| Materials.OutwardNormal | src/Material.cs:72-83 | the chosen normal is the hit normal or its negation and faces against the incoming direction; unless the ray leaves the surface (dot > 0), including at a grazing ray, it is the hit normal itself |
| Materials.Refract | src/Material.cs:98-110 | refraction succeeds exactly when 1 - eta^2 (1 - dt^2) > 0 |
| Materials.RefractionSnell | src/Material.cs:98-107 | a refracted ray has unit length, crosses the surface, and its tangential part is eta times the incoming one (Snell's law) |
| Materials.SmallRatioDiscriminant | src/Material.cs:102-103 | with eta < 1 the refraction discriminant is positive |
| Materials.InverseBelowOne | src/Material.cs:81 | for an index above 1 the entering ratio 1/index lies in (0, 1) |
| Materials.CosineSquaredAtMostOne | src/Material.cs:100-102 | the dot of a unit direction with a unit normal squares to at most 1 |
| Materials.EnteringAlwaysRefracts | src/Material.cs:78-85 | a ray entering glass of index above 1 is never totally internally reflected |
| Materials.EnteringCosineBounds | src/Material.cs:78-83 | the entering cosine lies in [0, 1] |
| Materials.NormalReflectanceBounds | src/Material.cs:114-115 | r0 = ((1-n)/(1+n))^2 lies in [0, 1] |
| Materials.Pow5Bounds | src/Material.cs:116 | the fifth power of a value in [0, 1] stays in [0, 1] |
| Materials.Schlick | src/Material.cs:112-117 | head-on (cosine 1) the reflectance is r0; at grazing angle (cosine 0) it is 1 |
| Materials.SchlickBounds | src/Material.cs:112-117 | for a cosine in [0, 1] the reflectance lies between r0 and 1, so it is a probability |
| Materials.DielectricScatter | src/Material.cs:64-96 | always succeeds, attenuates nothing (1, 1, 1), and leaves from the hit point |
| Materials.TotalInternalReflectionReflects | src/Material.cs:85-93 | when refraction fails the ray is always reflected |
| Materials.DielectricReflectsBelowProbability | src/Material.cs:85-91 | a draw below the reflect probability (Schlick's, or 1 without refraction) reflects the incoming direction about the normal |
| Materials.DielectricRefractsAboveProbability | src/Material.cs:85-93 | a draw at or above Schlick's probability, when a refraction exists, sends the ray along the refracted direction |
| Materials.DielectricRefractsEntering | src/Material.cs:72-93 | a ray entering glass of index above 1 that is not reflected leaves as a unit vector into the sphere whose tangential part is the incoming one divided by the index |
| Materials.Scatter | src/Material.cs:12 | the scattered ray leaves the hit point; Lambertian and Dielectric always succeed; attenuation is the albedo or (1, 1, 1) for glass |
| RandomUtil.ScaledDrawBounds | src/RandomUtil.cs:35-36 | a draw in [0, 1) scaled by max - min lies in [0, max - min) |
| RandomUtil.Lerp | src/RandomUtil.cs:35-36 | a draw in [0, 1) maps into [min, max) |
| RandomUtil.DiskCandidate | src/RandomUtil.cs:28 | a disk candidate lies in the z = 0 plane inside [-1, 1)^2 |
| RandomUtil.SphereCandidateInCube | src/RandomUtil.cs:18 | a sphere candidate lies in [-1, 1)^3 |
| RandomUtil.CentreDrawsEndSphereLoop | src/RandomUtil.cs:13-21 | a generator whose next three draws are 0.5 meets RandomInUnitSphere's precondition: its first candidate, the origin, is accepted |
| RandomUtil.CentreDrawsEndDiskLoop | src/RandomUtil.cs:23-31 | a generator whose next two draws are 0.5 meets RandomInUnitDisk's precondition: its first candidate, the origin, is accepted |
| RandomUtil.Random.constructor | src/RandomUtil.cs:8 | a fresh generator starts at the beginning of its stream |
| RandomUtil.Random.NextFloat | src/RandomUtil.cs:33 | returns the next draw, in [0, 1), and consumes exactly one |
| RandomUtil.Random.NextFloatBetween | src/RandomUtil.cs:35-36 | returns the next draw mapped into [min, max) and consumes one draw |
| RandomUtil.Random.RandomVector | src/RandomUtil.cs:10-11 | three consecutive draws, each component in [min, max) |
| RandomUtil.Random.RandomInUnitSphere | src/RandomUtil.cs:13-21 | returns the first candidate strictly inside the unit sphere, every earlier candidate was rejected, and 3 draws are consumed per candidate |
| RandomUtil.Random.DrawDiskCandidate | src/RandomUtil.cs:28 | two draws mapped to 2 (d1, d2, 0) - (1, 1, 0), a point of [-1, 1)^2 in the plane z = 0 |
| RandomUtil.Random.RandomInUnitDisk | src/RandomUtil.cs:23-31 | returns the first candidate with z = 0 and x^2 + y^2 < 1, every earlier candidate was rejected, and 2 draws are consumed per candidate |
| Scenes.ClosestHit | RayTracingInOneWeekend/Scene.cs:27-36 | a reported closest hit lies inside (tMin, tMax) |
| Scenes.ClosestHitIsNearest | RayTracingInOneWeekend/Scene.cs:27-35 | if any sphere is hit in range, the scene reports a hit no farther than that sphere's |
| Scenes.ClosestHitIsFirstNearest | RayTracingInOneWeekend/Scene.cs:29-34 | the reported hit and material come from one sphere, whose own full-range hit it is; every earlier sphere misses or is strictly farther |
| Scenes.ClosestHitMisses | RayTracingInOneWeekend/Scene.cs:22-38 | the scene reports no hit exactly when every sphere misses in range |
| Scenes.Scene.constructor | RayTracingInOneWeekend/Scene.cs:12-16 | a new scene keeps its camera and holds no spheres |
| Scenes.Scene.Add | RayTracingInOneWeekend/Scene.cs:18 | appends exactly the (sphere, material) pair and nothing else |
| Scenes.Scene.Hit | RayTracingInOneWeekend/Scene.cs:20-39 | the narrowing loop returns true exactly when ClosestHit finds a hit, and then that hit and material; otherwise the empty record and no material |
| SceneRunners.SkyColor | src/Scenes/SceneRunner.cs:85-89 | the background lies on the line through white and sky blue: blue is 1 and red falls 5/3 as fast as green; SkyColorBounds confines it to the segment between them |
| SceneRunners.RayColor | src/Scenes/SceneRunner.cs:72-90 | with a true square root and albedos in [0, 1]^3, every traced colour stays in [0, 1]^3 at every depth and for every draw; ExhaustedDepthIsBlack, EmptySceneShowsSky and SkyColorVertical state its other cases |
| SceneRunners.SkyColorBounds | src/Scenes/SceneRunner.cs:85-89 | the background colour has red in [0.5, 1], green in [0.7, 1] and blue 1, so it lies in the unit cube |
| SceneRunners.SkyColorVertical | src/Scenes/SceneRunner.cs:85-89 | straight up is sky blue (0.5, 0.7, 1.0); straight down is white |
| SceneRunners.EmptySceneShowsSky | src/Scenes/SceneRunner.cs:77-89 | in an empty scene every ray shows the sky gradient |
| SceneRunners.ExhaustedDepthIsBlack | src/Scenes/SceneRunner.cs:74-75 | at depth 0 or below the colour is black |
| SceneRunners.CreateFramebuffer | src/Scenes/SceneRunner.cs:92-100 | fails exactly on a negative height, or a negative width with a positive height; otherwise holds every (x, y) with 0 <= x < width, 0 <= y < height and all values zero |
| SceneRunners.PixelKeysSize | src/Scenes/SceneRunner.cs:94-96 | the pixel grid has width * height points |
| SceneRunners.FramebufferSize | src/Scenes/SceneRunner.cs:92-100 | a created framebuffer has width * height entries |
| SceneRunners.TryUpdate | src/Scenes/SceneRunner.cs:58 | keys are unchanged; only the given key may change, and only if its value equals the comparison value |
| SceneRunners.ScreenCoordBounds | src/Scenes/SceneRunner.cs:52-53 | x / (width - 1) lies in [0, 1] and reaches 1 at the last column |
| SceneRunners.SceneRunner.constructor | src/Scenes/SceneRunner.cs:25-39 | stores the scene and settings and starts from the all-zero framebuffer |
| SceneRunners.SceneRunner.Painted | src/Scenes/SceneRunner.cs:47-58 | painting a block of rows keeps the keys, leaves pixels outside the block alone, and never overwrites a non-zero pixel |
| SceneRunners.SceneRunner.SampleRadiance | src/Scenes/SceneRunner.cs:52-55 | one sample of a pixel is a colour in [0, 1]^3 when the scene's albedos are |
| SceneRunners.SceneRunner.SampleSum | src/Scenes/SceneRunner.cs:50-56 | no samples sum to black; n samples sum to a vector with every channel in [0, n] |
| SceneRunners.SceneRunner.PixelColor | src/Scenes/SceneRunner.cs:49-56 | the unscaled pixel is black for a non-positive sample count and otherwise has every channel in [0, samplesPerPixel] |
| SceneRunners.SceneRunner.RenderPixel | src/Scenes/SceneRunner.cs:49-56 | the sample loop returns the sum of samplesPerPixel RayColor samples of the pixel |
| SceneRunners.SceneRunner.PaintNextPixel | src/Scenes/SceneRunner.cs:47-58 | painting one more pixel of a row is exactly a TryUpdate of that pixel against black |
| SceneRunners.SceneRunner.PaintNextRow | src/Scenes/SceneRunner.cs:45-59 | painting rows 0..y is painting rows 0..y-1 and then row y |
| SceneRunners.SceneRunner.StorePixel | src/Scenes/SceneRunner.cs:49-58 | the frame buffer becomes the old one with pixel (x, y) set to its summed colour if it was still black, and nothing else changed |
| SceneRunners.SceneRunner.RenderRow | src/Scenes/SceneRunner.cs:47-59 | one row's pass paints exactly that row of the framebuffer |
| SceneRunners.SceneRunner.Run | src/Scenes/SceneRunner.cs:41-70 | after the run every row 0..height-1 is painted and nothing else changed |
| SceneRunners.SceneRunner.FreshFramebufferFullyPainted | src/Scenes/SceneRunner.cs:38-58 | starting from the created framebuffer, every pixel holds its own summed colour after the run |

## Left out

- Concurrency: the one-task-per-row parallelism of `Run` is replaced by a sequential loop over the rows. Rows write disjoint keys, so the final framebuffer is the same.
- Cancellation, and the swallowed `TaskCanceledException`, are not modelled.
- The progress callback invoked after every row is not modelled.
- The desktop front ends are not part of this model. This covers the windows, view models, the Skia controls, the scene factory and the scene drawer.
- `MathUtils.DegreesToRadians`, `MathF.Tan` and `MathF.Pow` are not computed. The camera takes `tanHalfTheta` as an input, and the fifth power is written out as a product.
- `MathF.Sqrt` is a parameter. Only its defining property on non-negative arguments is assumed.
- Floating-point rounding, overflow, infinities and NaN are not modelled; reals are exact.
- Division by zero yields 0 instead of an infinity or NaN. This covers the unit vector of the zero vector, an image one pixel wide or high, zero samples per pixel, and a zero-radius normal.
- The single shared `System.Random` is split up. The rejection samplers draw from an explicit stream. The camera's lens sample and the materials' samples reach the renderer as the functions `lens` and `bounces`. The model therefore does not capture which draw of the one global sequence each call consumes.
- RandomUtil.Random.RandomInUnitSphere: requires that some candidate in the stream is accepted. The source's do-while loop has no bound; it terminates only with probability 1.
- RandomUtil.Random.RandomInUnitDisk: requires that some candidate in the stream is accepted, for the same reason.
- SceneRunners.SceneRunner.constructor: requires that CreateFramebuffer succeeds. The failure case, where the source throws from `Enumerable.Range`, is modelled by `CreateFramebuffer`'s `Failure` result.
- `ScreenPoint` becomes a two-field datatype, and `SKColor` becomes `VectorExtensions.Color`.
- `ConcurrentDictionary` becomes an immutable `map` that the runner's field is reassigned to.
- VectorExtensions.ChannelByteExact: states the byte only for non-negative sums and at least one sample. For a negative average the source's `MathF.Sqrt` gives NaN, whose clamp and cast are not modelled.
- Materials.DielectricScatter: its own contract does not fix the direction. `TotalInternalReflectionReflects`, `DielectricReflectsBelowProbability` and `DielectricRefractsAboveProbability` state which direction each draw picks. `DielectricRefractsEntering` states Snell's law for an entering ray. No lemma states the refracted direction's geometry for a ray leaving the glass.
