# A verified model of the lib.js ray tracer core

`lib.js` is the library of a small "Ray Tracing in One Weekend" renderer
written in JavaScript. This project models its core in Dafny and proves
what the code promises:

- the vector algebra (`Vector`) and the colours (`Color`);
- rays, `Ray.at` and the face-normal rule `setFaceNormal`;
- the ray–sphere test `Sphere.hit`. It fills a mutable hit record.
- the nearest-hit scan `Scene.hit`, and `Scene.add`;
- `clamp`, and `writeColor`, which stores one RGBA pixel into a byte buffer;
- the deterministic parts of the three materials: the constructors,
  `reflectance` and the `scatter` methods with their random draws taken as
  inputs.

Numbers are exact reals. `Math.sqrt` is a parameter `sqrt: real -> real`.
The predicate `Numeric.SqrtSpec` constrains it to return the non-negative
square root of every non-negative input. Random numbers become inputs
(`Materials.Draws`).

Code that only computes values is written as datatypes and functions. Code
that changes state is written imperatively:

- `Hittables.HitRecord` is a class whose fields `Sphere.Hit`, `Scene.Hit`
  and `HitRecord.Scatter` assign;
- `Scenes.Scene` holds its spheres in a `seq` field;
- `Colors.WriteColor` stores into an `array<int>`.

`Sphere.Hit`, `Scene.Hit`, `HitRecord.Scatter` and `WriteColor` are proved
against pure functions: `Sphere.Intersect`, `Scenes.ClosestHit`,
`Materials.Scatter` and `Colors.PixelBytes`. The lemmas characterise those
functions. `Scene.Add` and `Colors.Store` state their new state directly. For example, `RootNearest` shows that the root `Sphere.hit`
picks is the nearest point of the ray on the sphere within
`[tMin, tMax]`. `SceneHitNearest` shows that the scene reports the nearest
such point over all spheres.

Modules, in dependency order:

| module | file | contents |
|---|---|---|
| `Numeric` | numeric.dfy | the contract of the square root, `Math.min`/`Math.max`, `clamp`, `Math.pow` |
| `Options` | options.dfy | `Option` |
| `Vectors` | vector.dfy | `Vector` and its algebra |
| `Rays` | rays.dfy | `Ray`, `at`, `setFaceNormal` |
| `Colors` | colors.dfy | `Color`, the byte conversion of `writeColor`, `WriteColor` |
| `Materials` | materials.dfy | the materials and their scattering |
| `Hittables` | hittables.dfy | `HitRecord`, `Sphere` and the quadratic behind `hit` |
| `Scenes` | scenes.dfy | `Scene` and its nearest-hit scan |

## Model

| member | source | states |
|---|---|---|
| Numeric.Clamp | lib.js:231-233 | If `lo <= hi`, the result lies in `[lo, hi]`. A value already in range is returned unchanged. Below `lo` gives `lo`, above `hi` gives `hi`. If `hi < lo`, `lo` wins. |
| Numeric.PowUnitInterval | lib.js:335 | `Math.pow(x, n)` of an `x` in `[0, 1]` stays in `[0, 1]`. |
| Vectors.Vector.LengthSquared | lib.js:11-13 | The squared length is never negative. |
| Vectors.Vector.Length | lib.js:8-10 | The length is non-negative and its square is `lengthSquared`. It is positive for a vector of positive squared length. |
| Vectors.Vector.Unit | lib.js:14-16 | The unit vector has length 1 and points the same way as the vector: its dot product with the vector is the positive length. |
| Vectors.CrossSelfZero | lib.js:37-43 | `v.cross(v)` is the zero vector. |
| Vectors.CrossOrthogonal | lib.js:37-43 | `u.cross(v)` is orthogonal to `u` and to `v`, and `v.cross(u)` is its negation. |
| Vectors.DotSelf | lib.js:34-36 | `v.dot(v)` equals `v.lengthSquared`, and `dot` is symmetric. |
| Vectors.ScaleLengthSquared | lib.js:28-30 | Scaling by `f` multiplies the squared length by `f*f`. |
| Vectors.DotAddScaled | lib.js:22-36 | `(u + w*t).dot(n) == u.dot(n) + t * w.dot(n)`: `dot` is linear. |
| Vectors.LengthSquaredAddScaled | lib.js:11-30 | The squared length of `u + w*t` expands into a quadratic in `t`. |
| Vectors.CauchySchwarz | lib.js:34-36 | `u.dot(v)^2` is at most `u.lengthSquared * v.lengthSquared`. |
| Vectors.UnitDotBounds | lib.js:34-36 | The dot product of two unit vectors lies in `[-1, 1]`. |
| Vectors.ReflectNormalComponent | lib.js:44-46 | Reflecting about a unit normal negates the component along the normal. |
| Vectors.ReflectInvolution | lib.js:44-46 | Reflecting twice about a unit normal gives back the original vector. |
| Vectors.ReflectPreservesLength | lib.js:44-46 | Reflection about a unit normal keeps the squared length. |
| Vectors.NearZeroIsShort | lib.js:17-21 | A `nearZero` vector has squared length below 1. So it is never a unit vector. |
| Vectors.PerpendicularPart | lib.js:48-51 | For unit `v` and `n`, `v + n*cos` is orthogonal to `n`, with squared length `1 - cos^2`. |
| Vectors.RefractUnit | lib.js:47-56 | With unit `v` and `n` and `ratio^2 (1 - (v.n)^2) <= 1`, `refract` returns a unit vector. |
| Rays.Ray.At | lib.js:95-98 | `at(t)` minus the origin is the direction scaled by `t`. |
| Rays.AtAffine | lib.js:95-98 | `at(0)` is the origin. Restarting the ray at `at(s)` and going `t` further reaches `at(s + t)`. |
| Rays.SetFaceNormal | lib.js:101-106 | On a front face the result is the outward normal, otherwise its negation. Either way it faces the ray: `direction.dot(n) <= 0`. |
| Rays.SetFaceNormalProperties | lib.js:101-106 | The face normal keeps the outward normal's length. The reversed ray gets the opposite face normal unless it grazes the surface. |
| Colors.ColorIdentities | lib.js:68-73 | White is the unit of `mulColor`, black the unit of `addColor` and the zero of `mulColor`. Both operations are commutative. |
| Colors.ScaleDistributes | lib.js:65-70 | `scale` distributes over `addColor`. |
| Colors.Truncate | lib.js:84 | `parseInt` of a number at or above 1e-6 is the integer part: `n <= x < n + 1`. |
| Colors.ChannelByte | lib.js:84-86 | The corrected byte of a channel is in `[0, 255]`. |
| Colors.ChannelByteBand | lib.js:84-86 | The byte is the index of the 1/256-wide band that holds the clamped channel. |
| Colors.ChannelByteMonotone | lib.js:84-86 | A brighter channel never gives a smaller byte. |
| Colors.ChannelByteExtremes | lib.js:84-86 | 0 gives byte 0. Anything at or above 0.999 gives 255. |
| Colors.GammaByte | lib.js:79-86 | A channel averaged over the samples, gamma-corrected and converted, gives a byte in `[0, 255]`. A channel at or below 0 gives 0: the NaN of `Math.sqrt` of a negative is stored as 0. |
| Colors.AverageMonotone | lib.js:79-80 | Multiplying by `1 / samplesPerPixel` keeps the order of channels. |
| Colors.GammaByteMonotone | lib.js:79-86 | A brighter channel never gives a smaller byte after averaging and gamma correction. |
| Colors.PixelBytes | lib.js:79-87 | The four bytes of a pixel are all in `[0, 255]`, and the alpha byte is 255. |
| Colors.PixelIndexInjective | lib.js:77 | Distinct pixels of a row-major image own disjoint groups of four bytes. |
| Colors.Store | lib.js:84-87 | A store into the byte buffer changes only its own index. An index outside the buffer is ignored. |
| Colors.WriteColor | lib.js:76-88 | The four cells starting at `(y*width+x)*4` become the pixel's bytes, as far as they lie inside the buffer. Every other cell is unchanged. |
| Colors.WriteColorKeepsBytes | lib.js:76-88 | A buffer of bytes stays a buffer of bytes after `writeColor`, and the pixel's alpha cell holds 255. |
| Colors.LeadingDigit | lib.js:84 | The first significant decimal digit of a number in `(0, 1)` is a digit. |
| Colors.ParseInt | lib.js:84 | For a non-negative number below 1e21: below 1e-6 `parseInt` reads only the leading digit of the exponential form, at 0 and from 1e-6 on it truncates. |
| Colors.ChannelByteAsWritten | lib.js:84-86 | The byte as written is in `[0, 255]`. If the scaled channel is below 1e-6, the byte is a single decimal digit. |
| Colors.ChannelByteAsWrittenAgrees | lib.js:84-86 | The conversion as written agrees with the corrected one at 0 and wherever the scaled channel is at least 1e-6. |
| Colors.ChannelByteAsWrittenCounterexample | lib.js:84-86 | The channel 1/512000000 gives byte 5 as written instead of 0, while the larger channel 1/25600000 gives 0. So the conversion as written is not monotone. |
| Materials.MetalMaterial | lib.js:292-295 | The fuzz is `min(fuzz, 1)`, so never above 1. The colour is kept. |
| Materials.DiffuseDirectionAsWritten | lib.js:281-284 | As written, the scatter fails (`None`, standing for the TypeError) exactly when `normal + draw` is `nearZero`. Otherwise the direction is `normal + draw`. |
| Materials.DiffuseDirection | lib.js:281-285 | The corrected direction is the normal or `normal + draw`, and agrees with the code as written whenever that does not throw. For a unit normal it is never `nearZero`. |
| Materials.DiffuseAsWrittenThrows | lib.js:281-284 | Take the unit normal (1,0,0) and the draw (-0.999999995,0,0), which lies inside the unit ball. The code as written throws here; the corrected version scatters along the normal. |
| Materials.DiffuseLeavesSurface | lib.js:281-285 | For a unit normal and a draw strictly inside the unit ball, the diffuse direction has a positive component along the normal. |
| Materials.DiffuseScatter | lib.js:280-288 | Diffuse scattering always scatters, from the hit point, attenuated by the material's colour. |
| Materials.MetalScatter | lib.js:296-303 | The attenuation is the colour and the ray starts at the hit point. The ray scatters exactly when its direction has a positive component along the normal. |
| Materials.MetalMirror | lib.js:296-303 | With fuzz 0 and a unit normal, the scattered direction is a unit vector with the negated normal component. A ray arriving against the normal is always scattered. |
| Materials.UnitSameSide | lib.js:297 | Normalising a direction keeps the sign of its component along the normal. |
| Materials.RefractionRatio | lib.js:313 | On a front face `ratio * ir == 1`; on a back face `ratio == ir`. It is positive for a positive `ir`. |
| Materials.ReflectanceNormalIncidence | lib.js:332-336 | At `cosine == 1` Schlick's reflectance is exactly `r0^2`. |
| Materials.ReflectanceIsProbability | lib.js:332-336 | For `refIdx > 0` and `cosine` in `[0, 1]`, the reflectance lies between `r0^2` and 1. |
| Materials.CanRefract | lib.js:318-320 | Where the radicand is non-negative, `cannotRefract` is false exactly when `ratio * sinTheta <= 1`. |
| Materials.RefractionPossible | lib.js:318-320 | If refraction is not ruled out, `ratio^2 (1 - cos^2) <= 1`, so Snell's law has a solution. |
| Materials.RefractingScatter | lib.js:311-331 | A dielectric always scatters, from the hit point, with white attenuation. The direction is the reflection or the refraction of the unit incoming direction. |
| Materials.NoTotalInternalReflection | lib.js:312-320 | Entering a denser medium through a front face, or arriving along the normal, a ray is never forced to reflect. |
| Materials.RefractingScatterUnit | lib.js:311-331 | With a unit normal, every scattered dielectric direction is a unit vector. |
| Materials.Scatter | lib.js:276-331 | Every material scatters from the hit point. Diffuse and dielectric materials always scatter. The dielectric attenuation is white, the others use the material's colour. |
| Hittables.HitRecord.constructor | lib.js:159 | A fresh record, the `{}` of `Scene.hit`, gets neutral field values. |
| Hittables.HitRecord.Scatter | lib.js:285-286 | `rec.material.scatter(ray, rec)` writes the scattered ray and the attenuation of `Materials.Scatter` and returns its verdict. The fields written by `hit` are left alone. |
| Hittables.Sphere.Root | lib.js:120-134 | The root `hit` settles on lies in `[tMin, tMax]`. |
| Hittables.Sphere.Record | lib.js:136-145 | The record holds `t`, the point `ray.at(t)` and the material. Its face and normal are those of `setFaceNormal` applied to `(p - center) / radius`. |
| Hittables.Sphere.Intersect | lib.js:119-148 | A hit is reported exactly when `Root` finds a root. A hit has `tMin <= t <= tMax` and `p == ray.at(t)`, and `p` lies on the sphere. Its normal is a unit vector facing the ray, and it carries the sphere's material. |
| Hittables.Sphere.Hit | lib.js:119-148 | Returns whether `Intersect` finds a hit. On a hit, `rec` holds that intersection. On a miss, `rec` is unchanged. The scattered ray and the attenuation are never touched. |
| Hittables.QuadraticRoot | lib.js:124-134 | The root chosen from the discriminant and the two candidates lies in `[tMin, tMax]`. |
| Hittables.PickRoot | lib.js:129-134 | The chosen candidate lies in `[tMin, tMax]` and is one of `(-halfb -+ sqrtd) / a`. |
| Hittables.QuadraticFactor | lib.js:124-128 | `a (a t^2 + 2 halfb t + c) = (a t + halfb - s)(a t + halfb + s)` when `s^2` is the discriminant. |
| Hittables.QuadraticNoRoot | lib.js:124-125 | With a negative discriminant the quadratic has no real root. |
| Hittables.QuadraticRoots | lib.js:124-133 | With discriminant `s^2`, the roots are exactly `(-halfb - s)/a <= (-halfb + s)/a`. |
| Hittables.QuadraticRootNearest | lib.js:124-134 | The chosen root is a root. No root in `[tMin, tMax]` lies before it. If none is chosen, there is no root in `[tMin, tMax]`. |
| Hittables.SurfaceQuadratic | lib.js:120-123 | `ray.at(t)` lies on the sphere exactly when `t` solves the quadratic that `hit` sets up. |
| Hittables.RootNearest | lib.js:119-134 | `Root` is a point of the ray on the sphere within `[tMin, tMax]`, and no such point comes before it. `None` means the ray meets the sphere nowhere in `[tMin, tMax]`. |
| Hittables.OutwardNormalUnit | lib.js:138-140 | `(p - center) / radius` is a unit vector for a point `p` on the sphere. |
| Hittables.IntersectFrontFace | lib.js:138-145 | For a positive radius, a front face means the ray moves towards the centre at the hit (`direction.dot(p - center) < 0`). For a negative radius, a hollow shell, it means the ray moves away from the centre (`direction.dot(p - center) > 0`). |
| Hittables.InsideHitIsBackFace | lib.js:119-145 | A ray starting strictly inside a sphere of positive radius, with `tMin >= 0`, can only report a back face (`frontFace == false`). |
| Hittables.ForwardRootRising | lib.js:124-128 | At a root `t >= 0` of `a t^2 + 2 halfb t + c` with `a > 0` and `c < 0`, `halfb + a t > 0`. |
| Hittables.RootRestrict | lib.js:119-134 | Lowering the upper bound to `b` keeps the nearest hit when it lies at or before `b`, and loses it otherwise. |
| Hittables.NearerRootFirst | lib.js:129-131 | The candidate `(-halfb - sqrtd)/a` is the nearer one, and it is taken whenever it lies in `[tMin, tMax]`. |
| Hittables.NegativeDiscriminantMisses | lib.js:124-125 | With a negative discriminant, `hit` reports nothing, and no point of the ray's line lies on the sphere. |
| Scenes.ClosestHit | lib.js:158-176 | A hit found by the scan lies in `[tMin, tMax]`. |
| Scenes.ClosestHitStep | lib.js:163-173 | Scanning one more object extends the scan with that object's hit below `closestSoFar`. |
| Scenes.Scene.constructor | lib.js:152-154 | A new scene has no objects. |
| Scenes.Scene.Add | lib.js:155-157 | `add` appends the sphere. |
| Scenes.Scene.Hit | lib.js:158-176 | Returns whether `ClosestHit` finds a hit. On a hit, `rec` holds it. Otherwise `rec` is unchanged. The scattered ray and the attenuation are never touched. |
| Scenes.ClosestHitNearest | lib.js:158-176 | The scene's hit is some sphere's own hit in `[tMin, tMax]` and no farther than any sphere's hit there. There is no scene hit only when no sphere has a hit. |
| Scenes.SceneHitNearest | lib.js:158-176 | The scene's hit is a point of the ray at `t` in `[tMin, tMax]`, lying on one of the spheres and carrying its material. Every point of the ray in `[tMin, tMax]` on any sphere lies at `t` or beyond. The scene misses only when there is no such point. |

## Left out

- `Camera` (lib.js:179-225) and `deg2rad` (lib.js:227-229) are not modelled: they are built from `Math.tan` and `Math.PI`.
- `getRandom`, `getRandomVector`, `getRandomColor` and the rejection loops (lib.js:235-274) are not modelled. Each `scatter` takes its draws as inputs instead (`Materials.Draws`).
- The `rayColor` driver and the per-pixel loop are not part of this model.
- classes.js and script.js are not part of this model. The first is an earlier draft of `Vector`, the second is canvas demo code.
- IEEE-754 rounding, NaN and Infinity are not modelled: numbers are exact reals. Two NaN cases whose outcome is defined are modelled. A negative channel in `writeColor` stores 0. A negative radicand in the dielectric's `cannotRefract` test allows refraction, because a comparison with NaN is false (`Materials.CannotRefract`). Other NaN cases are excluded by preconditions, listed below.
- `Math.sqrt` is a parameter constrained by `Numeric.SqrtSpec`. Square roots are not constructed.
- Vectors.Vector.Unit: requires a positive squared length. For the zero vector JavaScript divides by zero and yields NaN components.
- Vectors.Vector.Divide: requires a non-zero divisor. JavaScript would produce infinities or NaN.
- Hittables.Sphere.Hit: requires a non-zero ray direction and a non-zero radius. With a zero direction the roots are NaN, and because both range comparisons with NaN are false JavaScript accepts the NaN root and reports a hit. That behaviour is not modelled. With a zero radius the normal has NaN components.
- Scenes.Scene.Hit: requires every sphere to have a non-zero radius, as `Sphere.Hit` does. `tMax` is a real number: a caller passing `Infinity` corresponds to any bound beyond every hit.
- Materials.Reflectance: requires `refIdx != -1`, where JavaScript divides by zero.
- Materials.RefractionRatio: requires `ir != 0`. `RefractingScatter` and `Scatter` require `ir > 0` for a dielectric.
- Materials.MetalScatter: requires a non-zero incoming direction, because it takes its unit vector. `Scatter` requires the same for metal and dielectric materials.
- Colors.WriteColor: requires `samplesPerPixel > 0`. JavaScript would scale by `Infinity` or a negative number.
- Colors.LeadingDigit: searches at most 330 decimal places. That is enough for every positive double, the smallest being about 5e-324.
- Materials.MetalMaterial: takes the fuzz explicitly. The JavaScript default `fuzz = 0` is not modelled.
- Hittables.HitRecord.constructor: gives the record neutral values. In JavaScript the fields of `{}` are undefined until written.
- The scene stores spheres. Objects with any other `hit` method (the commented-out `SceneObject`, lib.js:108-111) are not modelled.
- The materials are a datatype, and `Materials.Scatter` dispatches on it in place of JavaScript's method call on the material object.
- `DiffuseMaterial.scatter` as written throws (see Findings). The rest of the model uses the corrected `Materials.DiffuseDirection`.
- Colors.GammaByte: converts with the corrected `Colors.ChannelByte`, not the `parseInt` of lib.js:84-86 (see Findings). The two differ only where `0 < 256 * sqrt(average) < 1e-6`. There the code as written stores the leading digit, as `Colors.ChannelByteAsWritten` shows.
- Colors.GammaByteMonotone: states the monotonicity of the corrected conversion. The code as written is not monotone (`Colors.ChannelByteAsWrittenCounterexample`).
- Colors.PixelBytes: its red, green and blue bytes come from the corrected `Colors.GammaByte`, so they differ from lib.js:84-86 in the same narrow band.
- Colors.WriteColor: stores `Colors.PixelBytes`, so it writes the corrected bytes, not the leading digits the code as written stores in that band.
- Colors.ParseInt: covers only numbers below 1e21. From there on JavaScript prints numbers in exponential form too, but `writeColor` never passes more than 255.744.

## Findings

| source | as written | input that shows it | evidently intended | confidence | as-written member | corrected member |
|---|---|---|---|---|---|---|
| lib.js:84-86 | `parseInt(256 * clamp(r, 0, 0.999))` converts the number to a string first. Below 1e-6 that string is in exponential form, so `parseInt` returns its leading digit. | A channel whose gamma-corrected value is 1/512000000: `256 * v` is 5e-7 and the byte is 5. The larger value 1/25600000 gives 1e-5 and byte 0. | The integer part, 0, so that brighter channels never give smaller bytes. | high, not executed | Colors.ChannelByteAsWrittenCounterexample | Colors.ChannelByte |
| lib.js:281-284 | `scatterDirection` is declared `const` and then reassigned when it is `nearZero`. That throws a TypeError. | The unit normal (1,0,0) with the draw (-0.999999995,0,0) from inside the unit ball: the sum (5e-9,0,0) is `nearZero`. | Scatter along the normal instead. | high, not executed | Materials.DiffuseAsWrittenThrows | Materials.DiffuseDirection |
