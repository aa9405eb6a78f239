# rustraycer core in Dafny

rustraycer is a small path tracer for spheres, in the style of "Ray Tracing
in One Weekend". This project models its deterministic core and proves
properties of it:

- the interval, vector and point helpers;
- axis-aligned bounding boxes and their slab test;
- how a sphere picks its intersection root;
- how the front face of a hit record is oriented;
- the closest-hit scan over a list of objects;
- the bounding volume hierarchy (BVH): its build and its traversal;
- the Lambertian and metal scattering rules;
- the camera's image height and ray generation;
- the recursive path colour and the row-major render loop;
- the gamma/byte quantisation and the display placement of pixels.

Floating-point numbers (`f32`) are modelled as `real`. Every random draw is a
parameter: the pixel jitter, the defocus-disk point and the per-bounce
scatter sample. So are the square root (`sqrt: real -> real`) and the
vector operations whose definitions are not part of this model (`unit`,
`reflect`, `near_zero`, gathered in `Vectors.VecOps`). Where a property needs
the square root to be exact, the lemma says so in its `requires`, with
`Hittables.NonNegativeRoots` or `Hittables.IsRootOf`. `f32::INFINITY` is the
sentinel `Intervals.Infinity`, which is `f32::MAX`.

Modules follow the source files:

| file | module | source |
|---|---|---|
| interval.dfy | Intervals | src/interval.rs |
| vec3d.dfy | Vectors | src/vec3d.rs |
| points.dfy | Points | `Point3d` and `Color` in src/main.rs |
| ray.dfy | Rays | `Ray` in src/camera.rs |
| aabb.dfy | Boxes | src/aabb.rs |
| hit_record.dfy | HitRecords | `HitRecord` in src/hit_record.rs |
| material.dfy | Materials | src/material.rs |
| hittable.dfy | Hittables | spheres, the object list and BVH traversal |
| bvh.dfy | Bvh | BVH construction in src/bhv.rs |
| camera.dfy | Cameras | the camera and integrator in src/camera.rs |
| output.dfy | Output | colour output and display mapping in src/main.rs |
| options.dfy | Options | the `Option` type |

The imperative parts of the source are imperative here:

- `Boxes.Hit` is a `for` loop over the two examined axes, with the same early exit as the source.
- `Bvh.FromList` sorts `objects[start..end]` in place, in an `array`.
- `Hittables.HittableList` is a class. Its methods are `Add` and the scanning `Hit` loop.
- `Cameras.Camera` is a class that appends to its `pixels` field in `Render`.

Each method is proved against a function:

- `Boxes.SlabHit` for the slab test;
- `Bvh.Built` for the build;
- `Hittables.Scan` for the list scan;
- `Cameras.Camera.Image` for the render.

Lemmas then relate those functions to what the program promises. The central one is `Bvh.BuiltTreeIsScan`: a BVH built from a list answers every query exactly as the linear scan of that list does, provided the node boxes are conservative.

## Model

| member | source | states |
|---|---|---|
| Intervals.New | src/interval.rs:8-10 | the constructed interval stores its bounds unchanged |
| Intervals.Default | src/interval.rs:12-14 | the default interval runs from minus to plus infinity |
| Intervals.NewAndSize | src/interval.rs:16-18 | `size` is `max - min`; `new(-1, 1)` has size 2 |
| Intervals.SurroundsIsStrict | src/interval.rs:24-26 | `surrounds` holds exactly strictly inside; it is false at either bound and outside |
| Intervals.ContainsIsInclusive | src/interval.rs:20-22 | `contains` holds exactly on the closed range; both bounds are in a non-empty interval, and points outside are not |
| Intervals.IntervalExamples | src/interval.rs:57-75 | the unit tests of `surrounds` and `contains` on `[-1, 1]` |
| Intervals.SurroundsImpliesContains | src/interval.rs:20-26 | a surrounded point is contained |
| Intervals.ClampProperties | src/interval.rs:28-36 | on a non-empty interval `clamp` lands inside it and is idempotent; a contained value is left as it is |
| Intervals.ClampMonotone | src/interval.rs:28-36 | `clamp` preserves order |
| Intervals.Size | src/interval.rs:16-18 | the size is the distance from `min` to `max`, and is non-negative exactly when the interval is non-empty |
| Intervals.Contains | src/interval.rs:20-22 | only a non-empty interval contains a point |
| Intervals.Surrounds | src/interval.rs:24-26 | a surrounded point lies in an interval with interior and is neither bound |
| Intervals.Clamp | src/interval.rs:28-36 | on a non-empty interval the result lies inside it; a contained value is kept; otherwise the result is one of the bounds |
| Intervals.Enclose | src/aabb.rs:40-42 | the interval used by `from_boxes` encloses both arguments, and each of its bounds is one of theirs |
| Vectors.Add | src/vec3d.rs:12-14 | addition is componentwise |
| Vectors.Mul | src/vec3d.rs:16-18 | scaling multiplies every component |
| Vectors.AddExample | src/vec3d.rs:32-37 | (1,2,3) + (2,3,4) = (3,5,7) |
| Vectors.MulExample | src/vec3d.rs:51-57 | (1,2,3) scaled by 0.5 is (0.5,1,1.5) |
| Vectors.AddCommutative | src/vec3d.rs:12-14 | addition is commutative |
| Vectors.AddAssociative | src/vec3d.rs:12-14 | addition is associative |
| Vectors.MulIdentityAndZero | src/vec3d.rs:16-18 | scaling by 1 is the identity, scaling by 0 gives the zero vector, and zero is neutral for addition |
| Vectors.MulDistributesOverAdd | src/vec3d.rs:12-18 | scaling distributes over addition |
| Vectors.Sub | src/camera.rs:146 | the difference `a - b` is the vector that, added to `b`, gives `a` |
| Vectors.Div | src/camera.rs:179 | dividing by a non-zero scalar is undone by multiplying by it |
| Vectors.LengthSquared | src/hit_record.rs:40 | the squared length is never negative |
| Points.Index | src/main.rs:33-40 | index 0, 1 and 2 select x, y and z; any other index is excluded, because the source panics on it |
| Points.PointSub | src/main.rs:64-70 | every coordinate of the difference is the difference of the coordinates |
| Points.FromVec | src/main.rs:48-50 | the point has the vector's coordinates, index by index |
| Points.AsVec | src/main.rs:60-62 | the vector has the point's coordinates, index by index |
| Points.VecRoundTrip | src/main.rs:48-50 | `as_vec3d(from_vec3d(v)) == v` and `from_vec3d(as_vec3d(p)) == p` |
| Rays.At | src/camera.rs:18-21 | the point at parameter `t` lies `t` direction vectors away from the origin |
| Rays.AtZeroAndOne | src/camera.rs:18-21 | `at(0)` is the origin and `at(1)` is origin plus direction |
| Boxes.DefaultBox | src/aabb.rs:14-20 | the default box is unbounded on every axis |
| Boxes.NewBox | src/aabb.rs:22-28 | `new` copies the three intervals unchanged |
| Boxes.Span | src/aabb.rs:32-34 | the interval between two coordinates is ordered and has exactly those two bounds |
| Boxes.FromPoints | src/aabb.rs:30-36 | the box of two points has `min <= max` on every axis and contains both points |
| Boxes.FromPointsSymmetric | src/aabb.rs:30-36 | `from_points(a, b) == from_points(b, a)` |
| Boxes.FromBoxes | src/aabb.rs:38-44 | on each axis the joined box encloses both input boxes |
| Boxes.AxisInterval | src/aabb.rs:47-53 | axis 1 gives y, axis 2 gives z, any other number gives x |
| Boxes.Narrow | src/aabb.rs:68-74 | one slab step never widens the window: the lower bound never falls and the upper bound never rises |
| Boxes.NarrowSymmetric | src/aabb.rs:65-74 | a slab step does not depend on the order of the two slab parameters; the new minimum is the nearer slab bound when that is above the old minimum |
| Boxes.Hit | src/aabb.rs:55-82 | the loop returns exactly the slab predicate over axes 0 and 1, which is false iff some examined step leaves `max <= min`; a true answer means the final window is non-empty |
| Boxes.WindowShrinks | src/aabb.rs:61-79 | across the whole loop, `ray_t.min` never decreases and `ray_t.max` never increases |
| Boxes.WindowIgnoresZ | src/aabb.rs:61 | the window computed by the loop does not depend on the box's z interval |
| Boxes.SlabHitIgnoresZ | src/aabb.rs:61 | the slab test's answer does not depend on the box's z interval |
| HitRecords.SetFaceNormal | src/hit_record.rs:14-19 | `front_face` holds iff the ray meets the outward normal head on; the stored normal is the outward normal or its negation, and always faces the ray; point and `t` are unchanged |
| Hittables.QuadA | src/hit_record.rs:40 | the quadratic's leading coefficient is not negative |
| Hittables.SphereRecord | src/hit_record.rs:58-68 | the record of a sphere hit has the given `t`, the point `at(t)`, the sphere's material, and its normal oriented by `set_face_normal` from the outward normal |
| Hittables.SphereHit | src/hit_record.rs:38-71 | a negative discriminant (or a zero direction) gives no hit; otherwise there is a hit iff the window strictly surrounds a root, the near root is preferred, and the returned `t` is strictly inside the window |
| Hittables.NearRootFirst | src/hit_record.rs:50-56 | the root tried first is the smaller one |
| Hittables.SphereWindow | src/hit_record.rs:50-56 | raising the window's upper bound above a found hit does not change the hit |
| Hittables.SphereNoSecondHit | src/hit_record.rs:50-56 | a sphere has no hit in the window that ends at its own hit |
| Hittables.SphereHitOnSurface | src/hit_record.rs:38-68 | with an exact root, the hit point lies on the sphere and the stored normal has unit length |
| Hittables.RootSolvesQuadratic | src/hit_record.rs:50-56 | both roots solve `a t^2 - 2 h t + c = 0` |
| Hittables.HittableHit | src/bhv.rs:18-28 | any hit returned by a sphere or a BVH node lies strictly inside the query window |
| Hittables.BvhHit | src/bhv.rs:12-31 | a node whose box misses has no hit; a returned hit is strictly inside the window |
| Hittables.Scan | src/hit_record.rs:86-108 | a hit of the list scan is strictly inside `(min, max)` |
| Hittables.ScanAppend | src/hit_record.rs:93-104 | scanning `a + b` scans `b` with the upper bound narrowed to `a`'s hit, and keeps `a`'s hit when `b` finds nothing closer |
| Hittables.ScanTwice | src/bhv.rs:69-74 | a leaf holding the same sphere on both sides answers as the sphere alone |
| Hittables.ScanHalves | src/hit_record.rs:93-104 | scans of concatenations agree whenever the scans of the parts agree |
| Hittables.ScanMisses | src/hit_record.rs:86-108 | the scan finds nothing iff no object is hit inside the window |
| Hittables.ScanMissAt | src/hit_record.rs:86-108 | when the scan finds nothing, no single object is hit |
| Hittables.Winner | src/hit_record.rs:96-101 | the index of the object that produced the scan's answer is inside the list |
| Hittables.ScanClosest | src/hit_record.rs:86-108 | for a list of spheres, the scan's answer is the winning object's own hit; it is the least `t` of all hits, and every earlier object's hit is strictly farther, so ties keep the first object (for lists that contain a BVH node, see `Hittables.BvhClosest`) |
| Hittables.Leaves | src/bhv.rs:18-28 | the leaves of a hittable are a non-empty sequence of spheres |
| Hittables.BvhHitIsScan | src/bhv.rs:12-31 | with conservative boxes, BVH traversal (prune on the box, left first, right narrowed to the left hit) answers exactly as the linear scan of its leaves |
| Hittables.BvhClosest | src/bhv.rs:12-31 | with conservative boxes, traversal misses iff every leaf misses, and a hit is the closest among the leaves |
| Hittables.HittableList.constructor | src/hit_record.rs:74-78 | a new list is empty |
| Hittables.HittableList.Add | src/hit_record.rs:80-82 | `add` appends at the end and leaves the existing objects as they were |
| Hittables.HittableList.Hit | src/hit_record.rs:86-108 | the loop returns the list scan, and a hit lies strictly inside the window; `closest_so_far` never increases from one object to the next |
| Materials.LambertianScatter | src/material.rs:12-20 | always scatters, with attenuation equal to the albedo, from the hit point, in the direction `normal + sample`, or `normal` when that sum is near zero |
| Materials.MetalScatter | src/material.rs:30-37 | attenuation is the albedo; the ray leaves the hit point along the unit reflection plus `fuzz` times the sample; it scatters iff that direction is on the normal's side |
| Materials.MaterialScatter | src/material.rs:3-5 | dispatch on the material kind to its scatter rule |
| Materials.LambertianDirectionNonZero | src/material.rs:13-16 | when the zero vector counts as near zero and the normal is non-zero, the Lambertian direction is never zero |
| Materials.MetalWithoutFuzz | src/material.rs:31-32 | with `fuzz = 0` the metal direction is exactly the unit reflection |
| Materials.OpaqueScatterFromHitPoint | src/material.rs:17-19 | both opaque materials emit from the hit point with the albedo as attenuation, and Lambertian always scatters |
| Bvh.BoundingBox | src/bhv.rs:33-35 | a node reports the box it stores; a sphere's box contains its centre |
| Bvh.BoxCompare | src/bhv.rs:39-47 | Less/Greater exactly when the minima differ by more than 0.001 in that direction; Equal otherwise |
| Bvh.BoxCompareAntisymmetric | src/bhv.rs:39-47 | `compare(a, b)` is Less iff `compare(b, a)` is Greater, and Equal iff Equal |
| Bvh.XAxisComparator | src/bhv.rs:49-51 | the build's comparator orders on the minima of the x intervals, with the 0.001 tolerance |
| Bvh.EqualIsNotTransitive | src/bhv.rs:49-51 | the x-axis comparator is not a total order: 0 ~ 0.0008 ~ 0.0016, yet 0 < 0.0016 |
| Bvh.SwapDown | src/bhv.rs:80 | one exchange of neighbours: swaps the two entries and changes nothing else |
| Bvh.InsertStep | src/bhv.rs:80 | inserting one entry keeps the range a permutation, leaves everything outside it alone, and extends the run of neighbours that are not Greater by one entry |
| Bvh.SortStep | src/bhv.rs:80 | one pass of the sort: an entry not below its left neighbour stays in place and nothing moves; otherwise it is inserted; either way the ordered run grows by one entry and the range stays a permutation |
| Bvh.SortRange | src/bhv.rs:80 | sorting `objects[start..end]` permutes that range, leaves everything outside it unchanged, and leaves no neighbouring pair Greater; a range already in that order is left as it is |
| Bvh.MidpointSplit | src/bhv.rs:81-83 | for spans of three or more, `mid = start + span/2` splits into two non-empty, strictly smaller ranges |
| Bvh.BuiltSplit | src/bhv.rs:82-89 | two subtrees built over the halves make a node built over the whole range |
| Bvh.FromList | src/bhv.rs:66-96 | the tree built over `objects[start..end]` satisfies the build predicate on the final range, which is a permutation of the original; entries outside the range are unchanged, and spans of 1 and 2 are not reordered; a span of 3 or more ends with no neighbouring pair Greater, and a range already in that order is not moved |
| Bvh.SplitBuild | src/bhv.rs:80-85 | the span-3-or-more branch: it sorts, splits at the midpoint and builds each half over its own sub-range; the range ends with no neighbouring pair Greater, since the sorted halves are not moved again |
| Bvh.BuiltScan | src/bhv.rs:18-28 | the leaves of a built tree scan exactly as the range it was built from |
| Bvh.NewBvh | src/bhv.rs:61-64 | `new` permutes the list's objects and returns a tree built over them; a list of 3 or more objects ends with no neighbouring pair Greater |
| Bvh.BuiltTreeIsScan | src/bhv.rs:12-31 | a built tree with conservative boxes answers every query as the linear scan of its objects |
| Cameras.CastU16 | src/camera.rs:213 | the saturating `as u16` cast is the floor of a non-negative value, capped at 65535 |
| Cameras.GetImageHeightAsWritten | src/camera.rs:211-214 | as written: 1 when `width/aspect < 1`, otherwise the saturating floor; a zero aspect ratio with non-zero width gives 65535 |
| Cameras.ImageHeightCanBeZero | src/camera.rs:211-214 | as written, width 0 with aspect 0 gives height 0 |
| Cameras.GetImageHeight | src/camera.rs:211-214 | the corrected height is always at least 1 and agrees with the source everywhere except at width 0, aspect 0 |
| Cameras.SampleSquare | src/camera.rs:132-136 | the offset is the draw shifted by -0.5; for draws in `[0, 1)` x and y lie in `[-0.5, 0.5)`; z is 0 |
| Cameras.Sky | src/camera.rs:202-207 | the miss colour is `a` times (0.5, 0.7, 1.0), where `a = 0.5 (unit_dir.y + 1)`, blended from black: straight up gives the sky colour and straight down gives black |
| Cameras.Attenuate | src/camera.rs:196 | the recursive colour is filtered componentwise |
| Cameras.RayColor | src/camera.rs:186-208 | depth 0 is black; a miss in `(0.001, inf)` gives the sky; a non-scattering hit is black |
| Cameras.RayColorScatters | src/camera.rs:193-196 | a scattering hit is the attenuation times the colour of the scattered ray at depth - 1 |
| Cameras.RayColorUsesDepthDraws | src/camera.rs:186-199 | a path uses only the draws of levels 1..depth, so it bounces at most `max_depth` times |
| Cameras.AttenuateBounded | src/camera.rs:196 | attenuating a unit-cube colour by a unit-cube factor stays in the unit cube |
| Cameras.ScatterBounded | src/camera.rs:193 | in a scene whose albedos lie in the unit cube, every attenuation does too |
| Cameras.RayColorBounded | src/camera.rs:186-208 | for such a scene every path colour lies in the unit cube |
| Cameras.ColorSumConstant | src/camera.rs:173-177 | summing `n` equal samples gives `n` times the sample |
| Cameras.MeanOfConstant | src/camera.rs:171-179 | the average of equal samples is that sample |
| Cameras.Row | src/camera.rs:169-182 | a row has `width` pixels, and pixel `i` of row `j` is the colour of `(i, j)` |
| Cameras.RasterLength | src/camera.rs:162-183 | `n` rows of `width` pixels form `n * width` entries |
| Cameras.RasterIndex | src/camera.rs:162-183 | entry `j * width + i` of the raster is the pixel `(i, j)` |
| Cameras.Camera.constructor | src/camera.rs:66-130 | stores the given settings, derives `image_height` from the width and aspect ratio, and starts with no pixels |
| Cameras.Camera.DefocusDiskSample | src/camera.rs:150-157 | the sample is `center + p.x * disk_u + p.y * disk_v`; the disk centre maps to the camera centre |
| Cameras.Camera.GetRay | src/camera.rs:138-148 | the origin is the centre when `defocus_angle <= 0`, otherwise a defocus-disk sample; origin plus direction is the jittered pixel sample `pixel00 + (i + ox) du + (j + oy) dv` |
| Cameras.Camera.ShadePixel | src/camera.rs:171-179 | the pixel colour is the mean of its `samples_per_pixel` path colours |
| Cameras.Camera.RenderRow | src/camera.rs:169-182 | one row appends exactly its `width` pixel colours, in order |
| Cameras.Camera.Render | src/camera.rs:159-184 | rendering appends exactly the row-major image |
| Cameras.Camera.ImageLayout | src/camera.rs:159-184 | the image has `width * height` pixels, and entry `j * width + i` is the mean of pixel `(i, j)`'s samples |
| Output.LinearToGamma | src/main.rs:90-96 | negative input maps to 0; otherwise the result is a non-negative square root of the input |
| Output.ToByte | src/main.rs:85-88 | the byte is the floor of 256 times the component clamped to `[0, 0.999]`, so it is always in 0..=255; components at or below 0 give 0, and components at or above 0.999 give 255 |
| Output.Quantize | src/main.rs:101-108 | a negative component is written as 0; in general the byte is the floor of 256 times the clamped gamma value |
| Output.WriteColor | src/main.rs:98-111 | each channel is gamma-encoded and then quantised |
| Output.ToByteMonotone | src/main.rs:106-108 | a larger gamma component never gives a smaller byte |
| Output.QuantizeMonotone | src/main.rs:101-108 | with exact roots, a larger linear component never gives a smaller byte |
| Output.WhiteIsFullByte | src/main.rs:101-108 | a linear 1.0 is written as 255 |
| Output.BlackIsZeroBytes | src/main.rs:101-108 | black is written as three zero bytes |
| Output.DisplayPosition | src/main.rs:324-325 | buffer entry `i` is placed at row `i / width`, column `i % width`, so `row * width + col == i` and `col < width` |
| Output.DisplayInvertsLayout | src/main.rs:324-327 | the display mapping inverts the render's row-major index: entry `j * width + i` goes to row `j`, column `i` |

## Left out

- src/config.rs: loading settings from a file is I/O and deserialisation.
- src/scene.rs: random scene population. It is not declared as a module of the program.
- The body of `main`, which does the following. None of it is modelled beyond the byte quantisation and the display index mapping:
  - building a random scene;
  - writing the PPM file;
  - opening the raylib window and drawing into it.
- `Camera::render(camera, world, thread_num)`, the multi-threaded renderer called by `main`: concurrency. The model covers the sequential `render` method.
- The progress output in `render` (src/camera.rs:160-167): console output only.
- The trigonometry and normalisation in `Camera::initialize` (src/camera.rs:66-130).
  - `pixel00`, `pixel_delta_u` and `pixel_delta_v`, the defocus angle and the defocus vectors are constructor parameters.
  - Only `image_height` is derived in the model.
- Randomness: every draw is a parameter, and nothing is assumed about its distribution (`Cameras.SampleDraws`).
- f32 rounding: reals only. NaN and infinities are handled as follows:
  - Infinity is a large sentinel.
  - The slab test requires non-zero x and y direction components (`Boxes.SlabDefined`), because the source divides by them.
  - A zero-radius sphere is excluded (`Hittables.Radius`).
- Definitions that are not part of this model, each replaced by a stand-in:
  - `Vec3d::unit`, `reflect`, `near_zero`, `random_unit` and `random_in_unit_disk`, and `f32::sqrt`, are parameters.
  - `dot`, `sub` and `length_squared` are given their mathematical meaning.
  - `Interval::from_intervals` is the enclosing interval `Intervals.Enclose`.
- Dielectric scattering is an abstract parameter, `Materials.DielectricRule`.
- The world queried by `ray_color` is any closest-hit function (`Cameras.World`), because the object list's new `hit` is not part of this model.
  - The shown src/hit_record.rs is an older revision, in which spheres have no material.
  - Spheres here carry a material, as src/bhv.rs and src/main.rs use them.
- Bvh.SortRange: it is a stable insertion sort. Rust's `sort_by` algorithm is not modelled. Rust's sort may panic when the comparator is not a total order; the model's sort has no such error path. The comparator is not a total order (`Bvh.EqualIsNotTransitive`), so the model promises only a permutation in which no neighbouring pair compares Greater, not a fixed output order.
- Hittables.BvhHitIsScan: it assumes every node box is conservative for the ray (`Hittables.BoxSound`). This is not derived from the box arithmetic. Deriving it would need three things this model does not have: the geometry of a box containing a sphere, an exact square root, and nonlinear reasoning over the reals. Leaving out the z axis does not make a box less conservative, because each slab step only narrows the window (`Boxes.WindowShrinks`).
- Bvh.SphereBox: the definition of a sphere's stored box is not part of this model. It is taken to be the cube of half-side `radius` around the centre. Its x minimum decides the sort order in the build, and so the shape of the tree.
- HitRecords.SetFaceNormal: it returns an updated value instead of mutating the record in place.
- Cameras.Camera.constructor: it stores the corrected `Cameras.GetImageHeight`, not the height as written. At width 0 and aspect ratio 0 it stores 1 where the source stores 0 (see "## Findings"). No pixel is rendered in either case, since the width is 0.
- Cameras.Camera.Render: it requires `samples_per_pixel >= 1`. With 0 samples the source divides by zero and stores NaN.
- Output.DisplayPosition: it requires the index to be below 2^31, because the source casts it to `i32`.
- Bvh.NewBvh: it requires a non-empty list, because the source panics indexing an empty one.
- Cameras.RayColor: its ensures covers the depth-0, miss and absorbed cases. The scattering case is stated separately in `Cameras.RayColorScatters`, so that the function's own contract does not refer to itself.
- The slab test in src/aabb.rs examines only the x and y axes (loop `0..2`), which is narrower than a full three-axis test. The model follows the code and proves that the z interval is irrelevant (`Boxes.SlabHitIgnoresZ`).
- The miss colour blends from black, not from white. The model follows the code (`Cameras.Sky`).

## Findings

| source | as written | input that shows it | evidently intended | confidence | as-written member | corrected member |
|---|---|---|---|---|---|---|
| src/camera.rs:211-214 | `hf = w / a`; returns 1 if `hf < 1`, else `hf as u16` | width 0 and aspect ratio 0.0: `0/0` is NaN, `NaN < 1` is false, and `NaN as u16` is 0, so the image height is 0 | an image height of at least 1 | low (needs a zero aspect ratio and zero width), not executed | Cameras.GetImageHeightAsWritten, Cameras.ImageHeightCanBeZero | Cameras.GetImageHeight |
