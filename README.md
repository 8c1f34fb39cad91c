# Bone segmentation grid transforms, in Dafny

This project models the four grid transforms of the knee-CT pipeline in the
bone-segmentation repository, and proves what each one promises. Each
transform works on a 3D voxel mask.

- **Mask expansion** (`src/expansion.py`). A millimetre distance is turned
  into a voxel radius per axis, `ceil(expand_mm / spacing)`. The radius
  gives an ellipsoidal structuring element, and the mask is dilated with it.
- **Boundary randomization** (`src/randomization.py`, steps 3 and 4). A
  background voxel is added when its distance to the mask is positive and no
  larger than its own random threshold. The result is then OR-ed with the
  mask.
- **Landmark detection** (`src/landmark_detection.py`). The scan goes down
  from the highest z index to the first slice that holds foreground. It
  splits that slice at the truncated mean x, and returns the voxel of largest
  y on the medial side and on the lateral side. It fails when the mask is
  empty or when one side is empty.
- **Segmentation** (`src/segmentation.py`). Strict intensity thresholding,
  removal of small connected components, and keeping the N largest
  components.

Layout:

- `grids.dfy`: module `Grids`. Voxel grids are nested sequences with an
  explicit `Shape`, and it holds the predicates the other modules share
  (binary, byte-valued, inclusion, array contents).
- `expansion.dfy`: module `Expansion`.
  - Kernel membership is the source's test `(dz/r0)² + (dy/r1)² + (dx/r2)² <= 1`,
    multiplied through by `(r0·r1·r2)²`. The lemma `InEllipsoidIffSum` proves
    this integer form equal to the real-valued sum.
  - Dilation follows `scipy.ndimage.binary_dilation` with its defaults: the
    structuring element is reflected, any non-zero input voxel is
    foreground, and cells outside the grid are background.
- `randomization.dfy`: module `Randomization`. The distance field and the
  threshold field are parameters.
- `landmark_detection.dfy`: module `LandmarkDetection`.
  - The downward scan with its `break` is a method with a loop invariant.
  - The mean, the split and the argmax are functions on the slice's
    coordinate list. The list is in the row-major order that `np.where`
    produces.
- `segmentation.dfy`: module `Segmentation`.
  - `clean_mask` and `extract_largest_components` are methods that fill a
    fresh zero `array3`. A `forall` statement per label models
    `out[labeled == i] = 1`.
  - The labelling `ndimage.label` returns is a parameter, and so is the
    ordering `np.argsort` returns. Each is constrained by a predicate stating
    what the library guarantees.
  - The label sizes (`ndimage.sum`) are computed.

## Model

| member | source | states |
|---|---|---|
| Expansion.Ceil | src/expansion.py:15 | `np.ceil` on exact reals: the result is the least integer at or above `x` |
| Expansion.AxisRadius | src/expansion.py:15 | the radius covers the distance (`r·s >= expand_mm`) and one voxel fewer does not (`(r-1)·s < expand_mm`); it is at least 1 when `expand_mm > 0` |
| Expansion.VoxelRadius | src/expansion.py:11-16 | one radius per spacing entry, in the same axis order, each the least number of voxels that covers `expand_mm` on that axis; all are at least 1 when `expand_mm > 0` |
| Expansion.RadiusMonotone | src/expansion.py:15 | a larger expansion distance never gives a smaller radius on an axis |
| Expansion.InEllipsoid | src/expansion.py:28-30 | the membership test of the kernel, `(dz/r0)² + (dy/r1)² + (dx/r2)² <= 1` multiplied through by `(r0·r1·r2)²`; for non-zero radii every offset it accepts lies in the box `|di| <= |ri|`, which the `ogrid` ranges of lines 23-27 span |
| Expansion.InEllipsoidIffSum | src/expansion.py:28-30 | the integer cross-multiplied membership test holds exactly when the real ellipsoid sum is at most 1 |
| Expansion.CreateEllipsoidKernel | src/expansion.py:19-31 | the kernel has shape `(2r0+1, 2r1+1, 2r2+1)`; cell `(a, b, c)` is set exactly when offset `(a-r0, b-r1, c-r2)` lies in the ellipsoid; offset 0 sits at `(r0, r1, r2)` and is set |
| Expansion.CentreAndTipsIn | src/expansion.py:28-30 | the centre and the six axis tips `±ri` are in the ellipsoid |
| Expansion.CornersOut | src/expansion.py:28-30 | the eight corners `(±r0, ±r1, ±r2)` of the bounding box are outside it |
| Expansion.EllipsoidSymmetric | src/expansion.py:28-30 | negating any offset component does not change membership |
| Expansion.KernelSymmetric | src/expansion.py:23-30 | the kernel grid is mirror-symmetric on each axis, so the reflection in `binary_dilation` leaves it unchanged |
| Expansion.EllipsoidNests | src/expansion.py:28-30 | if each radius of A is at most the matching radius of B, every offset in ellipsoid A is in ellipsoid B |
| Expansion.BinaryDilation | src/expansion.py:40 | the output has the mask's shape and holds only 0/1; a voxel is 1 exactly when some set cell of the reflected kernel, centred on it, covers a non-zero voxel inside the grid |
| Expansion.DilationIffNear | src/expansion.py:39-40 | dilating with the kernel grid equals the independent description "some foreground voxel lies within the ellipsoid around this voxel" |
| Expansion.ExpandMask | src/expansion.py:34-41 | for `expand_mm > 0` the output has the mask's shape and holds only 0/1 |
| Expansion.ExpandMaskIffNear | src/expansion.py:38-41 | an output voxel is 1 exactly when a foreground voxel lies within the ellipsoid of the voxel radius around it |
| Expansion.ExpandMaskContainsMask | src/expansion.py:38-41 | every foreground voxel of the input is 1 in the output |
| Expansion.ExpandMaskMonotone | src/expansion.py:38-41 | for `0 < e1 <= e2`, expanding by `e1` gives a subset of expanding by `e2` |
| Expansion.DilationMonotone | src/expansion.py:40 | dilating a larger mask with the same kernel gives a larger output |
| Randomization.RandomizedRegion | src/randomization.py:29 | a voxel is in the region exactly when `0 < distance <= threshold` there |
| Randomization.GenerateRandomizedMask | src/randomization.py:29-34 | the output has the mask's shape, holds only 0/1 and contains every original foreground voxel |
| Randomization.AddedIffGrows | src/randomization.py:29-32 | a voxel is newly added exactly when it was 0 and `0 < distance <= threshold`; at distance 0 the output keeps the original value |
| Randomization.AddedCloserThanMax | src/randomization.py:25-29 | with thresholds drawn from `[0, max_distance_mm)`, every added voxel has `0 < distance < max_distance_mm` |
| Randomization.ZeroMaxDistanceIsIdentity | src/randomization.py:25-34 | with `max_distance_mm = 0` every threshold is 0 and the output equals the original mask |
| Randomization.ThresholdMonotone | src/randomization.py:29-32 | raising thresholds voxel-wise never removes a voxel from the output |
| LandmarkDetection.SliceCoords | src/landmark_detection.py:16-17 | a coordinate is listed exactly when it is in the slice and its voxel is `> 0`, and the list is in row-major order |
| LandmarkDetection.FilterSide | src/landmark_detection.py:28-29 | the result holds exactly the coordinates on the given side of `center_x` |
| LandmarkDetection.FilterSideOrdered | src/landmark_detection.py:28-29 | boolean indexing keeps the row-major order |
| LandmarkDetection.SidesPartition | src/landmark_detection.py:28-29 | the medial and lateral lists together are a permutation of the slice's coordinates |
| LandmarkDetection.ArgMaxY | src/landmark_detection.py:36-37 | the index holds the largest y, and every earlier index has a strictly smaller y (the first maximum) |
| LandmarkDetection.ArgMaxYSmallestX | src/landmark_detection.py:36-37 | on a row-major list, the first maximum of y has the smallest x among the voxels of that y |
| LandmarkDetection.CenterX | src/landmark_detection.py:25 | `int(np.mean(coords[:, 0]))` on non-negative indices: the floor of the mean x, `cx·n <= sum(x) < cx·n + n` |
| LandmarkDetection.RightmostCoord | src/landmark_detection.py:25 | proof witness for `LateralNonEmpty`, not computed by the source: a coordinate of the slice whose x is at least every other x, and so at least the mean taken at line 25 |
| LandmarkDetection.LateralNonEmpty | src/landmark_detection.py:25-29 | the lateral side of a non-empty slice is never empty, because the largest x is at or above the floored mean |
| LandmarkDetection.LandmarksFrom | src/landmark_detection.py:22-39 | the landmarks of one slice's coordinate list: "no pixels" exactly when the list is empty; on success both points carry the slice's z, both are voxels of the list, and `medial.x < center_x <= lateral.x` |
| LandmarkDetection.LandmarksFromCorrect | src/landmark_detection.py:22-39 | "no pixels" exactly when the slice is empty; "one side empty" exactly when no x lies below `center_x`; otherwise each returned point is a voxel of its side with the largest y there (ties: smallest x), `medial.x < center_x <= lateral.x`, and both points carry the slice's z |
| LandmarkDetection.LowestSliceUnique | src/landmark_detection.py:15-20 | at most one slice is non-empty with every slice of larger index empty |
| LandmarkDetection.DetectLowestMedialLateralPoints | src/landmark_detection.py:12-39 | it fails with "no pixels" exactly when every slice is empty; otherwise it returns the landmarks of the largest z whose slice is non-empty, with every higher slice empty |
| Segmentation.ApplyThreshold | src/segmentation.py:29-31 | the output has the volume's shape and holds only 0/1; a voxel is 1 exactly when `lower < v < upper` |
| Segmentation.ThresholdBoundsExcluded | src/segmentation.py:30-31 | a voxel equal to `lower` or `upper` becomes 0 |
| Segmentation.ThresholdWidening | src/segmentation.py:29-31 | widening the window never removes a voxel |
| Segmentation.GridTotal | src/segmentation.py:45 | the sum of an all-zero grid is 0; the sum of a non-negative grid is non-negative and at least each of its voxels |
| Segmentation.LabelWeights | src/segmentation.py:45 | the mask's value where the label matches, 0 elsewhere (the terms `ndimage.sum` adds up for one label) |
| Segmentation.LabelSize | src/segmentation.py:45 | `ndimage.sum` for one label (the same call is at line 56): the sum of the mask over that label's voxels; it is 0 when every voxel carrying the label is 0 (or none does) |
| Segmentation.LabelSizes | src/segmentation.py:56 | `ndimage.sum(mask, labeled, range(num_features + 1))`, as also at line 45: one entry per label `0..num_features`, each the sum of the mask over that label's voxels |
| Segmentation.LabelSizeCountsVoxels | src/segmentation.py:45 | on an unsigned 8-bit mask a label's size is non-negative and at least the value of each voxel it carries |
| Segmentation.BackgroundSizeZero | src/segmentation.py:44-45 | label 0, which marks the mask's zero voxels, has size 0 |
| Segmentation.LabelSizesBounds | src/segmentation.py:44-45 | for an `ndimage.label` labelling of an 8-bit mask, size 0 for label 0 and at least 1 for every label `1..num_features` |
| Segmentation.LabelSizesNonNegative | src/segmentation.py:45 | every label of an 8-bit mask has a non-negative size |
| Segmentation.KeepLabels | src/segmentation.py:47-50 | a zero grid of the labelling's shape with 0/1 only, 1 exactly on the voxels whose label is kept |
| Segmentation.KeepLabelsWholeRegions | src/segmentation.py:47-50 | voxels of one label agree in the output: each region is kept or dropped whole |
| Segmentation.MarkLabel | src/segmentation.py:50 | `out[labeled == id] = 1`: every voxel of label `id` becomes 1 and every other voxel keeps its value |
| Segmentation.LabelsAtLeast | src/segmentation.py:48-49 | a label is kept exactly when it is in range and its size is `>= min_size` |
| Segmentation.CleanMask | src/segmentation.py:42-51 | the result is a newly allocated array (aliasing nothing), has the mask's shape and holds 1 exactly on the voxels whose label has size `>= min_size`, 0 elsewhere |
| Segmentation.CleanMaskWithinMask | src/segmentation.py:44-51 | with `min_size > 0` the background label is dropped, and the cleaned mask lies inside the mask |
| Segmentation.CleanMaskKeepsAll | src/segmentation.py:44-51 | with `min_size <= 0` every label is kept, background included, and the output is 1 everywhere |
| Segmentation.SliceFrom | src/segmentation.py:59 | Python's `a[start:]`: always a suffix of `a`; a start of 0 or more leaves `len - start` elements (none past the end), and a negative start leaves its last `-start` elements (all of them when `-start` exceeds the length) |
| Segmentation.TopIndices | src/segmentation.py:59 | `order[-n:]` is a suffix of the order: of length `min(n, len)` for `n >= 1`, the whole order for `n = 0`, and of length `max(0, len + n)` for `n < 0` |
| Segmentation.ExtractLargestComponents | src/segmentation.py:53-64 | the result is a newly allocated array (aliasing nothing), has the mask's shape and holds 1 exactly on the voxels whose label is among the selected indices, 0 elsewhere |
| Segmentation.MarkSelected | src/segmentation.py:61-63 | the loop over the selected labels on a newly allocated zero array: it ends with 1 exactly on the voxels whose label is in `top_indices`, 0 elsewhere |
| Segmentation.SelectedAreLargest | src/segmentation.py:56-59 | every selected label's size is at least every unselected label's size |
| Segmentation.SelectedCount | src/segmentation.py:59 | with `n >= 1` exactly `min(n, num_features + 1)` distinct labels are selected; with `n = 0` every label is |
| Segmentation.BackgroundFirst | src/segmentation.py:59 | when label 0 is the only label of size 0, the ascending ordering lists it first |
| Segmentation.BackgroundNotSelected | src/segmentation.py:59 | under those sizes, taking between 1 and all-but-one labels from the end leaves label 0 out |
| Segmentation.FewFeaturesSelectsAll | src/segmentation.py:55-63 | when `num_features < n`, label 0 is selected and every voxel, background included, becomes 1 |
| Segmentation.EnoughFeaturesDropsBackground | src/segmentation.py:55-63 | when `1 <= n <= num_features` on an 8-bit mask, label 0 is not selected and the output lies inside the mask |

## Left out

- File I/O (`load_nifti`, `save_nifti`), plotting and sliders, the `__main__` / `main()` scripts, CSV writing and the `print` calls. These are I/O with no logic of their own.
- `distance_transform_edt` (src/randomization.py:22) is a library algorithm. Its result is the `distance` parameter.
- `np.random.seed` / `uniform` (src/randomization.py:18-25) are library randomness. The draws are the `threshold` parameter. `ThresholdsDrawn` states the range they come from. Seed determinism is a library property.
- `ndimage.label` (src/segmentation.py:44,55) is a library algorithm. Its output is a parameter, constrained by `IsLabelling`: labels lie in range, label 0 marks exactly the zero voxels, and each foreground label occurs. Connectivity itself is not modelled.
- `np.argsort` (src/segmentation.py:59) is a library sort. Its output is a parameter, constrained by `IsArgsort`, which leaves the order among equal sizes open, as the library's unstable sort does.
- Floating point.
  - `ceil(expand_mm / s)` is computed on exact reals.
  - Kernel membership is the exact test. The float evaluation may round differently on cells lying exactly on the ellipsoid's surface.
  - `center_x` is the exact floor of the mean. Float rounding of `np.mean` on very large coordinate sums is not modelled.
  - Intensities and distances are reals.
- Expansion.ExpandMask: requires `expand_mm > 0`. With `expand_mm <= 0` the source has two different failure ranges, and neither is modelled:
  - For `-min(spacing) < expand_mm <= 0`, every radius is 0. The membership test divides 0 by 0 (NaN), so the kernel is a single cell that is false.
  - For `expand_mm <= -min(spacing)`, some radius is negative. `np.ogrid[-r:r+1]` is then empty on that axis, so `binary_dilation` receives a structuring element with zero extent. An axis whose radius is 0 may still evaluate 0/0 (with spacing `(1, 3, 3)` and `expand_mm = -1` the radii are `(-1, 0, 0)`), but the kernel is empty either way.
- Expansion.ExpandMask: two general statements about expansion do not match this code:
  - "expansion by 0 is the identity" does not hold here;
  - "the output is a strict superset of the input" does not hold either. The model proves a (non-strict) superset: a full mask is unchanged.
- Randomization.GenerateRandomizedMask: requires a 0/1 mask. On other uint8 values `mask | region` is a bitwise OR, which can yield values other than 0 and 1.
- `~original_mask` on a uint8 mask (src/randomization.py:22) is a bitwise NOT (254/255), not the logical complement. The `distance` parameter stands for the distance field of the intended complement.
- LandmarkDetection.DetectLowestMedialLateralPoints: requires at least one z slice. With `z_dim == 0` the source reads an unbound `coords` (a NameError), which is not an error path it means to have.
- The name "lowest" follows the source: the chosen slice is the one with the largest z index that holds foreground.
- Segmentation.CleanMask and Segmentation.MarkSelected: the output array is zero-initialised with the mask's shape, as `np.zeros_like` does. The uint8 element type is modelled as `int` holding 0/1.
