# Camera 2D feature tracking: Harris suppression scan and main-loop rules

This project models two parts of a camera-based feature tracking program for
the KITTI sequence.

**The Harris keypoint scan.** `detKeypointsHarris` first computes a corner
response map. It then walks that map in row-major order. Each pixel whose
response is above 100 becomes a candidate keypoint of diameter 6. The
candidate is reconciled with the keypoint vector in place:

- every keypoint that overlaps the candidate is a conflict;
- every conflicting keypoint with a smaller response is overwritten by the
  candidate;
- the candidate is appended only when nothing overlapped it.

**The rules inside the main loop.** These are:

- choosing the detector and descriptor from the command line;
- building each image file name, with a zero-padded number;
- the ring buffer of frames;
- the filter that keeps only keypoints on the preceding vehicle;
- the guard that matches the last two frames.

Files:

- `keypoint.dfy` (module `KeyPoints`): the keypoint record, and the overlap
  test reduced to integers. Two circles overlap when both diameters are
  positive and the centres are closer than the sum of the radii. At the Harris
  diameter of 6 this means a squared distance below 36.
- `harris_nms.dfy` (module `HarrisNms`):
  - the scan as the method `DetectKeypointsHarris`, with the inner
    reconcile loop as `ReconcileCandidate`;
  - both methods are proved equal to the functional specifications `Suppress`
    (a row-major fold over the grid) and `Reconcile`;
  - lemmas about those specifications.
- `camera_pipeline.dfy` (module `CameraPipeline`):
  - the argument selection and the file names;
  - the bounding-box filter, as the method `FilterKeypoints` and its
    specification `KeepOnVehicle`;
  - the ring buffer, as the class `FrameBuffer` whose `frames` field the
    methods update;
  - the main loop, as `RunPipeline`, with the keypoint detector as a
    parameter.

Two behaviours of the code are easy to misread:

- A candidate overwrites *every* conflicting keypoint with a smaller response,
  not just the first one. The inner loop at src/matching2D_Student.cpp:146-160
  has no `break`.
- The vector is *not* free of overlapping keypoints after the scan
  (src/matching2D_Student.cpp:154-163). One strong candidate can overwrite two
  separated weaker keypoints and leave two equal entries behind
  (`ScanLeavesOverlappingKeypoints`).

The ring buffer also pops its front only when it already holds more than
`dataBufferSize` = 2 frames. So it holds up to 3 frames, not the 2 its comment
states. The model keeps the code's behaviour.

## Model

| member | source | states |
|---|---|---|
| KeyPoints.OverlapsSymmetric | src/matching2D_Student.cpp:152 | The overlap test used for conflicts does not depend on argument order |
| KeyPoints.OverlapsAtDiameterSix | src/matching2D_Student.cpp:140-154 | Two keypoints of the Harris diameter 6 conflict exactly when their centres are less than 6 pixels apart |
| HarrisNms.ReconcileCandidate | src/matching2D_Student.cpp:144-163 | The in-place loop over the vector, with its overlap flag, yields exactly `Reconcile(keypoints, cand)` |
| HarrisNms.ReconcileEffect | src/matching2D_Student.cpp:144-163 | The candidate is appended if and only if it overlaps nothing present, and it then overlaps no entry. Otherwise the length is unchanged. Each conflicting weaker entry becomes the candidate. Conflicting entries with equal or greater response and non-conflicting entries are unchanged. No stored response decreases |
| HarrisNms.DetectKeypointsHarris | src/matching2D_Student.cpp:129-168 | The nested row/column loops produce exactly `Suppress(g, keypoints)`, the row-major fold of the per-pixel step over the grid. The result is a deterministic function of grid and input vector |
| HarrisNms.SuppressNeverRemoves | src/matching2D_Student.cpp:146-163 | The scan never shortens the vector, and the response stored at each original index never decreases |
| HarrisNms.SuppressProvenance | src/matching2D_Student.cpp:130-142 | Every entry of the result is either the original keypoint at that index or a keypoint created at a pixel inside the grid (x = column, y = row). That keypoint's response equals the pixel value, which is above 100, and its size is 6 |
| HarrisNms.QuietMapChangesNothing | src/matching2D_Student.cpp:137 | A response map with no pixel above 100 leaves the keypoint vector unchanged |
| HarrisNms.SuppressGrowth | src/matching2D_Student.cpp:137-163 | The vector grows by at most the number of pixels above 100 and never shrinks |
| HarrisNms.DominatesTransitive | src/matching2D_Student.cpp:157-158 | "Keeps every index, never lowers a response" composes across scan steps |
| HarrisNms.SinglePeak | src/matching2D_Student.cpp:129-163 | One strong pixel at (row 1, column 1) gives the single keypoint (x 1, y 1, response 200, size 6) |
| HarrisNms.SeparatedPeaks | src/matching2D_Student.cpp:129-163 | Two strong pixels 7 columns apart both become keypoints, in scan order |
| HarrisNms.AscendingPeaks | src/matching2D_Student.cpp:154-158 | A later, stronger overlapping candidate overwrites the earlier keypoint |
| HarrisNms.DescendingPeaks | src/matching2D_Student.cpp:154-163 | A later, weaker overlapping candidate is neither stored nor appended |
| HarrisNms.ReplacementDuplicates | src/matching2D_Student.cpp:146-160 | A candidate that overlaps two weaker keypoints overwrites both |
| HarrisNms.ScanRowSkipsWeak | src/matching2D_Student.cpp:137 | A run of pixels at or below 100 in a row leaves the vector as it is |
| HarrisNms.DuplicatingMapFirstRow | src/matching2D_Student.cpp:130-163 | Scanning the first row of a two-row example map leaves its two separated peaks |
| HarrisNms.DuplicatingMapSecondRow | src/matching2D_Student.cpp:130-163 | The stronger pixel of the second row overwrites both peaks, leaving two identical entries |
| HarrisNms.ScanLeavesOverlappingKeypoints | src/matching2D_Student.cpp:146-163 | The scan's result can hold two overlapping (identical) keypoints, so pairwise non-overlap is not an invariant of the scan |
| CameraPipeline.SelectTypes | src/MidTermProject_Camera_Student.cpp:35-48 | With argc 3 the types are argv[1] and argv[2]; with argc 1 both are "AKAZE"; otherwise both stay empty |
| CameraPipeline.Decimal | src/MidTermProject_Camera_Student.cpp:75 | The decimal rendering of the index is non-empty, all digits and has no leading zero |
| CameraPipeline.ZeroPad | src/MidTermProject_Camera_Student.cpp:75 | Padding to width 4 never truncates: the length is max(4, length). The original text is the suffix, and everything before it is '0' |
| CameraPipeline.ImageNumber | src/MidTermProject_Camera_Student.cpp:74-75 | The image number has at least 4 characters, all digits |
| CameraPipeline.ImageFilenameParts | src/MidTermProject_Camera_Student.cpp:55-76 | The full name is base path plus prefix, then the padded number, then ".png" |
| CameraPipeline.DecimalValue | src/MidTermProject_Camera_Student.cpp:75 | Reading the decimal rendering back gives the index |
| CameraPipeline.ZeroFillValue | src/MidTermProject_Camera_Student.cpp:75 | Leading '0' fill does not change the value of the digits |
| CameraPipeline.ImageNumberValue | src/MidTermProject_Camera_Student.cpp:74-75 | Reading the padded image number back gives the index |
| CameraPipeline.ImageFilenameInjective | src/MidTermProject_Camera_Student.cpp:74-76 | Different image indices give different file names |
| CameraPipeline.FilterKeypoints | src/MidTermProject_Camera_Student.cpp:116-127 | The filter loop yields exactly `KeepOnVehicle(keypoints)` |
| CameraPipeline.KeepOnVehicleMembers | src/MidTermProject_Camera_Student.cpp:117-125 | A keypoint is in the output if and only if it is in the input, its point lies in Rect(535,180,180,150) (half-open) and its size is at most 180 |
| CameraPipeline.KeepOnVehicleIsSubsequence | src/MidTermProject_Camera_Student.cpp:121-126 | The output is an order-preserving subsequence of the input |
| CameraPipeline.KeepOnVehicleMultiplicity | src/MidTermProject_Camera_Student.cpp:121-126 | Every occurrence of an on-vehicle keypoint is kept, repeats included, and no occurrence of any other keypoint is |
| CameraPipeline.Pushed | src/MidTermProject_Camera_Student.cpp:63-93 | The front is popped only when more than 2 frames are held: the length stays the same then and grows by one otherwise. The new frame is last and the other frames are a suffix of the old buffer, in order |
| CameraPipeline.PushedRecent | src/MidTermProject_Camera_Student.cpp:90-93 | Pushing onto the last 3 frames of a history gives the last 3 frames of the extended history |
| CameraPipeline.PushAllKeepsRecent | src/MidTermProject_Camera_Student.cpp:63-93 | After any sequence of pushes from empty, the buffer holds exactly the last min(n, 3) frames pushed |
| CameraPipeline.MatchPair | src/MidTermProject_Camera_Student.cpp:176-192 | Matching happens if and only if the buffer holds more than one frame, and it pairs the second-to-last frame with the last |
| CameraPipeline.PushedMatchesPrevious | src/MidTermProject_Camera_Student.cpp:90-192 | After a push, the matched pair is the previously last frame and the new frame, or nothing if the buffer was empty |
| CameraPipeline.PushedThenSetLast | src/MidTermProject_Camera_Student.cpp:86-157 | Pushing a frame without keypoints and then storing keypoints in the newest frame gives the same buffer as pushing the frame with those keypoints |
| CameraPipeline.FrameBuffer.constructor | src/MidTermProject_Camera_Student.cpp:64 | The buffer starts empty |
| CameraPipeline.FrameBuffer.Push | src/MidTermProject_Camera_Student.cpp:90-93 | The pop-front-then-push-back update turns the frames into `Pushed(old frames, frame)` and keeps at most 3 frames |
| CameraPipeline.FrameBuffer.SetLastKeypoints | src/MidTermProject_Camera_Student.cpp:157 | Only the last frame's keypoints are replaced; every other frame is unchanged and the bound of 3 frames is kept |
| CameraPipeline.FrameBuffer.ProcessImage | src/MidTermProject_Camera_Student.cpp:86-192 | One loop iteration pushes a frame holding the filtered keypoints. It then yields the pair (previous last frame, new frame), or nothing on the first image |
| CameraPipeline.ConsecutivePairsAt | src/MidTermProject_Camera_Student.cpp:176-192 | A history of n frames yields n - 1 matched pairs, and pair i holds frames i and i + 1 |
| CameraPipeline.RunPipeline | src/MidTermProject_Camera_Student.cpp:67-222 | Over images 0..1 the loop matches one pair fewer than the number of images, and the i-th pair is the frames of images i and i+1 with their filtered keypoints |

## Left out

- The response computation is not modelled: `cv::cornerHarris`, `cv::normalize` and `cv::convertScaleAbs` are floating-point library numerics. The scan takes the integer response grid as input, already truncated from float as the `int` conversion does.
- KeepOnVehicleMembers: keypoint positions (`Point2f`) and sizes are `float` in the source, and the default detector AKAZE gives sub-pixel positions and non-integer sizes. The filter is modelled on integer positions and sizes only. Sub-pixel points, fractional sizes and any rounding of the point inside `cv::Rect::contains` (older OpenCV releases convert it to an integer point first) are not modelled.
- FilterKeypoints: the same restriction to integer keypoint positions and sizes applies, so the loop's behaviour on sub-pixel keypoints is not covered.
- KeepOnVehicleMultiplicity, KeepOnVehicleIsSubsequence: stated over the integer keypoint record, with the same restriction.
- `cv::KeyPoint::overlap` is modelled as a positive-area test on integer centres and sizes, not as the floating-point intersection-over-union ratio. Rounding of that ratio near tangency is not modelled. Sizes are taken to be non-negative: for a negative size the library takes its containment branch and can report an overlap, which the integer test does not.
- FrameBuffer.ProcessImage: the descriptor step between storing the keypoints and matching (src/MidTermProject_Camera_Student.cpp:168) is not modelled. The model assumes the descriptor type is "BRISK" and that `compute` leaves the newest frame's keypoints unchanged. In the source, `descKeypoints` takes the keypoint vector by reference (src/matching2D_Student.cpp:42), and BRISK's `compute` may drop keypoints it cannot describe. For any other descriptor type the extractor stays null (src/matching2D_Student.cpp:45-59), so line 63 dereferences a null pointer. That includes the default "AKAZE" and the empty name chosen for other argument counts.
- RunPipeline: under the same assumption, each matched pair holds the filtered keypoints of images i and i + 1. With a descriptor type other than "BRISK", including the default "AKAZE", the source aborts on the first image and matches nothing. With "BRISK", the matched frames hold whatever keypoints `compute` kept.
- `matchDescriptors` and `descKeypoints` are left out. They wrap OpenCV matchers and extractors, and the model only records which two frames are matched, not the matches or descriptors.
- The Shi-Tomasi detector is left out (a library call and a copy loop). The empty SIFT, FAST and BRISK detector functions are left out too.
- `callDetector` is not part of this model. `RunPipeline` receives the detector as a function from file name to keypoints.
- Image loading and grayscale conversion are left out, and so are visualization, timing and console output.
- The `DataFrame` record keeps only its image (named by the file name) and its keypoints. Descriptors and matches are not modelled.
- The keypoint limiter is disabled by a constant `false`, and the `bFocusOnVehicle == false` branch is dead. Neither is modelled.
- `dst_norm.rows` and `dst_norm.cols` are taken as the grid's dimensions. Integer widths do not matter here, because the indices stay far below 32 bits.
- A threshold other than the constant 100 is not considered, so there is no property relating different thresholds.
