# Mars-Rover arrow recognition and rover steering, modelled in Dafny

This project models the logic of two small vision pipelines.

- **Arrow recognition** (`arrow_recognition.py`): a contour is accepted as an arrow when its
  polygon has 7 vertices and its convex hull has 5. The tip is found by matching vertices at
  fixed offsets from the two vertices off the hull. The direction comes from counting the
  vertices on either side of the tip. Separately, the best template-matching score over the
  scales is kept.
- **Rover steering** (`src/scripts/pub.py`): the largest contour of a colour mask gives a
  centroid. A proportional controller turns its horizontal error into a velocity command. It
  publishes a stop command when the target is centred.

The OpenCV and ROS calls are not modelled; their results enter the model as values. These are
polygon vertices, hull indices, per-scale (score, location) samples, contour areas and moments,
and the image width. The ROS publisher becomes the log `published` of the messages handed to it.

Files:

- `wrappers.dfy`: `Option`, which stands for Python's `None`-or-value returns.
- `arrow_recognition.dfy`: module `ArrowRecognition`.
  - Python's wrap-around indexing (`PyIndex`) and `np.setdiff1d` (`Complement`).
  - The acceptance test, `identify_arrow_tip`, `determine_direction`, the `process_frame`
    loop and the `template_matching` loop.
- `rover_steering.dfy`: module `RoverSteering`.
  - `get_max_contour`, `calculate_error`, Python's `int()` truncation and the steering decision.
  - Class `RoverController`, whose `moveCmd` field and `published` log are updated in place by
    `ImageCallback` and `StopRover`.

`IdentifyArrowTip` follows `identify_arrow_tip` literally, including its `IndexError` (a
`TipResult` constructor). It is proved equal to the closed-form `TipByCoincidence`. On every
polygon the acceptance test lets through, the error cannot happen (`ArrowTipDefined`), whatever
five indices the hull holds. Distinctness of the hull indices, which `cv2.convexHull`
guarantees, is needed only for "exactly two" vertices off the hull (`ArrowComplementHasTwo`).

Steering, per `image_callback`:
- When the target is centred, `image_callback` publishes two messages: the move command
  (pub.py:43), then the stop command from `stop_rover` (pub.py:47, 61).
- When there is no contour or m00 <= 0, nothing is published (pub.py:50-53).

## Model

| member | source | states |
|---|---|---|
| `ArrowRecognition.PyIndex` | arrow_recognition.py:29 | Python indexing: defined exactly for -len <= idx < len, and then equal to idx mod len (negative indices count from the end) |
| `ArrowRecognition.Complement` | arrow_recognition.py:26 | every element of setdiff1d(arange(n), hull) is below n and not a hull index |
| `ArrowRecognition.ComplementComplete` | arrow_recognition.py:26 | every index below n that is not a hull index is in the complement |
| `ArrowRecognition.ComplementIncreasing` | arrow_recognition.py:26 | the complement is strictly increasing (sorted, no duplicates) |
| `ArrowRecognition.ComplementSize` | arrow_recognition.py:26 | the complement's length plus the number of distinct in-range hull indices is n |
| `ArrowRecognition.ArrowComplementHasTwo` | arrow_recognition.py:59-60 | with 7 vertices and 5 distinct in-range hull indices, exactly two sorted indices are off the hull |
| `ArrowRecognition.IsArrowCandidate` | arrow_recognition.py:59 | the acceptance condition holds exactly when the hull has 5 indices and the polygon 7 vertices |
| `ArrowRecognition.TipByCoincidence` | arrow_recognition.py:27-31 | with at least two off-hull indices and two vertices the search cannot raise IndexError |
| `ArrowRecognition.TipIsVertex` | arrow_recognition.py:28-30 | a returned tip is a polygon vertex, namely points[(rem[i] + 2) mod n] for some probe i in {0, 1} |
| `ArrowRecognition.IdentifyArrowTip` | arrow_recognition.py:25-31 | the two-iteration loop with Python indexing and early return gives: the probe-0 tip if points[(r0+2) mod n] == points[(r_last-2) mod n], else the probe-1 tip if points[(r1+2) mod n] == points[(r0-2) mod n], else None, or IndexError exactly where Python raises it |
| `ArrowRecognition.HullSetBound` | arrow_recognition.py:26 | a hull of m indices rules out at most m indices |
| `ArrowRecognition.ArrowTipDefined` | arrow_recognition.py:26-29 | on an accepted polygon, for any five hull indices, at least two vertices are off the hull, every index used is in range and no IndexError arises |
| `ArrowRecognition.CountGreaterX` | arrow_recognition.py:34 | `left_points`: the number of vertices strictly right of the tip's x, at most the vertex count |
| `ArrowRecognition.CountLessX` | arrow_recognition.py:35 | `right_points`: the number of vertices strictly left of the tip's x, at most the vertex count |
| `ArrowRecognition.CountsPartition` | arrow_recognition.py:34-35 | vertices right of, left of and level with the tip's x add up to the vertex count, so left + right <= vertex count |
| `ArrowRecognition.VertexOnItsOwnLine` | arrow_recognition.py:34-35 | a tip that is a vertex is counted on neither side |
| `ArrowRecognition.SidesBound` | arrow_recognition.py:34-35 | for a tip taken from the polygon, left + right <= vertex count - 1 |
| `ArrowRecognition.DetermineDirection` | arrow_recognition.py:33-41 | "Left" iff the count right of the tip beats the other count and is at least 5; "Right" symmetrically; equal counts give "None" |
| `ArrowRecognition.DirectionMargin` | arrow_recognition.py:37-41 | on a 7-vertex polygon whose tip is a vertex, a decided direction leaves at most one vertex on the losing side |
| `ArrowRecognition.MirrorSwapsCounts` | arrow_recognition.py:34-35 | reflecting the polygon about the y axis swaps the two side counts |
| `ArrowRecognition.DirectionMirror` | arrow_recognition.py:37-41 | the direction rule is symmetric: the mirrored arrow gets the opposite direction |
| `ArrowRecognition.ComplementOfTwo` | arrow_recognition.py:26 | a hull leaving out exactly the indices lo < hi of 0..6 has complement [lo, hi] |
| `ArrowRecognition.ArrowLayoutTip` | arrow_recognition.py:25-31 | on any 7-vertex polygon with distinct vertices whose only off-hull vertices lie two steps either side of vertex t, the locator returns vertex t, for every t in 0..6: probe 0 for t = 2, 3, 4, probe 1 through the wraparound of (r1 + 2) mod 7 or of the negative index r0 - 2 for t = 0, 1, 5, 6 |
| `ArrowRecognition.RightArrowCounts` | arrow_recognition.py:34-35 | on the concrete right-pointing outline no vertex is right of the tip and six are left of it |
| `ArrowRecognition.RightArrowExample` | arrow_recognition.py:25-41 | on a concrete right-pointing 7-vertex outline (an instance of ArrowLayoutTip with t = 3) the heuristic finds the real tip and reports Right |
| `ArrowRecognition.ShapeTip` | arrow_recognition.py:60 | the tip found on a contour's vertices and flattened hull indices is one of its vertices, and on an accepted contour the call never raises |
| `ArrowRecognition.Classify` | arrow_recognition.py:59-66 | a contour is reported iff it passes the acceptance test, has a tip, and the tip's direction is not "None"; the report carries exactly the tip found, which is a vertex, and that direction |
| `ArrowRecognition.FrameReports` | arrow_recognition.py:55-66 | each report of a frame belongs to a contour that passes all tests, and reports come in contour order |
| `ArrowRecognition.FrameReportsComplete` | arrow_recognition.py:55-66 | every contour that passes all tests is reported |
| `ArrowRecognition.ProcessFrame` | arrow_recognition.py:53-68 | the loop over the contours produces exactly the reports of FrameReports |
| `ArrowRecognition.TemplateMatching` | arrow_recognition.py:43-51 | the sentinel {-1, -1, -1} iff no score exceeds 0.8; otherwise the maximum score, which exceeds 0.8, with the location and scale of the first scale index reaching it |
| `RoverSteering.TruncToInt` | src/scripts/pub.py:37-38 | int() truncates toward zero: the result is within one of the argument on the side of zero |
| `RoverSteering.FirstMaxIndex` | src/scripts/pub.py:109-111 | the index of a contour of maximal area, with every earlier contour strictly smaller |
| `RoverSteering.GetMaxContour` | src/scripts/pub.py:109-111 | None iff there are no contours; otherwise a contour of maximal area, the first one on ties |
| `RoverSteering.CalculateError` | src/scripts/pub.py:117-119 | twice the error is exactly 2*cx - width; the error is negative or zero exactly when the centroid is left of or on the centre |
| `RoverSteering.Track` | src/scripts/pub.py:33-38 | no objects iff no contours; no valid contour iff the largest contour has m00 <= 0; otherwise the centroid (m10/m00, m01/m00) of that largest contour, truncated toward zero |
| `RoverSteering.Commands` | src/scripts/pub.py:36-47 | nothing is published without a valid centroid; otherwise first a move with linear 0.1 and angular -0.01 * error, turning toward the target, then a stop exactly when \|2*cx - width\| < 40 |
| `RoverSteering.RoverController.constructor` | src/scripts/pub.py:16 | a controller starts with a zero move command and nothing published |
| `RoverSteering.RoverController.StopRover` | src/scripts/pub.py:57-61 | both velocities become 0 and exactly one zero command is appended to the published log |
| `RoverSteering.RoverController.ImageCallback` | src/scripts/pub.py:20-55 | appends exactly Commands(width, contours) to the log; move_cmd is unchanged when nothing is published, and is otherwise the last published command; the invariant "move_cmd equals the last published message" is kept |

## Left out

- The OpenCV primitives are foreign library calls: Canny, morphology, blur, colour conversion,
  `inRange`, `findContours`, `approxPolyDP`, `convexHull`, `matchTemplate`, `resize`,
  `minMaxLoc`, `moments` and `contourArea`. Their outputs are inputs of the model.
- Drawing, `print`, `rospy.loginfo` and `imshow`/`waitKey` (`display_image`) are output only.
  A `process_frame` report is modelled as a `Report` value.
- The camera capture loops (`main` of `arrow_recognition.py`, `examples/example_script.py`)
  are I/O driver loops.
- ROS node setup, the subscriber, `spin` and the thin wrappers `init_rospy`,
  `create_publisher`, `create_subscriber`, `create_cv_bridge`, `image_processing`,
  `find_contours` and `calculate_moments` are middleware or a single library call.
- The CvBridge conversion failure at the top of `image_callback` is transport glue. The model
  starts after a successful conversion, with the image width as a parameter.
- `match_and_annotate` is left out: it draws a box and computes the bearing with
  `atan2`/`degrees`, which is floating-point numerics. The template scales of `np.linspace` are
  also left out.
- TemplateMatching: the `scale` field holds the index of the scale, not its floating-point
  value.
- Floating point is modelled as exact reals: the scores, the centroid quotients `M['m10'] / M['m00']`
  and `M['m01'] / M['m00']` before `int()`, `-0.01 * error_x`, and `cx - width / 2`. No rounding
  is modelled. A quotient that float rounding pushes across an integer can truncate to a
  different `cx` in Python than in the model.
- Twist: only `linear.x` and `angular.z` are modelled. The other four components are never
  written and stay 0.
- ImageCallback: the log records each message's value at the moment `publish` is called.
- `setup.py` is packaging metadata.
