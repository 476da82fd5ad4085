# Piano score frame capture, modelled in Dafny

This project models the core of a tool that extracts sheet-music pages
from a piano video (main.py). It has six parts:

- **Pixel bands** (`pixels.dfy`, module `Pixels`). A grayscale pixel is
  *deep* when its value is in [40, 100] and *light* when its value is in
  [160, 216]. The masks that `cv2.inRange` builds are these two predicates.
- **Boundary detector** (`boundary.dfy`, module `Boundary`). This is
  `found_boundary`. A nested loop counts the light pixels of every column
  and every row. The detector keeps the columns with more than 105 light
  pixels and the rows with more than 100. It reports
  `[min_w, max_w, min_h, max_h]`. An axis where nothing is kept gets the
  sentinel `(axis length, 0)`.
- **Region normaliser** (`normalizer.dfy`, module `Normalizer`). This is
  `filter_roi_image`. It rewrites the grayscale array in place over the
  half-open rectangle `[min_h, max_h) x [min_w, max_w)`. A light pixel
  becomes 255. Otherwise a deep pixel becomes 0. Any other pixel keeps its
  value.
- **Sheet-bottom locator** (`sheet.dfy`, module `SheetBottom`). This is
  `find_sheet_bottom`. It scans downward in index from `height/2 - 1` to
  row 1 and returns the first row whose average intensity is above 210.
  If no row qualifies it returns `height/2`.
- **Capture state machine** (`capture.dfy`, module `Capture`). This is the
  loop of `capture_scores_from_video`. The state is `prev_rect`, `interval`
  and the list of saved frames. `Next` is the transition as a pure
  function and `Run` folds it over the frames. The class `Scanner` holds
  the same state in fields and updates it in place. Each of its methods is
  proved to equal the pure transition. `CaptureScores` is the loop over
  the frames the video delivers.
- **Image names** (`naming.dfy`, module `Naming`). This is the
  `score_{frame_index:06d}.png` format, with a parser that proves the name
  of a frame reads back as its index.

Two details of the loop are easy to misread:

- A stalled frame is counted once, not twice. The `continue` at
  main.py:82 skips the increment at line 90.
- The stall test compares the detected left edge with the *frame* width
  `w` (main.py:63, 80). The detector's sentinel is the width of the region
  of interest (main.py:127, 148). The two are equal only when the region
  starts at column 0. The model keeps `w` as its own input.
  `Capture.SentinelStallsOnlyAtFrameWidth` shows that an empty detection
  is not treated as a stall when the two widths differ.

## Model

| member | source | states |
|---|---|---|
| `Pixels.MasksDisjoint` | main.py:129-134 | no pixel is in both the deep band [40,100] and the light band [160,216] |
| `Pixels.Normalize` | main.py:163-166 | defined as: light becomes 255, otherwise deep becomes 0, otherwise the value is kept; its contract states that only a banded pixel changes, that it changes to 255 or 0, and that the result is in neither band |
| `Boundary.CountLight` | main.py:135-141 | after the nested loop, `w[j]` is the number of light pixels in column j and `h[i]` the number in row i; `sum(w) == sum(h)` |
| `Boundary.TotalsAgree` | main.py:135-141 | counting the light pixels of any top-left block by columns gives the same total as counting them by rows |
| `Boundary.Qualifying` | main.py:142-143 | the filtered list holds exactly the indices whose count exceeds the threshold, in strictly increasing order |
| `Boundary.MinOf` | main.py:145 | the minimum is an element of the list and no element is smaller |
| `Boundary.MaxOf` | main.py:146 | the maximum is an element of the list and no element is larger |
| `Boundary.AxisExtent` | main.py:142-155 | the result is the sentinel `(len, 0)` if and only if no count exceeds the threshold; otherwise `0 <= lo <= hi < len`, both ends exceed the threshold and no index outside `[lo, hi]` does |
| `Boundary.FoundBoundary` | main.py:126-157 | the column axis is the sentinel `(width, 0)` iff no column has more than 105 light pixels; otherwise its ends are the first and last such column. The row axis behaves the same way with 100 and `(height, 0)`. The two axes are independent and the rectangle fits the image |
| `Boundary.Detect` | main.py:126-157 | defined as the column extent (threshold 105) and the row extent (threshold 100) of the light counts, in the order `[min_w, max_w, min_h, max_h]`; its contract states that the rectangle fits the image and that each axis is either the sentinel or an ordered pair of indices inside the axis |
| `Boundary.NoLightGivesSentinel` | main.py:142-156 | an image with no light pixel yields `[width, 0, height, 0]` |
| `Boundary.SingleBlockDetected` | main.py:135-156 | when the light pixels form exactly one block taller than 105 rows and wider than 100 columns, the detector returns that block's coordinates |
| `Normalizer.FilterRoi` | main.py:159-166 | inside `[min_h,max_h) x [min_w,max_w)`, light becomes 255, otherwise deep becomes 0, otherwise the pixel is unchanged; every pixel outside, including row `max_h` and column `max_w`, is unchanged; an empty range changes nothing |
| `SheetBottom.RowSum` | main.py:24 | a row sum of 8-bit pixels lies between 0 and 255 times the row length |
| `SheetBottom.IsBright` | main.py:25 | defined as `row_sum > 210*width`; a bright row is never empty |
| `SheetBottom.BrightIsAverageAbove` | main.py:25 | for a positive width, `row_sum > 210*width` holds exactly when the exact quotient `row_sum / width` exceeds 210 |
| `SheetBottom.FindSheetBottom` | main.py:20-28 | the result is the largest row r with `1 <= r < height/2` whose average exceeds 210, with every row above it up to `height/2 - 1` failing the test; when no such row exists the result is `height/2`; row 0 is never examined |
| `Naming.ImageName` | main.py:14 | defined as `score_`, the zero-padded index and `.png`; its contract states the name is at least 16 characters, starts with `score_`, ends with `.png`, and has only digits in between |
| `Naming.Padded` | main.py:14 | the `06d` field has only digits and at least six characters |
| `Naming.NameRoundTrip` | main.py:14 | parsing the saved name of frame n gives back n |
| `Naming.ImageNameInjective` | main.py:14 | two different frames are never saved under the same name |
| `Naming.ImageNameLength` | main.py:14 | below frame 1000000 every name has exactly 16 characters |
| `Capture.Detected` | main.py:78-91 | the three cases of the decision for a frame inside the window: stall, save or hold. Its contract states that the outcome is one of those three and that the loop is not left. The frame is appended to the saved list exactly on a save. `interval` is 1 after a save and one more than before otherwise. `prev_rect` is kept on a stall and becomes the new edge otherwise |
| `Capture.Next` | main.py:69-91 | one loop pass: the frame-window gate, then `Detected`. Its contract states that a stopped loop stays as it is. The loop is left (Ended) exactly when it was already stopped or the frame is past `end_frame`, and then only the stop flag changes. A frame before `start_frame` changes nothing. A saved frame lies in the window and is appended to the saved list, which otherwise stays the same |
| `Capture.Run` | main.py:58-91 | the loop as a fold of `Next` over the frames read, in order. Its contract states that the saved list only grows, keeping its earlier entries, and by at most one entry per frame read. Once the loop has stopped, the state never changes |
| `Capture.StallRule` | main.py:80-82 | when `start_rect == w` and `interval <= 400`, nothing is saved, `interval` grows by exactly 1 and `prev_rect` is unchanged |
| `Capture.CaptureRule` | main.py:84-91 | outside a stall, a frame is saved iff `prev_rect < 0`, or `start_rect + 100 < prev_rect`, or `interval > 400`. After a save `interval` is 1; otherwise it grows by 1. In both cases `prev_rect` becomes `start_rect` |
| `Capture.FirstDetectionCaptures` | main.py:55-56 | from the unset `prev_rect` of -999, the first frame that is not a stall is always saved |
| `Capture.EarlyFrameIgnored` | main.py:72-73 | a frame before `start_frame` leaves the state unchanged |
| `Capture.SentinelStallsOnlyAtFrameWidth` | main.py:80 | an edge that differs from the frame width (for example the sentinel of a region narrower than the frame) is never a stall |
| `Capture.RunKeepsIntervalBounded` | main.py:56-91 | over any sequence of frames, `interval` stays between 0 and 401 |
| `Capture.RunAfterStop` | main.py:69-70 | once a frame past `end_frame` has been seen, later frames change nothing |
| `Capture.RunCaptures` | main.py:67-91 | every saved frame is a frame that was read and lies in `[start_frame, end_frame]`; when frame indices increase, the saved indices strictly increase |
| `Capture.ConstantEdgeCapturesOnce` | main.py:78-91 | with the edges 150, 150, 150, 150 in a 640-wide frame, only the first frame is saved |
| `Capture.StallThenReturnCapturesOnce` | main.py:78-91 | with the edges 150, 150, 640, 640, 150 in a 640-wide frame, the two empty frames are stalls that keep `prev_rect` at 150, so only the first frame is saved |
| `Capture.LeftJumpCaptures` | main.py:84 | an edge that jumps from 500 to 50 is saved whatever the interval |
| `Capture.Scanner.constructor` | main.py:54-56 | the loop starts with `prev_rect = -999`, `interval = 0` and no saved image |
| `Capture.Scanner.Decide` | main.py:78-91 | the in-place update of the fields is the pure transition `Detected`, and `interval` stays at most 401 |
| `Capture.Scanner.Step` | main.py:69-91 | one loop pass given the detected edge: the new fields are the pure `Next` of the old ones |
| `Capture.Scanner.ProcessFrame` | main.py:69-91 | one loop pass on the region of interest: the detector's own left edge decides (`Next`); the region is normalised in place exactly when the frame is saved, and is untouched otherwise |
| `Capture.CaptureScores` | main.py:53-94 | the saved frames are those of `Run` over the delivered frames; they lie in the window, come from the input, and strictly increase when the input indices do |

## Left out

- The colour conversions `cv2.cvtColor` (main.py:21, 128, 167) are library calls whose weighting and rounding are not visible. The model starts from grayscale values 0..255.
- The diagnostic rectangle drawn by `cv2.rectangle` (main.py:168) is not modelled. It does not affect any decision.
- The masks of `cv2.inRange` (main.py:133-134) are represented by the predicates `IsDeep` and `IsLight` rather than by 0/255 arrays.
- Video I/O (main.py:34-40, 59-67) is not modelled. This includes opening the video, the early `return []` when it cannot be opened, `cap.read` and the property queries. The frames arrive as a sequence of `Frame(index, start_rect, w)`, and the end of that sequence stands for a failed read.
- The conversion of the time window to frame numbers (main.py:42-51) uses floating point. `start_frame` and `end_frame` are taken as given integers.
- The ROI slice `frame[y:y+h, x:x+w]` (main.py:75) is not modelled. `ProcessFrame` takes the region of interest as given. So the call to `find_sheet_bottom` at main.py:65, whose result only sizes that slice, is not connected to the loop.
- Saving images (main.py:11-18, 86) is not modelled: directory creation, `cv2.imwrite`, `print` and joining the output directory into the path. `image_paths` is represented by the saved frame indices. The file name of each is `Naming.ImageName` of its index.
- `Naming.ImageName` takes a non-negative frame index. The sign that `06d` would print for a negative index is not modelled, because frame positions are never negative.
- `SheetBottom.FindSheetBottom` compares the integers `row_sum > 210*width` instead of the float quotient `row_sum / width > 210`. The two differ only through float rounding when the sum is a few units above `210*width` and the width is far beyond any frame width. `BrightIsAverageAbove` proves they agree on exact quotients. The row sum is unbounded, and the NumPy accumulator (at least 32-bit) cannot overflow for 8-bit rows of realistic width.
- `SheetBottom.FindSheetBottom` requires a positive width whenever the scan examines a row (height at least 4). That is the case where `main.py` divides by zero.
- `Normalizer.FilterRoi` requires the rectangle to lie within the image with non-negative bounds. Every rectangle the detector returns does (`Boundary.FoundBoundary` ensures `Fits`). Python's wrap-around of negative indices is therefore not modelled.
- The PDF assembly (`PDFWithScores`, `create_pdf_with_multiple_scores`, main.py:96-124) is not modelled. It uses float scaling and foreign FPDF/PIL calls.
- `is_roi_blank` (main.py:7-9) computes a float standard deviation and is never called.
- The parameters `threshold`, `min_frames_gap`, `skip_blank` and `blank_threshold` are never read, so they are not modelled. Neither is the unused variable `now_rect` (main.py:55).
- The hard-coded configuration and the entry point `main()` (main.py:171-199) are not modelled.
