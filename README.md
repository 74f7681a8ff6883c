# Whiteboard sketch animation: a Dafny model

The image-to-animation app turns a still picture into a video of a hand
drawing it on a whiteboard. Its drawing engine (`kivy/sketchApi.py`) works in
these steps:

1. It snaps the picture's size to a standard video resolution.
2. It offers the UI the grid sizes that tile that resolution (`get_split_lens`).
3. On a request (`initiate_sketch`), it cuts the threshold image into square
   cells and paints the cells holding ink one at a time. Each next cell is the
   nearest remaining cell to the last one. Every `skip_rate`-th cell it writes
   a frame with a hand cursor composited at that cell.
4. At the end of each pass it reveals the colour image, and it ends the video
   on a held copy of the colour or threshold image.

The model covers the following:

- `Resolution`: the resolution table, nearest-resolution lookup with NumPy's
  first-minimum tie rule, and snapping height first, then the aspect width.
- `Divisors` and `SplitLens`: the three-loop common-divisor computation and
  the reply `get_split_lens` builds. Its partners are Euclid's algorithm and a
  digit reader for the printed numbers.
- `Hand`: the bounding box of the hand mask, and the crop and blackening of
  the sprite. The crop is NumPy slicing, so it leaves out the box's last row
  and column. It also covers the in-place compositing of the sprite onto a
  frame (`array2`) with clipping at the frame's edges and 8-bit wrap-around.
- `Traversal`: the masked threshold copy, the inked cells in row-major order,
  and the swap-remove / argmin loop written as a specification function
  (`Tour`). The proofs show that the visiting order is a permutation of the
  inked cells, has no repeats, and is greedy.
- `Video` and `Pass`: the video writer as a class whose frames are a sequence
  field, and one drawing pass as imperative code on an `array2` canvas. The
  pass is proved to leave exactly `PassCanvas` and to append exactly
  `PassFrames`.
- `Whiteboard`: the sequence of passes, one per annotated object and then the
  background pass at cell size 20 (or one unmasked pass), the end-hold frames,
  and the writer's lifecycle. The result is proved equal to `Animation`.
- `Sketch`: the output file names and the status/message result of
  `initiate_sketch` for each outcome of directory creation, decoding, drawing
  and transcoding.

## Model

| member | source | states |
|---|---|---|
| ArgMin.FirstArgMin | kivy/sketchApi.py:372 | the index holds a least key and every earlier key is strictly larger (NumPy's first minimum) |
| Resolution.NearestIndex | kivy/sketchApi.py:370-373 | no table entry is strictly closer to the input than the chosen one, and every entry before it is strictly farther |
| Resolution.NearestRes | kivy/sketchApi.py:370-373 | the answer is a table entry, no table entry is closer to the input, and no entry before it in table order is as close (NumPy's first minimum); it is a multiple of 20 |
| Resolution.FirstNearestUnique | kivy/sketchApi.py:372 | the first-in-table tie rule leaves exactly one answer for every input |
| Resolution.TiesFollowTableOrder | kivy/sketchApi.py:371-372 | ties go to the earlier table entry: 420 gives 360 and 560 gives 640 |
| Resolution.Snap | kivy/sketchApi.py:542-546 | the height is the first-in-table resolution nearest the image height; the width is the first-in-table resolution nearest the aspect-preserving width at that height; both are multiples of 20 and of 10 |
| Resolution.TableMultipleOf20 | kivy/sketchApi.py:371 | every standard resolution is positive and a multiple of 20 |
| Divisors.CommonDivisorList | kivy/sketchApi.py:394-419 | the list holds exactly the common divisors between 1 and both numbers, strictly ascending; for positive inputs it starts at 1 and ends at Euclid's Gcd |
| Divisors.GcdDivisors | kivy/sketchApi.py:394-419 | the common divisors of two numbers are exactly the divisors of Gcd, the reference the list's last entry is checked against |
| Divisors.CommonDivisors | kivy/sketchApi.py:394-419 | the three loops and the sort return exactly the common divisors, ascending, from 1 to the Gcd |
| SplitLens.Basename | kivy/sketchApi.py:548 | the name is the path's suffix after its last '/' and holds no '/' |
| SplitLens.DecimalString | kivy/sketchApi.py:550 | the text is a non-empty string of decimal digits without a leading zero (0 prints as "0"), as Python prints an integer |
| SplitLens.DecimalStringRoundTrip | kivy/sketchApi.py:550 | reading the printed digits back gives the printed number |
| SplitLens.PositiveCommonDivisors | kivy/sketchApi.py:547 | for positive multiples of 10, the common-divisor list holds every positive common divisor, and 10 among them |
| SplitLens.ReplyFor | kivy/sketchApi.py:547-550 | the reply names the file and the resolution as width x height, and lists exactly the positive common divisors ascending from 1, with 10 among them |
| SplitLens.GetSplitLens | kivy/sketchApi.py:535-553 | an unreadable image or a zero height gives the fallback reply; otherwise the reply of ReplyFor for the snapped resolution |
| Hand.OnPixels | kivy/sketchApi.py:84 | the listed points are exactly the 255-valued mask pixels |
| Hand.ExtremeCoordinates | kivy/sketchApi.py:83-93 | every 255 pixel lies in the box and each of the four bounds is reached by one |
| Hand.BoxInside | kivy/sketchApi.py:59-61 | the box lies inside the mask with ordered corners, so the crop slices are within bounds |
| Hand.Crop | kivy/sketchApi.py:60-61 | the result has the slice's shape and each entry is the original entry at the offset position |
| Hand.InverseMask | kivy/sketchApi.py:62-66 | each multiplier is the inverse-mask factor of the cropped mask value |
| Hand.Blacken | kivy/sketchApi.py:69-70 | sprite pixels go black exactly where the mask is 0 and are kept elsewhere |
| Hand.CropAsset | kivy/sketchApi.py:59-73 | the asset is well formed, and is the sprite and mask cut to the box with the sprite blackened under the 0 mask |
| Hand.PreprocessHand | kivy/sketchApi.py:55-80 | the asset is the box crop of sprite and mask given by ExtremeCoordinates, inside the mask, well formed |
| Hand.PreprocessKeepsBinary | kivy/sketchApi.py:60-61 | a 0/255 mask stays 0/255 after the crop |
| Hand.InvFactor | kivy/sketchApi.py:62-66 | the inverse-mask multiplier is 1 exactly where the mask is 0, and 0 elsewhere |
| Hand.BlendChannel | kivy/sketchApi.py:122-162 | with factor 0 the channel becomes the sprite sample; with factor 1 it is the frame sample plus the sprite sample, wrapped past 255 as uint8 addition does |
| Hand.BlendPixel | kivy/sketchApi.py:122-162 | with factor 0 the pixel becomes the sprite pixel; with factor 1 and a black sprite pixel the frame pixel is kept |
| Hand.CropExtent | kivy/sketchApi.py:107-117 | the extent is the smaller of the remaining frame size and the hand size |
| Hand.BlendByFactor | kivy/sketchApi.py:122-162 | for a 0/255 mask value with a black sprite under 0, the blend gives the sprite pixel under 255 and the frame pixel under 0 |
| Hand.OverlayComposites | kivy/sketchApi.py:122-162 | with a well-formed binary asset, compositing shows the sprite where the clipped mask is on and the original frame pixel everywhere else |
| Hand.DrawHandOnImg | kivy/sketchApi.py:96-163 | every frame pixel in place becomes the overlay of its old value: blended within the clipped hand rectangle, unchanged outside it |
| Images.Filled | kivy/sketchApi.py:287-289 | every pixel of the picture is the given colour |
| Images.GrayToBgr | kivy/sketchApi.py:356 | every pixel is the grey sample replicated into the three channels |
| Images.Snapshot | kivy/sketchApi.py:219 | the picture copies every pixel of the array canvas |
| Traversal.MaskedThreshold | kivy/sketchApi.py:175-182 | samples are 255 exactly where the object mask is 0 and the threshold sample elsewhere |
| Traversal.BlockInk | kivy/sketchApi.py:195-196 | the block's ink count is positive exactly when some sample in the block is below 10 |
| Traversal.ActiveCells | kivy/sketchApi.py:184-197 | the listed cells are exactly the grid cells whose block holds an ink sample |
| Traversal.ActiveCellsOrdered | kivy/sketchApi.py:197 | the inked cells come in strictly increasing row-major order and none repeats |
| Traversal.SqDist | kivy/sketchApi.py:27-29 | the squared distance is zero exactly for equal cells |
| Traversal.Successor | kivy/sketchApi.py:237-238 | the selected cell is a nearest remaining cell to the last painted one, and the first such |
| Traversal.RemoveAt | kivy/sketchApi.py:231-232 | the list loses one entry; the selected position now holds the old last cell and the others are kept |
| Traversal.RemoveAtMultiset | kivy/sketchApi.py:231-232 | the swap-remove drops exactly the selected cell from the multiset |
| Traversal.RemoveAtDistinct | kivy/sketchApi.py:231-232 | on a list without repeats, the remaining cells are exactly the others and still without repeats |
| Traversal.Tour | kivy/sketchApi.py:200-240 | the loop paints one fewer cell than the list holds (none for an empty list) |
| Traversal.OrderPermutes | kivy/sketchApi.py:200-238 | the painted cells followed by the unpainted last cell are a permutation of the inked cells |
| Traversal.OrderDistinct | kivy/sketchApi.py:200-238 | on a list without repeats, no cell is visited twice |
| Traversal.OrderGreedy | kivy/sketchApi.py:236-238 | each visited cell is a nearest one to its predecessor among the cells not yet visited |
| Traversal.FirstVisitIsFirstActive | kivy/sketchApi.py:184-201 | the first painted cell is the first inked cell in row-major order |
| Traversal.TourWithin | kivy/sketchApi.py:200-238 | painted cells come from the list, and the cell left when the loop ends is never painted |
| Video.VideoWriter.constructor | kivy/sketchApi.py:279-284 | the writer holds the path, codec, rate and frame size, no frames, and is open |
| Video.VideoWriter.Write | kivy/sketchApi.py:242 | an open writer appends the frame; a released one keeps its frames |
| Video.VideoWriter.Release | kivy/sketchApi.py:368 | the writer is released holding exactly the frames written |
| Pass.PassCells | kivy/sketchApi.py:184-197 | the pass's inked cells are exactly the grid cells with ink in the masked threshold |
| Pass.HandX | kivy/sketchApi.py:216 | the hand's column lies in the cell's column of the grid, half a cell (rounded down) from its left edge |
| Pass.HandY | kivy/sketchApi.py:217 | the hand's row lies in the cell's row of the grid, half a cell (rounded down) from its top edge |
| Pass.HandInside | kivy/sketchApi.py:216-217 | the hand's corner at the middle of a grid cell lies inside the frame |
| Pass.PaintCell | kivy/sketchApi.py:202-214 | pixels of the cell become the grey threshold sample and all others are kept |
| Pass.Reveal | kivy/sketchApi.py:247-250 | pixels under the mask (all without one) become the colour image and all others are kept |
| Pass.DrawCell | kivy/sketchApi.py:201-228 | the canvas gains the cell's block and the fresh frame is that canvas with the hand at the cell's middle |
| Pass.VisitCell | kivy/sketchApi.py:201-228 | a canvas painted with the visited cells becomes one painted with the cell added as well |
| Pass.EmitFrame | kivy/sketchApi.py:240-242 | the frame is written exactly when the counter is a multiple of the skip rate, and it is the frame the specification predicts |
| Pass.TourAdvance | kivy/sketchApi.py:231-238 | after one swap-remove and argmin the remaining tour is the specification's tour from the new list |
| Pass.PaintNext | kivy/sketchApi.py:200-242 | one iteration adds the selected cell to the painted ones, shrinks the list by swap-remove, picks its successor and extends the frames by the specification |
| Pass.PaintTour | kivy/sketchApi.py:199-242 | the loop leaves the canvas painted with exactly the tour's cells and appends exactly the tour's frames |
| Pass.DrawMaskedObject | kivy/sketchApi.py:166-250 | the pass completes unless the skip rate is 0 with two or more inked cells; when it completes the canvas is PassCanvas and the frames appended are PassFrames |
| Pass.FramesUpToCount | kivy/sketchApi.py:240-242 | n iterations write n / abs(skip) frames |
| Pass.PassFrameCount | kivy/sketchApi.py:199-242 | a pass over N inked cells writes (N - 1) / abs(skip) frames, none for N = 0 |
| Pass.PassCanvasMeaning | kivy/sketchApi.py:175-250 | after a pass, pixels under the mask show the colour image; pixels of painted cells show the threshold sample, or white outside the mask; pixels of uninked cells and of the unpainted last cell keep their old value |
| Whiteboard.FourCC | kivy/sketchApi.py:275-278 | the codec tag has four characters and is Motion-JPEG exactly on android, MPEG-4 part 2 elsewhere |
| Whiteboard.EndImage | kivy/sketchApi.py:353-356 | the end picture is the colour image when the end colour is chosen, and the threshold image replicated into three channels otherwise |
| Whiteboard.EndFrameCount | kivy/sketchApi.py:359 | the number of end frames is the frame rate times the duration when that is positive, and 0 otherwise |
| Whiteboard.Repeat | kivy/sketchApi.py:359-361 | the sequence holds n copies of the picture |
| Whiteboard.FullPlane | kivy/sketchApi.py:297-299 | the background mask starts all 255 |
| Whiteboard.ClearObject | kivy/sketchApi.py:318-321 | background pixels under the object's 255 pixels become 0 and others are kept |
| Whiteboard.BackgroundMask | kivy/sketchApi.py:297-321 | the background mask is 0 exactly where some object mask is 255 and 255 elsewhere |
| Whiteboard.RunPass | kivy/sketchApi.py:324-328 | a pass completes exactly when PassOk holds, and then it moves canvas and frames to AfterPass |
| Whiteboard.DrawAnnotated | kivy/sketchApi.py:291-342 | the object passes, then the background pass at cell size 20, complete exactly when every pass can, giving the specified canvas and frames |
| Whiteboard.HoldEndImage | kivy/sketchApi.py:359-361 | the writer gains frame_rate x seconds copies of the end image, none for a non-positive product |
| Whiteboard.DrawWhiteboardAnimations | kivy/sketchApi.py:253-368 | a video exists exactly when the hand mask has a 255 pixel and every pass can complete; it is a released writer at the save path with the platform's codec, the rate and the size, holding exactly the Animation's frames |
| Whiteboard.EndHold | kivy/sketchApi.py:352-361 | the video ends with exactly EndFrameCount copies of the end image after the drawing frames |
| Whiteboard.UnannotatedFrameCount | kivy/sketchApi.py:343-361 | without annotations the video has (N - 1) / abs(skip) drawing frames for N inked cells, then the end frames |
| Sketch.VideoName | kivy/sketchApi.py:479-482 | the raw video's name is vid_date_time with .avi on android and .mp4 elsewhere |
| Sketch.H264Name | kivy/sketchApi.py:484 | the transcoded video's name is vid_date_time with _h264.mp4 |
| Sketch.NamesDiffer | kivy/sketchApi.py:484-519 | the raw and transcoded names differ, so unlinking the raw video keeps the transcoded one |
| Sketch.JoinPath | kivy/sketchApi.py:483-485 | the path ends with the file name, joined with one '/' unless the directory already ends in one |
| Sketch.SketchSettings | kivy/sketchApi.py:489-507 | the settings carry the request's parameters at a snapped resolution that the background cells tile |
| Sketch.SketchOutcome | kivy/sketchApi.py:509-532 | the reported status is true exactly when the directory, the decode and the drawing succeeded; then the message is the transcoded path if transcoding and unlinking succeeded and the raw path otherwise; otherwise it names the step that failed |
| Sketch.ReportedPathNamesVideo | kivy/sketchApi.py:515-525 | a reported path is one of the two video files of the request, and the transcoded one only when transcoding succeeded |
| Sketch.InitiateSketch | kivy/sketchApi.py:466-533 | the result is SketchOutcome for whether drawing produced a video; a video is drawn exactly when the earlier steps succeed, the split length is positive, the hand mask has an on pixel and every pass can complete, and it holds the Animation's frames at the raw video path |

## Left out

- Reading images, the annotation JSON and the hand assets from disk are left out. Decoded rasters are parameters, and a failed decode is `None`.
- OpenCV preprocessing is left out: resizing, grey conversion, CLAHE, adaptive thresholding, `fillPoly` and mask resizing. The model takes the resized colour image, its threshold image and the object masks at the output size.
- `ffmpeg_convert` (PyAV transcoding) is left out. Its result and that of `os.unlink` enter `initiate_sketch` as booleans.
- The clock's date and time strings and the success of `os.makedirs` are parameters.
- The UI callback through `Clock.schedule_once`, the `print` diagnostics and timing, `kivy/main.py` and the build recipes are left out.
- The error message text is modelled as an error kind (`Sketch.Failure`) instead of the exception's text.
- Resolution.Snap: the aspect width is computed exactly in integers as `(norm_ht * wd) / ht`, not as `int(norm_ht * (wd / ht))` in floating point. The two can differ by one when rounding makes the float fall just below an integer.
- Traversal.Successor: it compares squared distances instead of `np.sqrt` of them. That selects the same cell, because the square root is monotone.
- Hand.InvFactor: the inverse-mask multiplier is the integer `(255 - m) / 255`. It matches the source's `(255 - m) / 255.0` followed by the uint8 store only for 0/255 masks. A mask with intermediate values is not modelled.
- Pass.DrawMaskedObject: a zero skip rate with two or more inked cells returns failure before painting. The source paints the first cell and then raises. Either way the canvas is discarded and the request reports an error.
- Pass.DrawMaskedObject: it requires an open writer and a cell size that divides both sides; Whiteboard.DrawWhiteboardAnimations and Sketch.InitiateSketch require the same of their split length. A positive split length that does not divide makes `np.split` or a block assignment raise in most cases, but not in every one. The UI only offers split lengths from `get_split_lens`, which all divide both sides.
- Whiteboard.DrawWhiteboardAnimations: on failure the writer the source opened is abandoned without being released. The model reports no video and does not model the partly written file.
- `initiate_sketch` always passes `mask_path = None`, so the annotated branch (`Whiteboard.DrawAnnotated`) is modelled but never reached from `Sketch.InitiateSketch`.
- SplitLens.Basename, Sketch.JoinPath: they follow POSIX paths, splitting and joining on '/' only. On Windows, `os.path` also splits on '\\' and joins with '\\', so there the model's basename keeps the whole path where the source gives the file name.
- SplitLens.GetSplitLens: it does not restate that the last split length is the greatest common divisor. `Divisors.CommonDivisors` states and proves that for the same list, so it is not repeated in the reply's contract.
