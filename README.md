# faceblur face detection core in Dafny

This project models the face-detection core of the faceblur backend, `backend/src/face_detection.py`. That core provides four operations:

- **detect_img** runs the low-confidence face detector once on a still image. It keeps the first four fields `(x, y, w, h)` of every detection.
- **detect_video** finds the significant faces of a video:
  - It reads every frame but examines only every `stride`-th one. The stride is `int(fps * min_seconds)`.
  - It skips a sampled frame when the detection count has not changed since the last examined frame.
  - Otherwise it compares each detected box with the latest sighting of every known face, in registration order. The box joins the first face the recogniser says is the same person.
  - A box that matches no face becomes a new face labelled `face_<n>`.
  - An exception inside a frame ends that frame's work. What the frame had already registered stays.
- **blur_faces_img** and **smile_faces_img** clamp each box to the image and obscure the clamped region in place, box by box. Blur uses a Gaussian blur whose kernel comes from the unclamped box size. Smile alpha-blends a resized smiley. Both then encode the image.
- **obscure_faces** dispatches on the style. Any other style raises `ValueError`.

Layout:

- **Detector, recogniser and OpenCV calls:** these are parameters (oracles).
  - The detector is `Detector<F>`. It either raises or returns boxes or nothing.
  - The recogniser is `Matcher<F>`. It either raises or gives a verdict.
  - The image primitives are a `Toolkit`. Blur, resize and encode may fail, standing for `cv2.error`.
- **Tracking rules:** module `FaceTracking` states them as ghost functions over values (`FirstMatch`, `Register`, `RegisterAll`, `Step`, `TrackPrefix`, `TrackVideo`). Their properties are lemmas in `TrackingProperties`.
- **Tracking loop:** the loop itself is `class Tracker.Tracker`. Its fields are the loop's variables `seen_faces`, `num_faces` and `frame_count`. Each of its methods is proved equal to the matching function.
- **Image:** the image is an `array2` of opaque pixels, written with a slice assignment (`PaintRegion`). The obscuring methods are proved to leave the array equal to the specification function `ObscureAll`. Its properties are in `ObscuringProperties`.

Three behaviours of the code that the model keeps:

- **Stride of 0.** `int(fps * min_seconds)` (line 75) can be 0. The modulo at line 90 then raises `ZeroDivisionError` at the first frame. That line is outside the `try`, so the call fails (`TrackOutcome.DivisionByZero`).
- **Partial frames.** An exception inside a frame's `try` keeps the faces registered earlier in that frame, and the `num_faces` already recorded at line 105.
- **Box sizes.** Box sizes are not checked: a negative width or height reaches the clamping and the kernel computation unchanged.

## Model

| member | source | states |
|---|---|---|
| ImageDetection.DetectImg | backend/src/face_detection.py:59-61 | no detection gives no boxes; one box per row, each the first min(4, row length) fields of its row |
| ImageDetection.DetectImgBoxes | backend/src/face_detection.py:61 | every box has at most four fields, and a row of four or more values yields exactly its leading x, y, w, h |
| Labels.Decimal | backend/src/face_detection.py:123 | the decimal form of n is non-empty, all digits, one digit exactly when n < 10, ends with the digit n % 10, and starts with 0 only for n = 0 (no leading zero) |
| Labels.DecimalInjective | backend/src/face_detection.py:123 | different numbers have different decimal forms |
| Labels.LabelForm | backend/src/face_detection.py:123 | a label is "face_" followed by the decimal digits of the number, at least one of them |
| Labels.LabelInjective | backend/src/face_detection.py:123 | faces registered at different counts get different labels |
| FaceTracking.Boxes | backend/src/face_detection.py:98-99 | a detector result of None counts as zero boxes; otherwise its boxes |
| FaceTracking.FirstMatch | backend/src/face_detection.py:112-120 | Found(i) exactly when face i is the first whose latest sighting the recogniser calls the same person, with every earlier answer "different"; NotFound when all answers are "different"; ScanFailed when the recogniser raises before any match |
| FaceTracking.Joined | backend/src/face_detection.py:119 | adding a sighting keeps the face's label and earlier sightings and makes the new sighting its latest, the one later boxes are compared against |
| FaceTracking.NewFace | backend/src/face_detection.py:123-124 | a new face is labelled "face_" followed by the decimal count plus one, and holds exactly one sighting, which is its latest |
| FaceTracking.Register | backend/src/face_detection.py:107-125 | every face keeps at least one sighting; a raised comparison leaves the registry unchanged |
| FaceTracking.RegisterAll | backend/src/face_detection.py:107-129 | registering the boxes of a frame in order keeps every face with at least one sighting |
| FaceTracking.Step | backend/src/face_detection.py:96-129 | a raising detector changes nothing; otherwise `num_faces` becomes the detection count; an unchanged count leaves the registry untouched |
| FaceTracking.Sampled | backend/src/face_detection.py:90 | frame i is examined exactly when it is a whole multiple of the stride; below the stride's magnitude only frame 0 is |
| FaceTracking.TrackPrefix | backend/src/face_detection.py:83-129 | the registry after any prefix of the video has a sighting for every face |
| FaceTracking.TrackVideo | backend/src/face_detection.py:63-135 | the run fails with ZeroDivisionError exactly when the stride is 0 and the video has a frame; otherwise every returned face has a sighting; an empty video returns no faces |
| TrackingProperties.RegisterJoinsFirstMatch | backend/src/face_detection.py:112-120 | when face i is the first match, the box is appended to face i's sightings, its label and every other face stay as they were, and no face is added |
| TrackingProperties.RegisterCreatesFace | backend/src/face_detection.py:122-125 | when no face matches, exactly one face is appended, labelled face_(count+1), holding only this sighting |
| TrackingProperties.RegisterFailure | backend/src/face_detection.py:112-129 | when the recogniser raises before any match, the registry is unchanged and the box is dropped |
| TrackingProperties.RegisterAddsOne | backend/src/face_detection.py:107-125 | registering a box only ever appends (labels kept, sightings extended), and a successful one adds exactly one sighting in total |
| TrackingProperties.JoinWellFormed | backend/src/face_detection.py:117-119 | joining a sighting to a face keeps labels sequential and sightings in frame order from sampled frames |
| TrackingProperties.JoinedWellFormed | backend/src/face_detection.py:119 | adding a sighting of the sampled frame being processed keeps a face's label, its sightings in frame order and their origin in sampled frames |
| TrackingProperties.AppendWellFormed | backend/src/face_detection.py:122-125 | appending a new face keeps labels sequential and sightings in frame order from sampled frames |
| TrackingProperties.RegisterWellFormed | backend/src/face_detection.py:107-125 | registering a box from a sampled frame no earlier than any sighting keeps the registry well formed |
| TrackingProperties.RegisterAllCounts | backend/src/face_detection.py:107-129 | a frame's registrations only append; total sightings grow by at most the box count, and by exactly the box count when nothing raised |
| TrackingProperties.RegisterAllKeepsEarlierAppends | backend/src/face_detection.py:107-129 | when box j raises, the registry is what the boxes before j left: the earlier appends persist and no later box is registered |
| TrackingProperties.RegisterAllWellFormed | backend/src/face_detection.py:107-125 | registering a frame's boxes keeps the registry well formed |
| TrackingProperties.SamplingRule | backend/src/face_detection.py:88-91 | frame 0 is always examined; frame i goes through the `try` block exactly when the stride divides i (Python's and Dafny's remainders agree on zero for either sign of the stride), and other frames change nothing |
| TrackingProperties.StepWellFormed | backend/src/face_detection.py:96-129 | the work on a sampled frame keeps the registry well formed |
| TrackingProperties.OnlyFirstFrameBelowStride | backend/src/face_detection.py:88-91 | when the video has no more frames than the stride's magnitude, only frame 0 is analysed: the registry is the one frame 0's detections build from an empty registry |
| TrackingProperties.StepGrows | backend/src/face_detection.py:96-129 | the work on one frame only appends faces and sightings |
| TrackingProperties.TrackWellFormed | backend/src/face_detection.py:83-129 | after any prefix: labels are face_1, face_2, ... in order, every face has a sighting, sightings are in frame order and come only from sampled frames of the video |
| TrackingProperties.FrameGrows | backend/src/face_detection.py:88-129 | reading one more frame, sampled or not, only appends faces and sightings |
| TrackingProperties.TrackGrows | backend/src/face_detection.py:83-129 | the registry only grows while the video is read: faces are never removed or renamed and sightings are never lost |
| TrackingProperties.SteadyCountFreezes | backend/src/face_detection.py:101-105 | while every sampled frame from position k on returns exactly the count recorded after frame k, registry and count stay as they were after frame k, however the boxes move |
| TrackingProperties.SteadyVideo | backend/src/face_detection.py:77-105 | a video whose every frame has c detections yields what its first frame yields, and nothing at all when c is 0 |
| TrackingProperties.LabelsDistinct | backend/src/face_detection.py:123 | in a well-formed registry no two faces share a label |
| TrackingProperties.TrackVideoResult | backend/src/face_detection.py:63-135 | the call fails with ZeroDivisionError exactly when the stride is 0 and the video has a frame; otherwise the registry is well formed with distinct labels |
| Tracker.Tracker.constructor | backend/src/face_detection.py:76-78 | the tracker starts with no faces, count 0 and frame position -1 |
| Tracker.Tracker.AddSighting | backend/src/face_detection.py:107-125 | the registry and the success flag after the scan are those of `Register` |
| Tracker.Tracker.ProcessFrame | backend/src/face_detection.py:96-129 | the new registry and count are those of `Step` on the old ones; the frame position is kept |
| Tracker.Tracker.Run | backend/src/face_detection.py:83-91 | succeeds exactly when the stride is nonzero or the video is empty, and then leaves the state `TrackPrefix` gives for the whole video |
| Tracker.DetectVideo | backend/src/face_detection.py:63-135 | the result is `TrackVideo` of the video, stride, detector and recogniser |
| Geometry.Clamp | backend/src/face_detection.py:147-150 | the slice starts at or after 0 and ends at or before the image edge; a box inside the image is its own slice |
| Geometry.ClampIsIntersection | backend/src/face_detection.py:147-150 | a pixel is in the slice exactly when it is in both the box and the image |
| Geometry.TruncFifth | backend/src/face_detection.py:151 | the result is v / 5 truncated toward zero: for v >= 0 it is at most v/5 and more than v/5 - 1, with the mirror for v < 0 |
| Geometry.KernelSize | backend/src/face_detection.py:151 | the kernel side is odd, at least 1 and at most 2*min(w,h)/5 + 1 for non-negative sizes, and exactly 1 when the smaller side is below 5 in magnitude |
| Obscuring.Snapshot | backend/src/face_detection.py:143 | the image is read as a grid of its height and width |
| Obscuring.Crop | backend/src/face_detection.py:153 | the cropped region has the rows and columns of the clamped slice |
| Obscuring.Paint | backend/src/face_detection.py:154 | assigning a slice keeps the image's shape |
| Obscuring.Overlay | backend/src/face_detection.py:174-179 | the blended region has the shape of the region |
| Obscuring.Obscured | backend/src/face_detection.py:147-179 | when the blur or resize succeeds under well-behaved primitives, its output has the clamped slice's shape |
| Obscuring.ObscureAll | backend/src/face_detection.py:145-179 | the image keeps its height and width through every box |
| Obscuring.PaintRegion | backend/src/face_detection.py:154 | the array afterwards is the slice assignment applied to its old contents |
| Obscuring.FailureIsFinal | backend/src/face_detection.py:145-154 | once a primitive raises, no later box is processed and the image stays as it was at that point |
| Obscuring.BlurBox | backend/src/face_detection.py:146-154 | one box: the array afterwards is its old contents with the blurred clamped region written in, or unchanged when the blur raised |
| Obscuring.SmileBox | backend/src/face_detection.py:168-179 | one box: the array afterwards is its old contents with the blended smiley written into the clamped region, or unchanged when the resize raised |
| Obscuring.BlurFacesImg | backend/src/face_detection.py:137-156 | the array afterwards is `ObscureAll(Blur, ...)` of its old contents, whatever happens later; the call succeeds exactly when no blur raised and the final image could be encoded, returning the encoding with the original height and width; every failure is a `cv2.error` |
| Obscuring.SmileFacesImg | backend/src/face_detection.py:158-181 | the array afterwards is `ObscureAll(Smile, ...)` of its old contents, whatever happens later; success exactly when no resize raised and the final image could be encoded, with the encoding and the original height and width; every failure is a `cv2.error` |
| Obscuring.ObscureFaces | backend/src/face_detection.py:183-195 | an unrecognised style fails with InvalidStyle and leaves every pixel unchanged; blur and smile behave as the functions they dispatch to, including encoding failures, and fail only with a `cv2.error` |
| ObscuringProperties.PaintCells | backend/src/face_detection.py:154 | the definition of `Paint` read at one pixel (an unfolding helper): a pixel inside the slice holds the corresponding output pixel and every other pixel is unchanged |
| ObscuringProperties.PaintEmpty | backend/src/face_detection.py:153-154 | assigning an empty slice changes nothing |
| ObscuringProperties.OutsideBoxesUntouched | backend/src/face_detection.py:145-154 | a pixel outside every box's clamped region keeps its value, whether or not a primitive raised |
| ObscuringProperties.OffImageBoxWritesNothing | backend/src/face_detection.py:147-154 | a box wholly outside the image changes no pixel when its primitive succeeds |
| ObscuringProperties.Snoc | backend/src/face_detection.py:145-154 | processing `boxes + [b]` is processing `boxes` and then b |
| ObscuringProperties.LastBoxWins | backend/src/face_detection.py:145-154 | boxes are applied in list order: when the earlier boxes and the last box all succeed, the whole list succeeds, and inside the last box's region the pixel is what that box's primitive computed from the image the earlier boxes left |
| ObscuringProperties.BlurRegion | backend/src/face_detection.py:151-154 | for a box inside the image the blur is applied to exactly the box's pixels, with the kernel from its width and height |

## Left out

- The HTTP layer (`backend/app.py`), file handling (`backend/src/file.py`) and the frontend are not part of this model.
- `src/face.py`, `src/sface.py`, `src/yunet.py` and `src/styles.py` are not part of this model:
  - The face's `add_detection` is assumed to append the sighting `(frame, box, confidence)`.
  - `BlurStyle` is assumed to have the two members BLUR and SMILE.
- Loading the models and the OpenCV version check (lines 13-29 and 70-73) are left out. So are `setInputSize` (lines 57 and 97) and reading `frame.shape` (line 93).
- The detector, the recogniser and every OpenCV call are oracles given as parameters. Their numerics are not modelled:
  - Blur and resize either fail (standing for `cv2.error`) or, under `Sane`, return a region of the requested shape.
  - Encoding either fails or returns bytes, for any extension and image. Which ones OpenCV actually rejects, for instance an extension it has no encoder for, is left to the oracle.
- Opening, reading and releasing the video (lines 68, 83-86, 132): the video is the sequence of frames read before the end.
- The frame rate and the float product `fps * min_seconds` (line 75) are left out: the stride is given as an integer.
- Printing and timing (lines 80-81, 126, 129, 131-133) are left out.
- The confidence value of a detection (line 110) is not kept in a sighting.
- A sighting records the frame's position in the video. The source does not record it. The model uses the position to state that sightings are in frame order.
- Face objects are mutated in place in the source. The model holds them as values in the registry sequence, so aliasing between faces is not modelled; the source never shares one face between two registry entries.
- Boxes are four integers. Python's `int()` of the detector's float fields (line 61) is left out, and so are the float boxes the tracking loop passes to the recogniser (line 109). The unpacking error for a detection that is not four values long (lines 146, 168) is left out too.
- Obscuring.ObscureAll: negative slice bounds in numpy count from the end of the axis. The obscuring members require `NoWrap`, so that a box's far corner is not left of or above the image origin, and do not model that wrap-around.
- Geometry.TruncFifth: equals `int(v * 0.2)` only while the float product is exact enough, which holds for any image size; rounding of very large floats is not modelled.
- Obscuring.Overlay: the float alpha blend and the per-channel loop (lines 174-179) are one opaque per-pixel `composite`. Rounding of the blended values back into the image type is left to it.
- Whether OpenCV raises for an empty region or a degenerate kernel is left to the oracles.
- Obscuring.Snapshot: the image is a 2-D array of whole pixels, so the channel axis is not modelled separately.
- The commented-out code (lines 31-52 and 197-224) is not modelled.
