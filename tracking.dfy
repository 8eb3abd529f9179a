/**
  The incremental face-tracking rules of `detect_video`, as functions over values.

  A video is the sequence of frames `video.read()` delivers before it reports the end; `F` is the
  (opaque) frame type. The high-confidence detector and the recogniser are oracles: the detector
  maps a frame to its boxes (or to an exception), the recogniser compares a box in one frame with a
  box in another (or raises). The class `Tracker.Tracker` runs the same rules imperatively and is
  proved equal to `TrackPrefix` below.
*/
module FaceTracking {
  import opened Common
  import opened Geometry
  import opened Labels

  /** One sighting of a face: the frame it was seen in, that frame's 0-based position in the
      video (`frame_count`), and the box. The detector's confidence is not modelled. */
  datatype Detection<F> = Detection(index: nat, frame: F, box: Box)

  /** A tracked identity: its label (`name`, as `label` is a Dafny keyword) and its sightings, oldest first. */
  datatype Face<F> = Face(name: string, detections: seq<Detection<F>>)

  /** What `face_detector_hi.infer(frame)` does: raise, or return an array of rows (or None). */
  datatype Inference = Raised | Inferred(found: Option<seq<Box>>)

  /** What `face_recognizor.match(...)` does: raise, or give its verdict `result[1] == 1`. */
  datatype MatchResult = MatchFailed | Compared(same: bool)

  type Detector<!F> = F -> Inference
  type Matcher<!F> = (F, Box, F, Box) -> MatchResult

  /** The boxes of an inference, none when the detector found nothing. */
  function Boxes(inf: Inference): (boxes: seq<Box>)
    requires inf.Inferred?
    ensures inf.found.Some? ==> boxes == inf.found.value
    ensures inf.found.None? ==> boxes == []
  {
    inf.found.GetOr([])
  }

  /** Every face has at least one sighting, so reading its latest sighting never fails. */
  ghost predicate AllSeen<F>(faces: seq<Face<F>>) {
    forall i :: 0 <= i < |faces| ==> |faces[i].detections| > 0
  }

  /** The latest sighting of a face. */
  function Latest<F>(f: Face<F>): Detection<F>
    requires |f.detections| > 0
  {
    f.detections[|f.detections| - 1]
  }

  /** The recogniser's answer for `box` in `frame` against the latest sighting of face j. */
  ghost function Ask<F>(faces: seq<Face<F>>, j: nat, frame: F, box: Box, m: Matcher<F>): MatchResult
    requires j < |faces| && |faces[j].detections| > 0
  {
    var last := Latest(faces[j]);
    m(frame, box, last.frame, last.box)
  }

  /** Faces lo..hi-1 were all asked and all answered "not the same face". */
  ghost predicate NoneMatch<F>(faces: seq<Face<F>>, lo: nat, hi: nat, frame: F, box: Box, m: Matcher<F>)
    requires lo <= hi <= |faces| && AllSeen(faces)
  {
    forall j :: lo <= j < hi ==> Ask(faces, j, frame, box, m) == Compared(false)
  }

  /** Outcome of the scan `for seen_face in seen_faces`. */
  datatype Scan = Found(at: nat) | NotFound | ScanFailed

  /** The registry scan from position `from` on, in insertion order, stopping at the first face
      that matches (`break`) or at the first exception raised by the recogniser. */
  ghost function FirstMatch<F>(faces: seq<Face<F>>, from: nat, frame: F, box: Box, m: Matcher<F>): (r: Scan)
    requires from <= |faces| && AllSeen(faces)
    ensures r.Found? ==> from <= r.at < |faces| && Ask(faces, r.at, frame, box, m) == Compared(true)
                         && NoneMatch(faces, from, r.at, frame, box, m)
    ensures r.NotFound? ==> NoneMatch(faces, from, |faces|, frame, box, m)
    ensures r.ScanFailed? ==> exists j :: from <= j < |faces| && Ask(faces, j, frame, box, m) == MatchFailed
                                          && NoneMatch(faces, from, j, frame, box, m)
    decreases |faces| - from
  {
    if from == |faces| then NotFound
    else match Ask(faces, from, frame, box, m)
      case MatchFailed => ScanFailed
      case Compared(same) => if same then Found(from) else FirstMatch(faces, from + 1, frame, box, m)
  }

  /** A face with one more sighting appended: its label and earlier sightings are kept, and the
      new sighting becomes the one later boxes are compared against. */
  function Joined<F>(f: Face<F>, d: Detection<F>): (r: Face<F>)
    ensures r.name == f.name && |r.detections| == |f.detections| + 1
    ensures r.detections[..|f.detections|] == f.detections && Latest(r) == d
  {
    f.(detections := f.detections + [d])
  }

  /** The face created when `registered` faces are known: labelled with the next number and
      seeded with its first sighting, which is also its latest. */
  function NewFace<F>(registered: nat, d: Detection<F>): (r: Face<F>)
    ensures |r.name| > 5 && r.name[..5] == "face_" && r.name[5..] == Decimal(registered + 1)
    ensures |r.detections| == 1 && Latest(r) == d
  {
    Face(Label(registered + 1), [d])
  }

  /** One iteration of `for face in detected_faces`: join the first matching face, or register a
      new one; the boolean is false when the recogniser raised, in which case nothing changed. */
  ghost function Register<F>(faces: seq<Face<F>>, d: Detection<F>, m: Matcher<F>): (r: (seq<Face<F>>, bool))
    requires AllSeen(faces)
    ensures AllSeen(r.0)
    ensures !r.1 ==> r.0 == faces
  {
    match FirstMatch(faces, 0, d.frame, d.box, m)
    case Found(i) => (faces[i := Joined(faces[i], d)], true)
    case NotFound => (faces + [NewFace(|faces|, d)], true)
    case ScanFailed => (faces, false)
  }

  /** The loop `for face in detected_faces` over one frame's boxes, in order; an exception ends it,
      keeping the registrations made before it. */
  ghost function RegisterAll<F>(faces: seq<Face<F>>, index: nat, frame: F, boxes: seq<Box>, m: Matcher<F>): (r: (seq<Face<F>>, bool))
    requires AllSeen(faces)
    ensures AllSeen(r.0)
    decreases |boxes|
  {
    if boxes == [] then (faces, true)
    else
      var step := Register(faces, Detection(index, frame, boxes[0]), m);
      if step.1 then RegisterAll(step.0, index, frame, boxes[1..], m) else (faces, false)
  }

  /** The tracking variables `seen_faces` and `num_faces`. */
  datatype TrackState<F> = TrackState(faces: seq<Face<F>>, numFaces: nat)

  /** The `try` block for one sampled frame. */
  ghost function Step<F>(st: TrackState<F>, index: nat, frame: F, detect: Detector<F>, m: Matcher<F>): (r: TrackState<F>)
    requires AllSeen(st.faces)
    ensures AllSeen(r.faces)
    ensures detect(frame).Raised? ==> r == st
    ensures detect(frame).Inferred? ==> r.numFaces == |Boxes(detect(frame))|
    ensures detect(frame).Inferred? && |Boxes(detect(frame))| == st.numFaces ==> r == st
  {
    match detect(frame)
    case Raised => st
    case Inferred(_) =>
      var boxes := Boxes(detect(frame));
      if st.numFaces == |boxes| then st
      else TrackState(RegisterAll(st.faces, index, frame, boxes, m).0, |boxes|)
  }

  /** Frame i is examined when the stride divides it; Python's remainder and Dafny's agree on when
      it is 0, for either sign of the stride. */
  predicate Sampled(i: nat, stride: int)
    requires stride != 0
    ensures Sampled(i, stride) <==> (i / stride) * stride == i
    ensures i < stride || i < -stride ==> (Sampled(i, stride) <==> i == 0)
  {
    i % stride == 0
  }

  /** The tracking state after the first n frames have been read. */
  ghost function TrackPrefix<F>(video: seq<F>, n: nat, stride: int, detect: Detector<F>, m: Matcher<F>): (st: TrackState<F>)
    requires n <= |video| && (n == 0 || stride != 0)
    ensures AllSeen(st.faces)
  {
    if n == 0 then TrackState([], 0)
    else
      var prev := TrackPrefix(video, n - 1, stride, detect, m);
      if Sampled(n - 1, stride) then Step(prev, n - 1, video[n - 1], detect, m) else prev
  }

  /** What `detect_video` returns: the registry, or the ZeroDivisionError that the modulo outside
      the `try` raises on the first frame when the stride is 0. */
  datatype TrackOutcome<F> = Tracked(faces: seq<Face<F>>) | DivisionByZero

  ghost function TrackVideo<F>(video: seq<F>, stride: int, detect: Detector<F>, m: Matcher<F>): (r: TrackOutcome<F>)
    ensures r.DivisionByZero? <==> stride == 0 && |video| > 0
    ensures r.Tracked? ==> AllSeen(r.faces)
    ensures |video| == 0 ==> r == Tracked([])
  {
    if stride == 0 && |video| > 0 then DivisionByZero
    else Tracked(TrackPrefix(video, |video|, stride, detect, m).faces)
  }
}
