/**
  The frame loop of `detect_video` with its local variables `seen_faces`, `num_faces` and
  `frame_count` held as the fields of a tracker object, each method proved to follow the rules
  stated as functions in module FaceTracking.
*/
module Tracker {
  import opened FaceTracking

  class Tracker<F> {
    /** `seen_faces`, in insertion order. */
    var faces: seq<Face<F>>
    /** `num_faces`: the detection count of the last sampled frame that was not skipped. */
    var numFaces: nat
    /** `frame_count`: 0-based position of the frame read last, -1 before the first read. */
    var frameCount: int

    ghost function State(): TrackState<F>
      reads this
    {
      TrackState(faces, numFaces)
    }

    constructor ()
      ensures faces == [] && numFaces == 0 && frameCount == -1
    {
      faces := [];
      numFaces := 0;
      frameCount := -1;
    }

    /** One iteration of `for face in detected_faces`: scan the registry in order against each
        face's latest sighting, join the first match, or append a new face. `ok` is false when the
        recogniser raised, which abandons the detection. */
    method AddSighting(d: Detection<F>, m: Matcher<F>) returns (ok: bool)
      requires AllSeen(faces)
      modifies this
      ensures (faces, ok) == Register(old(faces), d, m)
      ensures numFaces == old(numFaces) && frameCount == old(frameCount)
    {
      var seen := false;
      var i := 0;
      while i < |faces|
        invariant 0 <= i <= |faces|
        invariant faces == old(faces) && !seen
        invariant FirstMatch(faces, 0, d.frame, d.box, m) == FirstMatch(faces, i, d.frame, d.box, m)
      {
        var last := Latest(faces[i]);
        var result := m(d.frame, d.box, last.frame, last.box);
        if result.MatchFailed? {
          ok := false;
          return;
        }
        if result.same {
          seen := true;
          faces := faces[i := Joined(faces[i], d)];
          break;
        }
        i := i + 1;
      }
      if !seen {
        faces := faces + [NewFace(|faces|, d)];
      }
      ok := true;
    }

    /** The `try` block for the sampled frame `frameCount`: infer, skip when the count is unchanged,
        otherwise record the count and register every box in order. An exception from the detector
        leaves everything as it was; one from the recogniser ends the frame, keeping what was
        registered before it and the new count. */
    method ProcessFrame(frame: F, detect: Detector<F>, m: Matcher<F>)
      requires AllSeen(faces) && 0 <= frameCount
      modifies this
      ensures frameCount == old(frameCount)
      ensures State() == Step(old(State()), frameCount, frame, detect, m)
    {
      var inference := detect(frame);
      if inference.Raised? {
        return;
      }
      var detected := inference.found.GetOr([]);
      if numFaces == |detected| {
        return;
      }
      numFaces := |detected|;
      var j := 0;
      while j < |detected|
        invariant 0 <= j <= |detected|
        invariant AllSeen(faces)
        invariant numFaces == |detected| && frameCount == old(frameCount)
        invariant RegisterAll(old(faces), frameCount, frame, detected, m)
                  == RegisterAll(faces, frameCount, frame, detected[j..], m)
      {
        assert detected[j..][0] == detected[j] && detected[j..][1..] == detected[j + 1..];
        var ok := AddSighting(Detection(frameCount, frame, detected[j]), m);
        if !ok {
          return;
        }
        j := j + 1;
      }
    }

    /** `while video.isOpened()`: read every frame, count it, and run the sampled ones through
        `ProcessFrame`. `ok` is false for the ZeroDivisionError a stride of 0 raises at the first
        frame (the modulo stands outside the `try`). */
    method Run(video: seq<F>, stride: int, detect: Detector<F>, m: Matcher<F>) returns (ok: bool)
      requires faces == [] && numFaces == 0 && frameCount == -1
      modifies this
      ensures ok <==> stride != 0 || |video| == 0
      ensures ok ==> State() == TrackPrefix(video, |video|, stride, detect, m)
    {
      while frameCount + 1 < |video|
        invariant -1 <= frameCount < |video|
        invariant 0 <= frameCount ==> stride != 0
        invariant State() == TrackPrefix(video, frameCount + 1, stride, detect, m)
      {
        var frame := video[frameCount + 1];
        frameCount := frameCount + 1;
        if stride == 0 {
          ok := false;
          return;
        }
        if frameCount % stride != 0 {
          continue;
        }
        ProcessFrame(frame, detect, m);
      }
      ok := true;
    }
  }

  /** `detect_video(path, min_seconds)` with the frames already decoded and the stride
      `int(fps * min_seconds)` given: the registry, or the ZeroDivisionError of a zero stride. */
  method DetectVideo<F>(video: seq<F>, stride: int, detect: Detector<F>, m: Matcher<F>) returns (r: TrackOutcome<F>)
    ensures r == TrackVideo(video, stride, detect, m)
  {
    var tracker := new Tracker();
    var ok := tracker.Run(video, stride, detect, m);
    r := if ok then Tracked(tracker.faces) else DivisionByZero;
  }
}
