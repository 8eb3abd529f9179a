/** What the tracking rules guarantee: first match wins, new faces get the next label, the
    registry only grows, and a steady face count freezes it. */
module TrackingProperties {
  import opened Geometry
  import opened Labels
  import opened FaceTracking

  /** Total number of sightings across all faces. */
  function Total<F>(faces: seq<Face<F>>): nat {
    if faces == [] then 0 else Total(faces[..|faces| - 1]) + |faces[|faces| - 1].detections|
  }

  /** `b` is `a` after appends only: no face removed or reordered or renamed, and every face's
      sightings extended at the end. */
  ghost predicate Grows<F>(a: seq<Face<F>>, b: seq<Face<F>>) {
    |a| <= |b| &&
    forall i :: 0 <= i < |a| ==> b[i].name == a[i].name && a[i].detections <= b[i].detections
  }

  /** The i-th face (0-based) is labelled `face_{i+1}`. */
  ghost predicate Labelled<F>(faces: seq<Face<F>>) {
    forall i :: 0 <= i < |faces| ==> faces[i].name == Label(i + 1)
  }

  /** The face's sightings are in frame order. */
  ghost predicate InOrder<F>(f: Face<F>) {
    forall k, l :: 0 <= k <= l < |f.detections| ==> f.detections[k].index <= f.detections[l].index
  }

  /** Every sighting of the face shows its frame, a sampled one among the first `bound` frames of
      the video. */
  ghost predicate SightingsFrom<F>(f: Face<F>, video: seq<F>, stride: int, bound: nat)
    requires stride != 0
  {
    forall k :: 0 <= k < |f.detections| ==>
      var d := f.detections[k];
      d.index < bound && d.index < |video| && video[d.index] == d.frame && Sampled(d.index, stride)
  }

  /** What the face at position i (0-based) of a registry built after `bound` frames satisfies:
      it is labelled `face_{i+1}`, has a sighting, and its sightings are in frame order and come
      from sampled frames already read. */
  ghost predicate FaceWellFormed<F>(f: Face<F>, i: nat, video: seq<F>, stride: int, bound: nat)
    requires stride != 0
  {
    |f.detections| > 0 && f.name == Label(i + 1) && InOrder(f) && SightingsFrom(f, video, stride, bound)
  }

  /** Everything a registry built by the tracker satisfies after `bound` frames. */
  ghost predicate WellFormed<F>(faces: seq<Face<F>>, video: seq<F>, stride: int, bound: nat)
    requires stride != 0
  {
    forall i :: 0 <= i < |faces| ==> FaceWellFormed(faces[i], i, video, stride, bound)
  }

  // ---------------------------------------------------------------- counting and growth

  lemma TotalAppend<F>(faces: seq<Face<F>>, f: Face<F>)
    ensures Total(faces + [f]) == Total(faces) + |f.detections|
  {
    assert (faces + [f])[..|faces|] == faces;
  }

  lemma {:induction false} TotalUpdate<F>(faces: seq<Face<F>>, i: nat, f: Face<F>)
    requires i < |faces|
    ensures Total(faces[i := f]) + |faces[i].detections| == Total(faces) + |f.detections|
    decreases |faces|
  {
    var n := |faces|;
    var g := faces[i := f];
    if i == n - 1 {
      assert g[..n - 1] == faces[..n - 1];
    } else {
      assert g[..n - 1] == faces[..n - 1][i := f];
      TotalUpdate(faces[..n - 1], i, f);
    }
  }

  lemma GrowsReflexive<F>(a: seq<Face<F>>)
    ensures Grows(a, a)
  {
  }

  lemma GrowsTransitive<F>(a: seq<Face<F>>, b: seq<Face<F>>, c: seq<Face<F>>)
    requires Grows(a, b) && Grows(b, c)
    ensures Grows(a, c)
  {
    forall i | 0 <= i < |a|
      ensures c[i].name == a[i].name && a[i].detections <= c[i].detections
    {
      assert a[i].detections <= b[i].detections <= c[i].detections;
    }
  }

  // ---------------------------------------------------------------- one detection

  /** A detection joins the first face, in registry order, whose latest sighting the recogniser
      accepts; faces before it were all asked and refused, faces after it are not consulted, and no
      other face changes. */
  lemma RegisterJoinsFirstMatch<F>(faces: seq<Face<F>>, d: Detection<F>, m: Matcher<F>, i: nat)
    requires AllSeen(faces) && i < |faces|
    requires NoneMatch(faces, 0, i, d.frame, d.box, m)
    requires Ask(faces, i, d.frame, d.box, m) == Compared(true)
    ensures Register(faces, d, m).1
    ensures |Register(faces, d, m).0| == |faces|
    ensures Register(faces, d, m).0[i].detections == faces[i].detections + [d]
    ensures Register(faces, d, m).0[i].name == faces[i].name
    ensures forall j :: 0 <= j < |faces| && j != i ==> Register(faces, d, m).0[j] == faces[j]
  {
    match FirstMatch(faces, 0, d.frame, d.box, m)
    case Found(j) =>
      if j != i {
        assert false;
      }
    case NotFound =>
      assert false;
    case ScanFailed =>
      assert false;
  }

  /** When every face refuses the detection, exactly one face is appended, labelled
      `face_{n+1}` for a registry of n faces, holding just that detection. */
  lemma RegisterCreatesFace<F>(faces: seq<Face<F>>, d: Detection<F>, m: Matcher<F>)
    requires AllSeen(faces)
    requires NoneMatch(faces, 0, |faces|, d.frame, d.box, m)
    ensures Register(faces, d, m) == (faces + [Face(Label(|faces| + 1), [d])], true)
  {
    match FirstMatch(faces, 0, d.frame, d.box, m)
    case Found(j) =>
      assert false;
    case NotFound =>
    case ScanFailed =>
      assert false;
  }

  /** When the recogniser raises before any face accepted, the registry is left as it was. */
  lemma RegisterFailure<F>(faces: seq<Face<F>>, d: Detection<F>, m: Matcher<F>, j: nat)
    requires AllSeen(faces) && j < |faces|
    requires NoneMatch(faces, 0, j, d.frame, d.box, m)
    requires Ask(faces, j, d.frame, d.box, m) == MatchFailed
    ensures Register(faces, d, m) == (faces, false)
  {
    match FirstMatch(faces, 0, d.frame, d.box, m)
    case Found(i) =>
      assert false;
    case NotFound =>
      assert false;
    case ScanFailed =>
  }

  /** A registered detection adds exactly one sighting to the registry, which only grows. */
  lemma RegisterAddsOne<F>(faces: seq<Face<F>>, d: Detection<F>, m: Matcher<F>)
    requires AllSeen(faces)
    ensures Grows(faces, Register(faces, d, m).0)
    ensures Register(faces, d, m).1 ==> Total(Register(faces, d, m).0) == Total(faces) + 1
  {
    match FirstMatch(faces, 0, d.frame, d.box, m)
    case Found(i) =>
      TotalUpdate(faces, i, Joined(faces[i], d));
      assert faces[i].detections <= Joined(faces[i], d).detections;
    case NotFound =>
      TotalAppend(faces, NewFace(|faces|, d));
    case ScanFailed =>
  }

  /** Replacing face i by a face fit for position i keeps the registry well formed. */
  lemma UpdateWellFormed<F>(faces: seq<Face<F>>, i: nat, g: Face<F>, video: seq<F>, stride: int, bound: nat)
    requires stride != 0 && i < |faces| && WellFormed(faces, video, stride, bound)
    requires FaceWellFormed(g, i, video, stride, bound)
    ensures WellFormed(faces[i := g], video, stride, bound)
  {
    var r := faces[i := g];
    forall j | 0 <= j < |r|
      ensures FaceWellFormed(r[j], j, video, stride, bound)
    {
      if j != i {
        assert r[j] == faces[j];
      }
    }
  }

  /** Appending a face fit for the next position keeps the registry well formed. */
  lemma SnocWellFormed<F>(faces: seq<Face<F>>, g: Face<F>, video: seq<F>, stride: int, bound: nat)
    requires stride != 0 && WellFormed(faces, video, stride, bound)
    requires FaceWellFormed(g, |faces|, video, stride, bound)
    ensures WellFormed(faces + [g], video, stride, bound)
  {
    var r := faces + [g];
    forall j | 0 <= j < |r|
      ensures FaceWellFormed(r[j], j, video, stride, bound)
    {
      if j < |faces| {
        assert r[j] == faces[j];
      } else {
        assert r[j] == g;
      }
    }
  }

  /** A sighting of the sampled frame `d.index`, no earlier than any sighting so far, keeps a face
      well formed when it is joined to it. */
  lemma JoinedWellFormed<F>(f: Face<F>, i: nat, d: Detection<F>, video: seq<F>, stride: int)
    requires stride != 0 && d.index < |video| && video[d.index] == d.frame && Sampled(d.index, stride)
    requires FaceWellFormed(f, i, video, stride, d.index + 1)
    ensures FaceWellFormed(Joined(f, d), i, video, stride, d.index + 1)
  {
    var g := Joined(f, d);
    var n := |f.detections|;
    assert g.detections == f.detections + [d];
    forall k, l | 0 <= k <= l < |g.detections|
      ensures g.detections[k].index <= g.detections[l].index
    {
      assert g.detections[k] == if k < n then f.detections[k] else d;
      assert g.detections[l] == if l < n then f.detections[l] else d;
    }
    forall k | 0 <= k < |g.detections|
      ensures var e := g.detections[k];
              e.index < d.index + 1 && e.index < |video| && video[e.index] == e.frame && Sampled(e.index, stride)
    {
      assert g.detections[k] == if k < n then f.detections[k] else d;
    }
  }

  /** Appending a sighting of frame `d.index` to face i keeps the registry well formed. */
  lemma JoinWellFormed<F>(faces: seq<Face<F>>, i: nat, d: Detection<F>, video: seq<F>, stride: int)
    requires stride != 0 && i < |faces| && d.index < |video| && video[d.index] == d.frame && Sampled(d.index, stride)
    requires WellFormed(faces, video, stride, d.index + 1)
    ensures WellFormed(faces[i := Joined(faces[i], d)], video, stride, d.index + 1)
  {
    JoinedWellFormed(faces[i], i, d, video, stride);
    UpdateWellFormed(faces, i, Joined(faces[i], d), video, stride, d.index + 1);
  }

  /** Appending a new face `face_{n+1}` keeps the registry well formed. */
  lemma AppendWellFormed<F>(faces: seq<Face<F>>, d: Detection<F>, video: seq<F>, stride: int)
    requires stride != 0 && d.index < |video| && video[d.index] == d.frame && Sampled(d.index, stride)
    requires WellFormed(faces, video, stride, d.index + 1)
    ensures WellFormed(faces + [NewFace(|faces|, d)], video, stride, d.index + 1)
  {
    var f := NewFace(|faces|, d);
    assert f.detections == [d];
    assert FaceWellFormed(f, |faces|, video, stride, d.index + 1);
    SnocWellFormed(faces, f, video, stride, d.index + 1);
  }

  /** A registry well formed after some frames stays so as more frames are read. */
  lemma WellFormedLater<F>(faces: seq<Face<F>>, video: seq<F>, stride: int, bound: nat, later: nat)
    requires stride != 0 && bound <= later && WellFormed(faces, video, stride, bound)
    ensures WellFormed(faces, video, stride, later)
  {
    forall i | 0 <= i < |faces|
      ensures FaceWellFormed(faces[i], i, video, stride, later)
    {
      assert FaceWellFormed(faces[i], i, video, stride, bound);
    }
  }

  /** Restates a well-formedness fact for a registry given by another expression. */
  lemma WellFormedSame<F>(faces: seq<Face<F>>, same: seq<Face<F>>, video: seq<F>, stride: int, bound: nat)
    requires stride != 0 && faces == same && WellFormed(faces, video, stride, bound)
    ensures WellFormed(same, video, stride, bound)
  {
  }

  /** Registration keeps the labelling `face_1, face_2, ...` and the origin of every sighting. */
  lemma RegisterWellFormed<F>(faces: seq<Face<F>>, d: Detection<F>, m: Matcher<F>, video: seq<F>, stride: int)
    requires stride != 0 && d.index < |video| && video[d.index] == d.frame && Sampled(d.index, stride)
    requires WellFormed(faces, video, stride, d.index + 1)
    ensures WellFormed(Register(faces, d, m).0, video, stride, d.index + 1)
  {
    match FirstMatch(faces, 0, d.frame, d.box, m)
    case Found(i) =>
      JoinWellFormed(faces, i, d, video, stride);
    case NotFound =>
      AppendWellFormed(faces, d, video, stride);
    case ScanFailed =>
  }

  // ---------------------------------------------------------------- one frame

  /** Registering a frame's boxes: the registry grows; if no exception interrupted it, by exactly
      one sighting per box, and otherwise by at most that many. */
  lemma {:induction false} RegisterAllCounts<F>(faces: seq<Face<F>>, index: nat, frame: F, boxes: seq<Box>, m: Matcher<F>)
    requires AllSeen(faces)
    ensures var r := RegisterAll(faces, index, frame, boxes, m);
            Grows(faces, r.0) && Total(faces) <= Total(r.0) <= Total(faces) + |boxes| &&
            (r.1 ==> Total(r.0) == Total(faces) + |boxes|)
    decreases |boxes|
  {
    if boxes == [] {
      GrowsReflexive(faces);
    } else {
      var d := Detection(index, frame, boxes[0]);
      var step := Register(faces, d, m);
      RegisterAddsOne(faces, d, m);
      if step.1 {
        RegisterAllCounts(step.0, index, frame, boxes[1..], m);
        GrowsTransitive(faces, step.0, RegisterAll(step.0, index, frame, boxes[1..], m).0);
      } else {
        GrowsReflexive(faces);
      }
    }
  }

  /** An exception at box j of a frame keeps the registrations of boxes 0..j-1: the frame's result is
      exactly the registry after those boxes. */
  lemma {:induction false} RegisterAllKeepsEarlierAppends<F>(faces: seq<Face<F>>, index: nat, frame: F, boxes: seq<Box>, m: Matcher<F>, j: nat)
    requires AllSeen(faces) && j < |boxes|
    requires RegisterAll(faces, index, frame, boxes[..j], m).1
    requires !Register(RegisterAll(faces, index, frame, boxes[..j], m).0, Detection(index, frame, boxes[j]), m).1
    ensures RegisterAll(faces, index, frame, boxes, m) == (RegisterAll(faces, index, frame, boxes[..j], m).0, false)
    decreases j
  {
    if j == 0 {
      assert boxes[..j] == [];
    } else {
      var step := Register(faces, Detection(index, frame, boxes[0]), m);
      assert boxes[..j][0] == boxes[0];
      assert boxes[..j][1..] == boxes[1..][..j - 1];
      assert step.1;
      RegisterAllKeepsEarlierAppends(step.0, index, frame, boxes[1..], m, j - 1);
    }
  }

  lemma {:induction false} RegisterAllWellFormed<F>(faces: seq<Face<F>>, index: nat, frame: F, boxes: seq<Box>, m: Matcher<F>, video: seq<F>, stride: int)
    requires stride != 0 && index < |video| && video[index] == frame && Sampled(index, stride)
    requires WellFormed(faces, video, stride, index + 1)
    ensures WellFormed(RegisterAll(faces, index, frame, boxes, m).0, video, stride, index + 1)
    decreases |boxes|
  {
    if boxes != [] {
      var d := Detection(index, frame, boxes[0]);
      RegisterWellFormed(faces, d, m, video, stride);
      var step := Register(faces, d, m);
      if step.1 {
        RegisterAllWellFormed(step.0, index, frame, boxes[1..], m, video, stride);
      }
    }
  }

  // ---------------------------------------------------------------- the whole run

  /** Frame 0 is always sampled, and frame n is run through the `try` block exactly when
      `n % stride == 0`; other frames leave the state as it was. */
  lemma SamplingRule<F>(video: seq<F>, n: nat, stride: int, detect: Detector<F>, m: Matcher<F>)
    requires stride != 0 && n < |video|
    ensures Sampled(0, stride)
    ensures TrackPrefix(video, n + 1, stride, detect, m) ==
            if n % stride == 0 then Step(TrackPrefix(video, n, stride, detect, m), n, video[n], detect, m)
            else TrackPrefix(video, n, stride, detect, m)
  {
  }

  /** A video no longer than the stride's magnitude has only its first frame analysed: the
      registry after n such frames is the one frame 0's detections build from an empty registry. */
  lemma {:induction false} OnlyFirstFrameBelowStride<F>(video: seq<F>, n: nat, stride: int, detect: Detector<F>, m: Matcher<F>)
    requires stride != 0 && 1 <= n <= |video| && (n <= stride || n <= -stride)
    ensures TrackPrefix(video, n, stride, detect, m) == Step(TrackState([], 0), 0, video[0], detect, m)
  {
    if n > 1 {
      OnlyFirstFrameBelowStride(video, n - 1, stride, detect, m);
      assert !Sampled(n - 1, stride);
    }
  }

  /** The work on the sampled frame `index` keeps the registry well formed. */
  lemma StepWellFormed<F>(st: TrackState<F>, index: nat, video: seq<F>, stride: int, detect: Detector<F>, m: Matcher<F>)
    requires stride != 0 && index < |video| && Sampled(index, stride)
    requires AllSeen(st.faces) && WellFormed(st.faces, video, stride, index + 1)
    ensures WellFormed(Step(st, index, video[index], detect, m).faces, video, stride, index + 1)
  {
    match detect(video[index])
    case Raised =>
    case Inferred(_) =>
      var boxes := Boxes(detect(video[index]));
      if st.numFaces != |boxes| {
        RegisterAllWellFormed(st.faces, index, video[index], boxes, m, video, stride);
      }
  }

  /** After any number of frames the registry is labelled `face_1 .. face_n`, every face has a
      sighting, sightings are in frame order and come from sampled frames already read. */
  lemma {:induction false} TrackWellFormed<F>(video: seq<F>, n: nat, stride: int, detect: Detector<F>, m: Matcher<F>)
    requires stride != 0 && n <= |video|
    ensures WellFormed(TrackPrefix(video, n, stride, detect, m).faces, video, stride, n)
  {
    if n > 0 {
      TrackWellFormed(video, n - 1, stride, detect, m);
      WellFormedLater(TrackPrefix(video, n - 1, stride, detect, m).faces, video, stride, n - 1, n);
      if Sampled(n - 1, stride) {
        StepWellFormed(TrackPrefix(video, n - 1, stride, detect, m), n - 1, video, stride, detect, m);
        WellFormedSame(Step(TrackPrefix(video, n - 1, stride, detect, m), n - 1, video[n - 1], detect, m).faces,
                       TrackPrefix(video, n, stride, detect, m).faces, video, stride, n);
      } else {
        WellFormedSame(TrackPrefix(video, n - 1, stride, detect, m).faces, TrackPrefix(video, n, stride, detect, m).faces, video, stride, n);
      }
    }
  }

  /** One frame's work only extends the registry. */
  lemma StepGrows<F>(st: TrackState<F>, index: nat, frame: F, detect: Detector<F>, m: Matcher<F>)
    requires AllSeen(st.faces)
    ensures Grows(st.faces, Step(st, index, frame, detect, m).faces)
  {
    match detect(frame)
    case Raised =>
      GrowsReflexive(st.faces);
    case Inferred(_) =>
      var boxes := Boxes(detect(frame));
      if st.numFaces == |boxes| {
        GrowsReflexive(st.faces);
      } else {
        RegisterAllCounts(st.faces, index, frame, boxes, m);
      }
  }

  /** Reading one more frame, sampled or not, only extends the registry. */
  lemma FrameGrows<F>(video: seq<F>, n: nat, stride: int, detect: Detector<F>, m: Matcher<F>)
    requires stride != 0 && n < |video|
    ensures Grows(TrackPrefix(video, n, stride, detect, m).faces, TrackPrefix(video, n + 1, stride, detect, m).faces)
  {
    var prev := TrackPrefix(video, n, stride, detect, m);
    if Sampled(n, stride) {
      StepGrows(prev, n, video[n], detect, m);
      assert TrackPrefix(video, n + 1, stride, detect, m) == Step(prev, n, video[n], detect, m);
    } else {
      GrowsReflexive(prev.faces);
      assert TrackPrefix(video, n + 1, stride, detect, m) == prev;
    }
  }

  /** Faces and sightings are never removed or reordered: a later state extends an earlier one. */
  lemma {:induction false} TrackGrows<F>(video: seq<F>, k: nat, n: nat, stride: int, detect: Detector<F>, m: Matcher<F>)
    requires stride != 0 && k <= n <= |video|
    ensures Grows(TrackPrefix(video, k, stride, detect, m).faces, TrackPrefix(video, n, stride, detect, m).faces)
    decreases n - k
  {
    if k == n {
      GrowsReflexive(TrackPrefix(video, k, stride, detect, m).faces);
    } else {
      FrameGrows(video, k, stride, detect, m);
      TrackGrows(video, k + 1, n, stride, detect, m);
      GrowsTransitive(TrackPrefix(video, k, stride, detect, m).faces, TrackPrefix(video, k + 1, stride, detect, m).faces,
                      TrackPrefix(video, n, stride, detect, m).faces);
    }
  }

  /** Stability skip: while every sampled frame reports the same number of faces as was last
      recorded, nothing changes, however the boxes move. */
  lemma {:induction false} SteadyCountFreezes<F>(video: seq<F>, k: nat, n: nat, stride: int, detect: Detector<F>, m: Matcher<F>)
    requires stride != 0 && k <= n <= |video|
    requires forall i :: k <= i < n && Sampled(i, stride) ==>
               detect(video[i]).Inferred? && |Boxes(detect(video[i]))| == TrackPrefix(video, k, stride, detect, m).numFaces
    ensures TrackPrefix(video, n, stride, detect, m) == TrackPrefix(video, k, stride, detect, m)
    decreases n - k
  {
    if k < n {
      SteadyCountFreezes(video, k, n - 1, stride, detect, m);
    }
  }

  /** A video in which every sampled frame shows c faces is registered from its first frame alone;
      with c == 0 (num_faces starts at 0) no face is ever created. */
  lemma SteadyVideo<F>(video: seq<F>, n: nat, stride: int, detect: Detector<F>, m: Matcher<F>, c: nat)
    requires stride != 0 && 1 <= n <= |video|
    requires forall i :: 0 <= i < n && Sampled(i, stride) ==>
               detect(video[i]).Inferred? && |Boxes(detect(video[i]))| == c
    ensures TrackPrefix(video, n, stride, detect, m) == TrackPrefix(video, 1, stride, detect, m)
    ensures c == 0 ==> TrackPrefix(video, n, stride, detect, m).faces == []
  {
    assert Sampled(0, stride);
    assert TrackPrefix(video, 1, stride, detect, m).numFaces == c;
    SteadyCountFreezes(video, 1, n, stride, detect, m);
  }

  /** Labels of one registry are pairwise distinct. */
  lemma LabelsDistinct<F>(faces: seq<Face<F>>)
    requires Labelled(faces)
    ensures forall i, j :: 0 <= i < j < |faces| ==> faces[i].name != faces[j].name
  {
    forall i, j | 0 <= i < j < |faces|
      ensures faces[i].name != faces[j].name
    {
      if faces[i].name == faces[j].name {
        LabelInjective(i + 1, j + 1);
      }
    }
  }

  /** What `detect_video` returns: a ZeroDivisionError exactly when the stride is 0 and the video
      has a frame; otherwise a registry labelled `face_1 .. face_n` with distinct labels, every
      face seen at least once, in frame order, on sampled frames only. */
  lemma TrackVideoResult<F>(video: seq<F>, stride: int, detect: Detector<F>, m: Matcher<F>)
    ensures TrackVideo(video, stride, detect, m).DivisionByZero? <==> stride == 0 && |video| > 0
    ensures stride == 0 && |video| == 0 ==> TrackVideo(video, stride, detect, m) == Tracked([])
    ensures stride != 0 ==>
      var faces := TrackVideo(video, stride, detect, m).faces;
      WellFormed(faces, video, stride, |video|) &&
      forall i, j :: 0 <= i < j < |faces| ==> faces[i].name != faces[j].name
  {
    if stride != 0 {
      var faces := TrackPrefix(video, |video|, stride, detect, m).faces;
      TrackWellFormed(video, |video|, stride, detect, m);
      assert Labelled(faces) by {
        forall i | 0 <= i < |faces|
          ensures faces[i].name == Label(i + 1)
        {
          assert FaceWellFormed(faces[i], i, video, stride, |video|);
        }
      }
      LabelsDistinct(faces);
    }
  }
}
