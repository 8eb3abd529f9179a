/**
  The region-obscuring functions `blur_faces_img`, `smile_faces_img` and `obscure_faces`.

  The image is a 2-D array of pixels of an opaque type `P` (a row-major `img[row, col]`, the
  channels of a pixel kept together). The OpenCV calls are oracles bundled in a `Toolkit`; each
  may raise, which aborts the call after the writes of the earlier boxes, as the in-place
  slice assignments of the source leave them.
*/
module Obscuring {
  import opened Common
  import opened Geometry

  /** Rows of pixels: the whole image, or a slice `img[y1:y2, x1:x2]` of it. */
  type Grid<P> = seq<seq<P>>

  /** `BlurStyle`: the two styles `obscure_faces` handles, and any other value it is given. */
  datatype Style = Blur | Smile | Unrecognised(name: string)

  /** The library calls the obscuring functions make. `None` stands for a `cv2.error`.
      - gaussianBlur(region, k): OpenCV's Gaussian blur with a k x k kernel and default border
      - resizeSmiley(w, h): the RGBA smiley asset resized to w columns and h rows
      - composite(o, p): the alpha blend of overlay pixel o over image pixel p, all three channels
      - encode(ext, img): the bytes of the image encoded in format ext, or None when OpenCV has no
        encoder for ext (no leading dot, unknown or empty extension) or cannot encode the image */
  datatype Toolkit<!P, !O> = Toolkit(
    gaussianBlur: (Grid<P>, int) -> Option<Grid<P>>,
    resizeSmiley: (int, int) -> Option<Grid<O>>,
    composite: (O, P) -> P,
    encode: (string, Grid<P>) -> Option<seq<bv8>>)

  /** The encoded image bytes, with the image height and width. */
  datatype Encoded = Encoded(bytes: seq<bv8>, height: nat, width: nat)

  /** The exceptions the obscuring functions let escape: the ValueError for an unknown style, and
      any `cv2.error` from blurring, resizing or encoding. */
  datatype ObscureError = InvalidStyle(style: string) | PrimitiveFailed

  predicate IsGrid<P>(g: Grid<P>, h: int, w: int) {
    |g| == h && forall row :: 0 <= row < |g| ==> |g[row]| == w
  }

  predicate SameShape<P, Q>(a: Grid<P>, b: Grid<Q>) {
    |a| == |b| && forall row :: 0 <= row < |a| ==> |a[row]| == |b[row]|
  }

  /** What the library guarantees when it does not raise: a blurred region has the region's shape,
      and a resized asset has the requested (non-negative) size. */
  ghost predicate Sane<P(!new), O>(t: Toolkit<P, O>) {
    (forall region: Grid<P>, k: int :: t.gaussianBlur(region, k).Some? ==> SameShape(t.gaussianBlur(region, k).value, region)) &&
    (forall w: int, h: int :: t.resizeSmiley(w, h).Some? ==> 0 <= w && 0 <= h && IsGrid(t.resizeSmiley(w, h).value, h, w))
  }

  /** The pixel contents of the array, row by row. */
  function Snapshot<P>(img: array2<P>): (g: Grid<P>)
    reads img
    ensures IsGrid(g, img.Length0, img.Length1)
  {
    seq(img.Length0, row requires 0 <= row < img.Length0 reads img =>
      seq(img.Length1, col requires 0 <= col < img.Length1 reads img => img[row, col]))
  }

  /** `img[y1:y2, x1:x2]` for a slice that lies within the image. */
  function Crop<P>(g: Grid<P>, rect: Rect, h: nat, w: nat): (region: Grid<P>)
    requires IsGrid(g, h, w) && 0 <= rect.x1 && 0 <= rect.y1 && rect.x2 <= w && rect.y2 <= h
    ensures IsGrid(region, Rows(rect), Cols(rect))
  {
    seq(Rows(rect), i requires 0 <= i < Rows(rect) =>
      seq(Cols(rect), j requires 0 <= j < Cols(rect) => g[rect.y1 + i][rect.x1 + j]))
  }

  /** `img[y1:y2, x1:x2] = out`: the slice takes the new contents, every other pixel is kept. */
  function Paint<P>(g: Grid<P>, rect: Rect, out: Grid<P>): (r: Grid<P>)
    requires IsGrid(out, Rows(rect), Cols(rect))
    ensures SameShape(r, g)
  {
    seq(|g|, row requires 0 <= row < |g| =>
      seq(|g[row]|, col requires 0 <= col < |g[row]| =>
        if InRect(rect, row, col) then out[row - rect.y1][col - rect.x1] else g[row][col]))
  }

  /** The per-channel loop of `smile_faces_img`: each overlay pixel blended over the image pixel under it. */
  function Overlay<P(!new), O>(overlay: Grid<O>, region: Grid<P>, composite: (O, P) -> P): (out: Grid<P>)
    requires SameShape(overlay, region)
    ensures SameShape(out, region)
  {
    seq(|region|, i requires 0 <= i < |region| =>
      seq(|region[i]|, j requires 0 <= j < |region[i]| => composite(overlay[i][j], region[i][j])))
  }

  /** The new contents of box b's clamped region in image g, or None when the primitive raised.
      The blur kernel comes from the unclamped box; the smiley is resized to `(x2 - x1, y2 - y1)`. */
  ghost function Obscured<P(!new), O>(style: Style, g: Grid<P>, b: Box, h: nat, w: nat, t: Toolkit<P, O>): (out: Option<Grid<P>>)
    requires !style.Unrecognised? && IsGrid(g, h, w) && Sane(t)
    ensures out.Some? ==> IsGrid(out.value, Rows(Clamp(b, w, h)), Cols(Clamp(b, w, h)))
  {
    var rect := Clamp(b, w, h);
    var region := Crop(g, rect, h, w);
    match style
    case Blur => t.gaussianBlur(region, KernelSize(b.w, b.h))
    case Smile =>
      match t.resizeSmiley(rect.x2 - rect.x1, rect.y2 - rect.y1)
      case None => None
      case Some(overlay) => Some(Overlay(overlay, region, t.composite))
  }

  /** The image after the boxes are processed one after the other in list order, and whether every
      primitive call succeeded; after a failure the later boxes are not processed. */
  ghost function ObscureAll<P(!new), O>(style: Style, g: Grid<P>, boxes: seq<Box>, h: nat, w: nat, t: Toolkit<P, O>): (r: (Grid<P>, bool))
    requires !style.Unrecognised? && IsGrid(g, h, w) && Sane(t)
    requires forall i :: 0 <= i < |boxes| ==> NoWrap(boxes[i])
    ensures IsGrid(r.0, h, w)
    decreases |boxes|
  {
    if boxes == [] then (g, true)
    else
      var prev := ObscureAll(style, g, boxes[..|boxes| - 1], h, w, t);
      var b := boxes[|boxes| - 1];
      if !prev.1 then prev
      else match Obscured(style, prev.0, b, h, w, t)
        case None => (prev.0, false)
        case Some(out) => (Paint(prev.0, Clamp(b, w, h), out), true)
  }

  /** The slice assignment `img[y1:y2, x1:x2] = out`. */
  method PaintRegion<P>(img: array2<P>, rect: Rect, out: Grid<P>)
    requires IsGrid(out, Rows(rect), Cols(rect))
    modifies img
    ensures Snapshot(img) == Paint(old(Snapshot(img)), rect, out)
  {
    ghost var before := Snapshot(img);
    forall row, col | 0 <= row < img.Length0 && 0 <= col < img.Length1 && InRect(rect, row, col) {
      img[row, col] := out[row - rect.y1][col - rect.x1];
    }
    var after := Snapshot(img);
    var expected := Paint(before, rect, out);
    forall row | 0 <= row < img.Length0
      ensures after[row] == expected[row]
    {
      assert forall col :: 0 <= col < img.Length1 ==> after[row][col] == expected[row][col];
    }
  }

  /** A failure among the first j boxes is the outcome of the whole list. */
  lemma {:induction false} FailureIsFinal<P(!new), O>(style: Style, g: Grid<P>, boxes: seq<Box>, j: nat, h: nat, w: nat, t: Toolkit<P, O>)
    requires !style.Unrecognised? && IsGrid(g, h, w) && Sane(t)
    requires forall i :: 0 <= i < |boxes| ==> NoWrap(boxes[i])
    requires j <= |boxes| && !ObscureAll(style, g, boxes[..j], h, w, t).1
    ensures ObscureAll(style, g, boxes, h, w, t) == ObscureAll(style, g, boxes[..j], h, w, t)
    decreases |boxes| - j
  {
    if j < |boxes| {
      var shorter := boxes[..|boxes| - 1];
      assert shorter[..j] == boxes[..j];
      FailureIsFinal(style, g, shorter, j, h, w, t);
    } else {
      assert boxes[..j] == boxes;
    }
  }

  /** The boxes processed so far plus box i is the list up to i + 1. */
  lemma PrefixStep<P(!new), O>(style: Style, g: Grid<P>, boxes: seq<Box>, i: nat, h: nat, w: nat, t: Toolkit<P, O>)
    requires !style.Unrecognised? && IsGrid(g, h, w) && Sane(t)
    requires forall k :: 0 <= k < |boxes| ==> NoWrap(boxes[k])
    requires i < |boxes| && ObscureAll(style, g, boxes[..i], h, w, t).1
    ensures var prev := ObscureAll(style, g, boxes[..i], h, w, t).0;
            ObscureAll(style, g, boxes[..i + 1], h, w, t) ==
              match Obscured(style, prev, boxes[i], h, w, t)
              case None => (prev, false)
              case Some(out) => (Paint(prev, Clamp(boxes[i], w, h), out), true)
  {
    assert boxes[..i + 1][..i] == boxes[..i];
  }

  /** One iteration of the loop of `blur_faces_img`: blur box b's clamped region with the kernel of
      the unclamped box and write it back; `ok` is false, with nothing written, when the blur raised. */
  method BlurBox<P(!new), O>(img: array2<P>, b: Box, t: Toolkit<P, O>) returns (ok: bool)
    requires Sane(t) && NoWrap(b)
    modifies img
    ensures var out := Obscured(Blur, old(Snapshot(img)), b, img.Length0, img.Length1, t);
            ok == out.Some? &&
            Snapshot(img) == if ok then Paint(old(Snapshot(img)), Clamp(b, img.Length1, img.Length0), out.value) else old(Snapshot(img))
  {
    var h, w := img.Length0, img.Length1;
    var rect := Clamp(b, w, h);
    var blurred := t.gaussianBlur(Crop(Snapshot(img), rect, h, w), KernelSize(b.w, b.h));
    if blurred.None? {
      return false;
    }
    PaintRegion(img, rect, blurred.value);
    return true;
  }

  /** One iteration of the loop of `smile_faces_img`: resize the smiley to box b's clamped region,
      blend it over the region and write it back; `ok` is false, with nothing written, when the
      resize raised. */
  method SmileBox<P(!new), O>(img: array2<P>, b: Box, t: Toolkit<P, O>) returns (ok: bool)
    requires Sane(t) && NoWrap(b)
    modifies img
    ensures var out := Obscured(Smile, old(Snapshot(img)), b, img.Length0, img.Length1, t);
            ok == out.Some? &&
            Snapshot(img) == if ok then Paint(old(Snapshot(img)), Clamp(b, img.Length1, img.Length0), out.value) else old(Snapshot(img))
  {
    var h, w := img.Length0, img.Length1;
    var rect := Clamp(b, w, h);
    var resized := t.resizeSmiley(rect.x2 - rect.x1, rect.y2 - rect.y1);
    if resized.None? {
      return false;
    }
    var out := Overlay(resized.value, Crop(Snapshot(img), rect, h, w), t.composite);
    PaintRegion(img, rect, out);
    return true;
  }

  /** `blur_faces_img`: blur each box's clamped region in list order, then encode; an encoding
      failure raises after every write. */
  method BlurFacesImg<P(!new), O>(img: array2<P>, boxes: seq<Box>, filetype: string, t: Toolkit<P, O>) returns (r: Result<Encoded, ObscureError>)
    requires Sane(t) && forall i :: 0 <= i < |boxes| ==> NoWrap(boxes[i])
    modifies img
    ensures var spec := ObscureAll(Blur, old(Snapshot(img)), boxes, img.Length0, img.Length1, t);
            Snapshot(img) == spec.0 && (r.Success? <==> spec.1 && t.encode(filetype, Snapshot(img)).Some?)
    ensures r.Success? ==> r.value == Encoded(t.encode(filetype, Snapshot(img)).value, img.Length0, img.Length1)
    ensures r.Failure? ==> r.error == PrimitiveFailed
  {
    var h, w := img.Length0, img.Length1;
    ghost var original := Snapshot(img);
    var i := 0;
    while i < |boxes|
      invariant 0 <= i <= |boxes|
      invariant ObscureAll(Blur, original, boxes[..i], h, w, t) == (Snapshot(img), true)
    {
      PrefixStep(Blur, original, boxes, i, h, w, t);
      var ok := BlurBox(img, boxes[i], t);
      if !ok {
        FailureIsFinal(Blur, original, boxes, i + 1, h, w, t);
        return Failure(PrimitiveFailed);
      }
      i := i + 1;
    }
    assert boxes[..i] == boxes;
    var bytes := t.encode(filetype, Snapshot(img));
    if bytes.None? {
      return Failure(PrimitiveFailed);
    }
    return Success(Encoded(bytes.value, h, w));
  }

  /** `smile_faces_img`: resize the smiley to each box's clamped region and blend it in, box by box
      in list order, then encode; an encoding failure raises after every write. */
  method SmileFacesImg<P(!new), O>(img: array2<P>, boxes: seq<Box>, filetype: string, t: Toolkit<P, O>) returns (r: Result<Encoded, ObscureError>)
    requires Sane(t) && forall i :: 0 <= i < |boxes| ==> NoWrap(boxes[i])
    modifies img
    ensures var spec := ObscureAll(Smile, old(Snapshot(img)), boxes, img.Length0, img.Length1, t);
            Snapshot(img) == spec.0 && (r.Success? <==> spec.1 && t.encode(filetype, Snapshot(img)).Some?)
    ensures r.Success? ==> r.value == Encoded(t.encode(filetype, Snapshot(img)).value, img.Length0, img.Length1)
    ensures r.Failure? ==> r.error == PrimitiveFailed
  {
    var h, w := img.Length0, img.Length1;
    ghost var original := Snapshot(img);
    var i := 0;
    while i < |boxes|
      invariant 0 <= i <= |boxes|
      invariant ObscureAll(Smile, original, boxes[..i], h, w, t) == (Snapshot(img), true)
    {
      PrefixStep(Smile, original, boxes, i, h, w, t);
      var ok := SmileBox(img, boxes[i], t);
      if !ok {
        FailureIsFinal(Smile, original, boxes, i + 1, h, w, t);
        return Failure(PrimitiveFailed);
      }
      i := i + 1;
    }
    assert boxes[..i] == boxes;
    var bytes := t.encode(filetype, Snapshot(img));
    if bytes.None? {
      return Failure(PrimitiveFailed);
    }
    return Success(Encoded(bytes.value, h, w));
  }

  /** `obscure_faces`: dispatch on the style; any other style raises before a pixel is touched. */
  method ObscureFaces<P(!new), O>(style: Style, img: array2<P>, boxes: seq<Box>, filetype: string, t: Toolkit<P, O>) returns (r: Result<Encoded, ObscureError>)
    requires Sane(t) && forall i :: 0 <= i < |boxes| ==> NoWrap(boxes[i])
    modifies img
    ensures style.Unrecognised? ==> r == Failure(InvalidStyle(style.name)) && Snapshot(img) == old(Snapshot(img))
    ensures !style.Unrecognised? ==>
              var spec := ObscureAll(style, old(Snapshot(img)), boxes, img.Length0, img.Length1, t);
              Snapshot(img) == spec.0 && (r.Success? <==> spec.1 && t.encode(filetype, Snapshot(img)).Some?) &&
              (r.Success? ==> r.value == Encoded(t.encode(filetype, Snapshot(img)).value, img.Length0, img.Length1)) &&
              (r.Failure? ==> r.error == PrimitiveFailed)
  {
    match style
    case Blur =>
      r := BlurFacesImg(img, boxes, filetype, t);
    case Smile =>
      r := SmileFacesImg(img, boxes, filetype, t);
    case Unrecognised(name) =>
      r := Failure(InvalidStyle(name));
  }
}
