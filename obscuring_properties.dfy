/** What obscuring guarantees about the pixels it writes. */
module ObscuringProperties {
  import opened Common
  import opened Geometry
  import opened Obscuring

  /** A slice assignment changes exactly the pixels of the slice. */
  lemma PaintCells<P>(g: Grid<P>, rect: Rect, out: Grid<P>, row: nat, col: nat)
    requires IsGrid(out, Rows(rect), Cols(rect))
    requires row < |g| && col < |g[row]|
    ensures Paint(g, rect, out)[row][col] == if InRect(rect, row, col) then out[row - rect.y1][col - rect.x1] else g[row][col]
  {
  }

  /** An empty slice (a box clamped to nothing) writes no pixel. */
  lemma PaintEmpty<P>(g: Grid<P>, rect: Rect, out: Grid<P>)
    requires IsGrid(out, Rows(rect), Cols(rect))
    requires Rows(rect) == 0 || Cols(rect) == 0
    ensures Paint(g, rect, out) == g
  {
    var r := Paint(g, rect, out);
    forall row | 0 <= row < |g|
      ensures r[row] == g[row]
    {
      assert forall col :: 0 <= col < |g[row]| ==> !InRect(rect, row, col);
    }
  }

  /** Pixels outside the clamped region of every box keep their original value, whatever the
      primitives do and whether or not one of them raised. */
  lemma {:induction false} OutsideBoxesUntouched<P(!new), O>(style: Style, g: Grid<P>, boxes: seq<Box>, h: nat, w: nat, t: Toolkit<P, O>, row: nat, col: nat)
    requires !style.Unrecognised? && IsGrid(g, h, w) && Sane(t)
    requires forall i :: 0 <= i < |boxes| ==> NoWrap(boxes[i])
    requires row < h && col < w
    requires forall i :: 0 <= i < |boxes| ==> !InRect(Clamp(boxes[i], w, h), row, col)
    ensures ObscureAll(style, g, boxes, h, w, t).0[row][col] == g[row][col]
    decreases |boxes|
  {
    if boxes != [] {
      var shorter := boxes[..|boxes| - 1];
      OutsideBoxesUntouched(style, g, shorter, h, w, t, row, col);
      var prev := ObscureAll(style, g, shorter, h, w, t);
      var b := boxes[|boxes| - 1];
      if prev.1 {
        match Obscured(style, prev.0, b, h, w, t)
        case None =>
        case Some(out) =>
          PaintCells(prev.0, Clamp(b, w, h), out, row, col);
      }
    }
  }

  /** A box lying wholly outside the image (but not wrapping around) writes no pixel: appending it
      to the list leaves the image as the other boxes leave it. */
  lemma OffImageBoxWritesNothing<P(!new), O>(style: Style, g: Grid<P>, boxes: seq<Box>, b: Box, h: nat, w: nat, t: Toolkit<P, O>)
    requires !style.Unrecognised? && IsGrid(g, h, w) && Sane(t)
    requires forall i :: 0 <= i < |boxes| ==> NoWrap(boxes[i])
    requires NoWrap(b) && (w <= b.x || h <= b.y || b.x + b.w <= 0 || b.y + b.h <= 0)
    ensures ObscureAll(style, g, boxes + [b], h, w, t).0 == ObscureAll(style, g, boxes, h, w, t).0
  {
    var all := boxes + [b];
    assert all[..|all| - 1] == boxes;
    var prev := ObscureAll(style, g, boxes, h, w, t);
    if prev.1 {
      match Obscured(style, prev.0, b, h, w, t)
      case None =>
      case Some(out) =>
        PaintEmpty(prev.0, Clamp(b, w, h), out);
    }
  }

  /** Processing one more box: the list `boxes + [b]` is `boxes` followed by b. */
  lemma Snoc<P(!new), O>(style: Style, g: Grid<P>, boxes: seq<Box>, b: Box, h: nat, w: nat, t: Toolkit<P, O>)
    requires !style.Unrecognised? && IsGrid(g, h, w) && Sane(t)
    requires forall i :: 0 <= i < |boxes| ==> NoWrap(boxes[i])
    requires NoWrap(b)
    ensures forall i :: 0 <= i < |boxes + [b]| ==> NoWrap((boxes + [b])[i])
    ensures var prev := ObscureAll(style, g, boxes, h, w, t);
            ObscureAll(style, g, boxes + [b], h, w, t) ==
              if !prev.1 then prev
              else match Obscured(style, prev.0, b, h, w, t)
                case None => (prev.0, false)
                case Some(out) => (Paint(prev.0, Clamp(b, w, h), out), true)
  {
    var all := boxes + [b];
    assert all[..|all| - 1] == boxes && all[|all| - 1] == b;
  }

  /** A pixel of a slice inside the image, after the slice assignment, is the matching pixel of
      the assigned region. */
  lemma PaintedPixel<P>(before: Grid<P>, rect: Rect, out: Grid<P>, res: (Grid<P>, bool), h: nat, w: nat, row: nat, col: nat)
    requires IsGrid(before, h, w) && IsGrid(out, Rows(rect), Cols(rect))
    requires res == (Paint(before, rect, out), true)
    requires row < h && col < w && InRect(rect, row, col)
    ensures 0 <= row - rect.y1 < |out| && 0 <= col - rect.x1 < |out[row - rect.y1]|
    ensures res.1 && res.0[row][col] == out[row - rect.y1][col - rect.x1]
  {
    PaintCells(before, rect, out, row, col);
  }

  /** Boxes are applied in list order: when the whole list succeeds, a pixel inside the last box's
      region is what that box's primitive computed from the image the earlier boxes left, whatever
      the earlier boxes wrote there. */
  lemma LastBoxWins<P(!new), O>(style: Style, g: Grid<P>, boxes: seq<Box>, b: Box, h: nat, w: nat, t: Toolkit<P, O>, row: nat, col: nat)
    requires !style.Unrecognised? && IsGrid(g, h, w) && Sane(t)
    requires forall i :: 0 <= i < |boxes| ==> NoWrap(boxes[i])
    requires NoWrap(b) && row < h && col < w && InRect(Clamp(b, w, h), row, col)
    requires ObscureAll(style, g, boxes, h, w, t).1 && Obscured(style, ObscureAll(style, g, boxes, h, w, t).0, b, h, w, t).Some?
    ensures ObscureAll(style, g, boxes + [b], h, w, t).1
    ensures ObscureAll(style, g, boxes + [b], h, w, t).0[row][col] ==
              Obscured(style, ObscureAll(style, g, boxes, h, w, t).0, b, h, w, t).value[row - Clamp(b, w, h).y1][col - Clamp(b, w, h).x1]
  {
    Snoc(style, g, boxes, b, h, w, t);
    PaintedPixel(ObscureAll(style, g, boxes, h, w, t).0, Clamp(b, w, h), Obscured(style, ObscureAll(style, g, boxes, h, w, t).0, b, h, w, t).value,
                 ObscureAll(style, g, boxes + [b], h, w, t), h, w, row, col);
  }

  /** Blurring a box writes the blur of exactly the pixels the box covers inside the image, with the
      kernel of the unclamped box; for a box inside the image that is the rectangle
      [x, x + w) x [y, y + h). */
  lemma BlurRegion<P(!new), O>(g: Grid<P>, b: Box, h: nat, w: nat, t: Toolkit<P, O>)
    requires IsGrid(g, h, w) && Sane(t) && InsideImage(b, w, h)
    ensures var region := seq(b.h, i requires 0 <= i < b.h => seq(b.w, j requires 0 <= j < b.w => g[b.y + i][b.x + j]));
            Obscured(Blur, g, b, h, w, t) == t.gaussianBlur(region, KernelSize(b.w, b.h))
  {
    var region := seq(b.h, i requires 0 <= i < b.h => seq(b.w, j requires 0 <= j < b.w => g[b.y + i][b.x + j]));
    var rect := Clamp(b, w, h);
    var cropped := Crop(g, rect, h, w);
    assert |cropped| == |region|;
    forall i | 0 <= i < b.h
      ensures cropped[i] == region[i]
    {
    }
  }
}
