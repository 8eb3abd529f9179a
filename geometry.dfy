/** Bounding boxes, their clamping to an image, and the blur kernel derived from them. */
module Geometry {
  import opened Common

  /** A detection box `[x, y, w, h]`, origin top-left; it may lie partly or wholly outside the image. */
  datatype Box = Box(x: int, y: int, w: int, h: int)

  /** The slice bounds `img[y1:y2, x1:x2]` computed from a box. */
  datatype Rect = Rect(x1: int, y1: int, x2: int, y2: int)

  /** Python wraps a negative slice end around from the far edge; boxes ending left of or above
      the image are therefore outside what this model covers. */
  predicate NoWrap(b: Box) {
    b.x + b.w >= 0 && b.y + b.h >= 0
  }

  /** The box lies wholly inside an image of the given width and height. */
  predicate InsideImage(b: Box, imgW: int, imgH: int) {
    0 <= b.x && 0 <= b.y && 0 <= b.w && 0 <= b.h && b.x + b.w <= imgW && b.y + b.h <= imgH
  }

  /** Clamping as the obscuring functions do it: the far corner from the UNCLAMPED origin,
      then the origin raised to 0. */
  function Clamp(b: Box, imgW: int, imgH: int): (r: Rect)
    ensures 0 <= r.x1 && 0 <= r.y1 && r.x2 <= imgW && r.y2 <= imgH
    ensures InsideImage(b, imgW, imgH) ==> r == Rect(b.x, b.y, b.x + b.w, b.y + b.h)
  {
    var x2 := Min(b.x + b.w, imgW);
    var y2 := Min(b.y + b.h, imgH);
    Rect(Max(b.x, 0), Max(b.y, 0), x2, y2)
  }

  /** Number of rows and columns the slice `[y1:y2, x1:x2]` selects (an inverted slice is empty). */
  function Rows(r: Rect): nat { if r.y1 <= r.y2 then r.y2 - r.y1 else 0 }
  function Cols(r: Rect): nat { if r.x1 <= r.x2 then r.x2 - r.x1 else 0 }

  /** Pixel (row, col) is written by the slice assignment. */
  predicate InRect(r: Rect, row: int, col: int) {
    r.y1 <= row < r.y2 && r.x1 <= col < r.x2
  }

  /** The clamped slice selects exactly the pixels of the image that the box covers. */
  lemma ClampIsIntersection(b: Box, imgW: int, imgH: int, row: int, col: int)
    requires NoWrap(b)
    ensures InRect(Clamp(b, imgW, imgH), row, col) <==>
              (0 <= row < imgH && 0 <= col < imgW && b.y <= row < b.y + b.h && b.x <= col < b.x + b.w)
  {
  }

  /** A fifth of v, truncated toward zero as Python's int() truncates a float. */
  function TruncFifth(v: int): (q: int)
    ensures 0 <= v ==> 0 <= q && 5 * q <= v < 5 * q + 5
    ensures v < 0 ==> q <= 0 && v <= 5 * q && 5 * q - 5 < v
  {
    if 0 <= v then v / 5 else -((-v) / 5)
  }

  /** The Gaussian kernel side: twice a fifth of the smaller box side, plus one, from the unclamped box size. */
  function KernelSize(w: int, h: int): (k: int)
    ensures k % 2 == 1
    ensures 0 <= w && 0 <= h ==> 1 <= k
    ensures 0 <= w && 0 <= h ==> k <= 2 * Min(w, h) / 5 + 1
    ensures Min(w, h) < 5 && -5 < Min(w, h) ==> k == 1
  {
    2 * TruncFifth(Min(w, h)) + 1
  }
}
