/** Frames as numpy holds them (a grid of pixels), the rectangle geometry the
    strip layout uses, and the pixel-level image operations of
    camera_controller.py: the centre crop and the flip are exact index maps;
    the filters and resizing are OpenCV calls, passed in as `OpenCv`. */
module Frames {
  import opened Wrappers

  /** One pixel: its channel values (three, B, G, R, for a captured frame). */
  type Pixel = seq<int>

  datatype Grid = Grid(width: nat, rows: seq<seq<Pixel>>)
  {
    predicate Rectangular() {
      forall i :: 0 <= i < |rows| ==> |rows[i]| == width
    }

    function Height(): nat { |rows| }
  }

  /** A frame: `Height()` rows of `width` pixels each (numpy shape h x w). */
  type Frame = g: Grid | g.Rectangular() witness Grid(0, [])

  function Min(a: int, b: int): int { if a < b then a else b }

  /** Column where the centre crop starts: non-zero only for a wide frame. */
  function OffsetX(f: Frame): nat {
    if f.width > f.Height() then (f.width - f.Height()) / 2 else 0
  }

  /** Row where the centre crop starts: non-zero only for a tall frame. */
  function OffsetY(f: Frame): nat {
    if f.width > f.Height() then 0 else (f.Height() - f.width) / 2
  }

  /** The centre square of `f` (crop_to_square on a frame): a wide frame keeps
      every row and the middle `height` columns, any other frame keeps every
      column and the middle `width` rows. */
  function CenterSquare(f: Frame): (c: Frame)
    ensures c.width == c.Height() == Min(f.width, f.Height())
    ensures OffsetX(f) + c.width <= f.width && OffsetY(f) + c.Height() <= f.Height()
    ensures forall i, j :: 0 <= i < c.Height() && 0 <= j < c.width ==>
              c.rows[i][j] == f.rows[i + OffsetY(f)][j + OffsetX(f)]
  {
    if f.width > f.Height() then KeepColumns(f, (f.width - f.Height()) / 2)
    else KeepRows(f, (f.Height() - f.width) / 2)
  }

  /** `frame[:, x:x+h]`: the `h` columns from `x`, `h` being the height. */
  function KeepColumns(f: Frame, x: nat): (c: Frame)
    requires x + f.Height() <= f.width
    ensures c.width == c.Height() == f.Height()
    ensures forall i, j :: 0 <= i < c.Height() && 0 <= j < c.width ==> c.rows[i][j] == f.rows[i][j + x]
  {
    var h := f.Height();
    Grid(h, seq(h, i requires 0 <= i < h => f.rows[i][x..x + h]))
  }

  /** `frame[y:y+w, :]`: the `w` rows from `y`, `w` being the width. */
  function KeepRows(f: Frame, y: nat): (c: Frame)
    requires y + f.width <= f.Height()
    ensures c.width == c.Height() == f.width
    ensures forall i, j :: 0 <= i < c.Height() && 0 <= j < c.width ==> c.rows[i][j] == f.rows[i + y][j]
  {
    Grid(f.width, f.rows[y..y + f.width])
  }

  /** `crop_to_square`: `None` stays `None`. */
  function CropToSquare(frame: Option<Frame>): (r: Option<Frame>)
    ensures r.Some? <==> frame.Some?
    ensures frame.Some? ==> r.value.width == r.value.Height() == Min(frame.value.width, frame.value.Height())
    ensures frame.Some? ==> r.value == CenterSquare(frame.value)
  {
    match frame
    case None => None
    case Some(f) => Some(CenterSquare(f))
  }

  /** The crop is centred: the margins cut off on the two sides differ by at
      most one pixel, the extra pixel going to the right (or bottom) margin. */
  lemma CropIsCentred(f: Frame)
    ensures var c := CenterSquare(f);
            && OffsetX(f) <= f.width - c.width - OffsetX(f) <= OffsetX(f) + 1
            && OffsetY(f) <= f.Height() - c.Height() - OffsetY(f) <= OffsetY(f) + 1
  {
  }

  /** A square frame comes back unchanged. */
  lemma {:induction false} CropOfSquareIsIdentity(f: Frame)
    requires f.width == f.Height()
    ensures CenterSquare(f) == f
  {
    assert f.rows[0..f.width] == f.rows;
  }

  /** Cropping a second time changes nothing. */
  lemma {:induction false} CropIdempotent(f: Frame)
    ensures CenterSquare(CenterSquare(f)) == CenterSquare(f)
  {
    var c := CenterSquare(f);
    CropOfSquareIsIdentity(c);
  }

  /** `cv2.flip(frame, 1)` mirrors each row; `cv2.flip(frame, 0)` turns the
      frame upside down. */
  function Flip(f: Frame, horizontal: bool): (r: Frame)
    ensures r.width == f.width && r.Height() == f.Height()
    ensures horizontal ==> forall i, j :: 0 <= i < f.Height() && 0 <= j < f.width ==>
              r.rows[i][j] == f.rows[i][f.width - 1 - j]
    ensures !horizontal ==> forall i :: 0 <= i < f.Height() ==>
              r.rows[i] == f.rows[f.Height() - 1 - i]
  {
    var h, w := f.Height(), f.width;
    if horizontal then
      Grid(w, seq(h, i requires 0 <= i < h => seq(w, j requires 0 <= j < w => f.rows[i][w - 1 - j])))
    else
      Grid(w, seq(h, i requires 0 <= i < h => f.rows[h - 1 - i]))
  }

  /** Flipping twice the same way restores the frame. */
  lemma {:induction false} FlipInvolution(f: Frame, horizontal: bool)
    ensures Flip(Flip(f, horizontal), horizontal) == f
  {
    var g := Flip(Flip(f, horizontal), horizontal);
    forall i | 0 <= i < f.Height()
      ensures g.rows[i] == f.rows[i]
    {
      if horizontal {
        assert forall j :: 0 <= j < f.width ==> g.rows[i][j] == f.rows[i][j];
      }
    }
  }

  /** `flip_frame`: `None` stays `None`; flip code 1 when horizontal, else 0. */
  function FlipFrame(frame: Option<Frame>, horizontal: bool): (r: Option<Frame>)
    ensures r.Some? <==> frame.Some?
    ensures frame.Some? ==> r.value.width == frame.value.width && r.value.Height() == frame.value.Height()
    ensures frame.Some? ==> Flip(r.value, horizontal) == frame.value
  {
    match frame
    case None => None
    case Some(f) =>
      FlipInvolution(f, horizontal);
      Some(Flip(f, horizontal))
  }

  /** The OpenCV routines the camera code calls but this model does not
      define: colour conversion, sepia transform, Gaussian blur, sharpening
      convolution and resizing. */
  datatype OpenCv = OpenCv(
    grayscale: Frame -> Frame,
    sepia: Frame -> Frame,
    blur: Frame -> Frame,
    sharpen: Frame -> Frame,
    resize: (Frame, int, int) -> Frame)

  /** The filters `apply_filter` recognises, `NoFilter` being its default. */
  datatype FilterKind = NoFilter | Grayscale | Sepia | Blur | Sharpen

  function FilterName(k: FilterKind): string {
    match k
    case NoFilter => "none"
    case Grayscale => "grayscale"
    case Sepia => "sepia"
    case Blur => "blur"
    case Sharpen => "sharpen"
  }

  /** The names that make `apply_filter` call OpenCV; every other name,
      "none" included, returns the frame untouched. */
  const TransformingFilterNames: set<string> := {"grayscale", "sepia", "blur", "sharpen"}

  function RunFilter(cv: OpenCv, k: FilterKind, f: Frame): Frame {
    match k
    case NoFilter => f
    case Grayscale => cv.grayscale(f)
    case Sepia => cv.sepia(f)
    case Blur => cv.blur(f)
    case Sharpen => cv.sharpen(f)
  }

  /** `apply_filter`: dispatch on the filter's name; `None` stays `None` and
      any name it does not recognise leaves the frame as it is. */
  function ApplyFilter(frame: Option<Frame>, filterType: string, cv: OpenCv): (r: Option<Frame>)
    ensures frame.None? ==> r.None?
    ensures frame.Some? ==> r.Some?
    ensures frame.Some? && filterType !in TransformingFilterNames ==> r == frame
  {
    match frame
    case None => None
    case Some(f) =>
      if filterType == "grayscale" then Some(cv.grayscale(f))
      else if filterType == "sepia" then Some(cv.sepia(f))
      else if filterType == "blur" then Some(cv.blur(f))
      else if filterType == "sharpen" then Some(cv.sharpen(f))
      else Some(f)
  }

  /** The string dispatch agrees with the closed enumeration of filters: each
      filter's own name runs that filter, and "none" is the identity. */
  lemma ApplyFilterByKind(f: Frame, k: FilterKind, cv: OpenCv)
    ensures ApplyFilter(Some(f), FilterName(k), cv) == Some(RunFilter(cv, k, f))
  {
  }

  /** An axis-aligned rectangle in pixels: top-left corner, width, height. */
  datatype Rect = Rect(x: int, y: int, w: int, h: int)
  {
    predicate Contains(px: int, py: int) {
      x <= px < x + w && y <= py < y + h
    }

    predicate InsideCanvas(width: int, height: int) {
      0 <= x && 0 <= y && x + w <= width && y + h <= height
    }

    /** No point lies in both rectangles. */
    predicate DisjointFrom(o: Rect) {
      x + w <= o.x || o.x + o.w <= x || y + h <= o.y || o.y + o.h <= y
    }
  }

  lemma DisjointRectsShareNoPoint(a: Rect, b: Rect, px: int, py: int)
    requires a.DisjointFrom(b) && a.Contains(px, py)
    ensures !b.Contains(px, py)
  {
  }
}
