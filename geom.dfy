/**
 * Geometry the draw-op builder works with: tiny-skia's points, rectangles
 * and paths, and usvg's layer bounding box. Coordinates are reals;
 * tiny-skia's 32-bit floating-point rounding is not modelled.
 */
module Geom {
  import opened Options

  datatype Point = Point(x: real, y: real)

  /** Four edges of an axis-aligned box; the rectangle types below restrict it. */
  datatype Ltrb = Ltrb(left: real, top: real, right: real, bottom: real)
  {
    function Width(): (w: real) { right - left }
    function Height(): (h: real) { bottom - top }

    predicate Contains(p: Point) {
      left <= p.x <= right && top <= p.y <= bottom
    }

    /** `this` covers every point of `other`. */
    predicate Encloses(other: Ltrb) {
      left <= other.left && top <= other.top && other.right <= right && other.bottom <= bottom
    }
  }

  /** tiny_skia::Rect: edges ordered, width and height may be zero. */
  type Rect = r: Ltrb | r.left <= r.right && r.top <= r.bottom
    witness Ltrb(0.0, 0.0, 0.0, 0.0)

  /** tiny_skia::NonZeroRect: width and height strictly positive. */
  type NonZeroRect = r: Ltrb | r.left < r.right && r.top < r.bottom
    witness Ltrb(0.0, 0.0, 1.0, 1.0)

  /** usvg::BBox, built from a rectangle and grown with `Expand`. */
  type BBox = Ltrb

  /** Rect::to_non_zero_rect: the same box when it has area, nothing otherwise. */
  function ToNonZeroRect(r: Rect): (nz: Option<NonZeroRect>)
    ensures nz.Some? <==> r.Width() > 0.0 && r.Height() > 0.0
    ensures nz.Some? ==> nz.value == r
  {
    if r.left < r.right && r.top < r.bottom then Some(r) else None
  }

  function Min(a: real, b: real): (m: real) { if a <= b then a else b }
  function Max(a: real, b: real): (m: real) { if a <= b then b else a }

  /** BBox::expand: the smallest box covering both `b` and `r`. */
  function Expand(b: BBox, r: Rect): (e: BBox)
    ensures e.Encloses(b)
    ensures e.Encloses(r)
    ensures forall c: Ltrb {:trigger c.Encloses(e)} ::
      c.Encloses(b) && c.Encloses(r) ==> c.Encloses(e)
  {
    Ltrb(Min(b.left, r.left), Min(b.top, r.top), Max(b.right, r.right), Max(b.bottom, r.bottom))
  }

  /** The tightest rectangle holding every point (Rect::from_points). */
  function BoundsOf(pts: seq<Point>): (r: Rect)
    requires |pts| > 0
    ensures forall i :: 0 <= i < |pts| ==> r.Contains(pts[i])
    ensures exists i :: 0 <= i < |pts| && pts[i].x == r.left
    ensures exists i :: 0 <= i < |pts| && pts[i].x == r.right
    ensures exists i :: 0 <= i < |pts| && pts[i].y == r.top
    ensures exists i :: 0 <= i < |pts| && pts[i].y == r.bottom
  {
    if |pts| == 1 then
      Ltrb(pts[0].x, pts[0].y, pts[0].x, pts[0].y)
    else
      var t := BoundsOf(pts[1..]);
      assert forall i :: 1 <= i < |pts| ==> pts[i] == pts[1..][i - 1];
      Ltrb(Min(pts[0].x, t.left), Min(pts[0].y, t.top), Max(pts[0].x, t.right), Max(pts[0].y, t.bottom))
  }

  datatype PathVerb = Move | Line | Quad | Cubic | Close

  /**
   * tiny_skia::Path: verbs and their points, never empty. The draw ops share
   * one such value; it is never changed after it is built.
   */
  datatype PathData = PathData(verbs: seq<PathVerb>, points: seq<Point>)
  {
    /** Path::bounds. */
    function Bounds(): (b: Rect)
      requires |points| > 0
    {
      BoundsOf(points)
    }
  }

  type Path = p: PathData | |p.points| > 0
    witness PathData([Move], [Point(0.0, 0.0)])

  /** All points share one x coordinate: a vertical line (or a single point). */
  predicate IsVertical(pts: seq<Point>)
    requires |pts| > 0
  {
    forall i :: 0 <= i < |pts| ==> pts[i].x == pts[0].x
  }

  /** All points share one y coordinate: a horizontal line (or a single point). */
  predicate IsHorizontal(pts: seq<Point>)
    requires |pts| > 0
  {
    forall i :: 0 <= i < |pts| ==> pts[i].y == pts[0].y
  }

  /** A path's bounds have zero width exactly when it is a vertical line. */
  lemma ZeroWidthIffVertical(p: Path)
    ensures p.Bounds().Width() == 0.0 <==> IsVertical(p.points)
  {
  }

  /** A path's bounds have zero height exactly when it is a horizontal line. */
  lemma ZeroHeightIffHorizontal(p: Path)
    ensures p.Bounds().Height() == 0.0 <==> IsHorizontal(p.points)
  {
  }
}
