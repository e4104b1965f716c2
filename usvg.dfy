/**
 * The resolved path node the draw-op builder consumes (usvg::Path) and the
 * style records it carries. Bounding boxes are computed upstream.
 */
module Usvg {
  import opened Options
  import opened Geom

  /** usvg::Opacity: a value in [0, 1]. */
  type Opacity = r: real | 0.0 <= r <= 1.0

  datatype Color = Color(red: nat, green: nat, blue: nat)

  /**
   * usvg::Paint: what a fill or stroke is painted with. Gradients and
   * patterns are referred to by identity; their contents belong to the
   * paint server.
   */
  datatype PaintServer =
    | SolidColor(color: Color)
    | LinearGradient(gradientId: nat)
    | RadialGradient(gradientId: nat)
    | PatternRef(patternId: nat)

  datatype FillRule = NonZero | EvenOdd

  datatype Fill = Fill(paint: PaintServer, opacity: Opacity, rule: FillRule)

  datatype LineCap = Butt | RoundCap | SquareCap
  datatype LineJoin = Miter | MiterClip | RoundJoin | Bevel

  /** usvg::StrokeWidth: strictly positive. */
  type StrokeWidth = r: real | r > 0.0 witness 1.0

  /** Width, caps, joins, miter limit and dashes, carried over unchanged. */
  datatype StrokeStyle = StrokeStyle(
    width: StrokeWidth, cap: LineCap, join: LineJoin, miterLimit: real, dashes: seq<real>)

  datatype Stroke = Stroke(paint: PaintServer, opacity: Opacity, style: StrokeStyle)

  datatype Visibility = Visible | Hidden | Collapse

  datatype PaintOrder = FillAndStroke | StrokeAndFill

  datatype ShapeRendering = OptimizeSpeed | CrispEdges | GeometricPrecision
  {
    /** ShapeRendering::use_shape_antialiasing: only geometric precision smooths edges. */
    function UseShapeAntialiasing(): (aa: bool)
      ensures aa <==> this == GeometricPrecision
    {
      match this
      case OptimizeSpeed => false
      case CrispEdges => false
      case GeometricPrecision => true
    }
  }

  /** usvg::Path: one resolved path node of the scene. */
  datatype PathNode = PathNode(
    visibility: Visibility,
    fill: Option<Fill>,
    stroke: Option<Stroke>,
    paintOrder: PaintOrder,
    renderingMode: ShapeRendering,
    data: Path,
    boundingBox: Option<Rect>,
    strokeBoundingBox: Option<Rect>)
}
