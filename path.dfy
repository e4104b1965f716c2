/**
 * The draw-op builder of resvg's path.rs: turns one resolved path node into
 * at most one fill op and one stroke op, appends them to the caller's list
 * of render nodes in paint order, and returns the node's layer bounding box.
 */
module DrawPath {
  import opened Options
  import opened Geom
  import Usvg
  import opened PaintServer

  /** tiny_skia::FillRule. */
  datatype FillRule = Winding | EvenOdd

  /** FillPath: a fill draw op over the node's shared geometry. */
  datatype FillPath = FillPath(paint: Paint, rule: FillRule, antiAlias: bool, path: Path)

  /** StrokePath: a stroke draw op over the node's shared geometry. */
  datatype StrokePath = StrokePath(paint: Paint, stroke: Usvg.StrokeStyle, antiAlias: bool, path: Path)

  /**
   * The render tree's node (resvg's tree::Node). Groups and images are
   * built elsewhere and appear here only so that the list the builder
   * appends to may already hold them.
   */
  datatype Node =
    | GroupNode(groupId: nat)
    | FillPathNode(fillOp: FillPath)
    | StrokePathNode(strokeOp: StrokePath)
    | ImageNode(imageId: nat)

  /** Bounds with no width or no height: a horizontal or vertical line, or a point. */
  predicate Degenerate(p: Path): (d: bool)
    ensures d <==> IsVertical(p.points) || IsHorizontal(p.points)
  {
    ZeroWidthIffVertical(p);
    ZeroHeightIffHorizontal(p);
    p.Bounds().Width() == 0.0 || p.Bounds().Height() == 0.0
  }

  /** Maps usvg's fill rule to the rasterizer's. */
  function ToRasterRule(rule: Usvg.FillRule): (r: FillRule)
    ensures r == Winding <==> rule == Usvg.NonZero
    ensures r == EvenOdd <==> rule == Usvg.EvenOdd
  {
    match rule
    case NonZero => Winding
    case EvenOdd => EvenOdd
  }

  /**
   * convert_fill_path: no op for degenerate geometry whatever the paint;
   * otherwise an op exactly when the paint resolves against the object box.
   */
  function ConvertFillPath(fill: Usvg.Fill, path: Path, objectBBox: Rect, antiAlias: bool,
                           resolve: Resolver): (r: Option<FillPath>)
    ensures Degenerate(path) ==> r.None?
    ensures r.Some? <==>
      !Degenerate(path) && resolve(fill.paint, fill.opacity, ToNonZeroRect(objectBBox)).Some?
    ensures r.Some? ==>
      && r.value.paint == resolve(fill.paint, fill.opacity, ToNonZeroRect(objectBBox)).value
      && r.value.rule == ToRasterRule(fill.rule)
      && r.value.antiAlias == antiAlias
      && r.value.path == path
  {
    if path.Bounds().Width() == 0.0 || path.Bounds().Height() == 0.0 then
      None
    else
      var rule := ToRasterRule(fill.rule);
      match resolve(fill.paint, fill.opacity, ToNonZeroRect(objectBBox))
      case None => None
      case Some(paint) => Some(FillPath(paint, rule, antiAlias, path))
  }

  /**
   * convert_stroke_path: an op exactly when the paint resolves, with no
   * check on the geometry (round or square caps draw even a point).
   */
  function ConvertStrokePath(stroke: Usvg.Stroke, path: Path, objectBBox: Rect, antiAlias: bool,
                             resolve: Resolver): (r: Option<StrokePath>)
    ensures r.Some? <==> resolve(stroke.paint, stroke.opacity, ToNonZeroRect(objectBBox)).Some?
    ensures r.Some? ==>
      && r.value.paint == resolve(stroke.paint, stroke.opacity, ToNonZeroRect(objectBBox)).value
      && r.value.stroke == stroke.style
      && r.value.antiAlias == antiAlias
      && r.value.path == path
  {
    match resolve(stroke.paint, stroke.opacity, ToNonZeroRect(objectBBox))
    case None => None
    case Some(paint) => Some(StrokePath(paint, stroke.style, antiAlias, path))
  }

  /** The object box the ops are built against: the text box when supplied. */
  function ObjectBBox(upath: Usvg.PathNode, textBBox: Option<NonZeroRect>): (r: Option<Rect>)
    ensures r.None? <==> upath.boundingBox.None?
    ensures r.Some? && textBBox.None? ==> r == upath.boundingBox
    ensures r.Some? && textBBox.Some? ==> r.value == textBBox.value
  {
    if upath.boundingBox.None? then None
    else if textBBox.Some? then Some(textBBox.value)
    else upath.boundingBox
  }

  /** The fill op the node yields against object box `box`, if any. */
  function FillOp(upath: Usvg.PathNode, box: Rect, resolve: Resolver): (r: Option<FillPath>)
    ensures r.Some? <==>
      && upath.fill.Some?
      && !Degenerate(upath.data)
      && resolve(upath.fill.value.paint, upath.fill.value.opacity, ToNonZeroRect(box)).Some?
    ensures r.Some? ==>
      && r.value.path == upath.data
      && r.value.antiAlias == upath.renderingMode.UseShapeAntialiasing()
  {
    if upath.fill.None? then None
    else ConvertFillPath(upath.fill.value, upath.data, box, upath.renderingMode.UseShapeAntialiasing(), resolve)
  }

  /** The stroke op the node yields against object box `box`, if any. */
  function StrokeOp(upath: Usvg.PathNode, box: Rect, resolve: Resolver): (r: Option<StrokePath>)
    ensures r.Some? <==>
      upath.stroke.Some? && resolve(upath.stroke.value.paint, upath.stroke.value.opacity, ToNonZeroRect(box)).Some?
    ensures r.Some? ==>
      && r.value.path == upath.data
      && r.value.antiAlias == upath.renderingMode.UseShapeAntialiasing()
  {
    if upath.stroke.None? then None
    else ConvertStrokePath(upath.stroke.value, upath.data, box, upath.renderingMode.UseShapeAntialiasing(), resolve)
  }

  /** The node draws something: it has a box and at least one op was built. */
  predicate Draws(upath: Usvg.PathNode, textBBox: Option<NonZeroRect>, resolve: Resolver): (d: bool)
    ensures d <==>
      && upath.boundingBox.Some?
      && ((&& upath.fill.Some? && !Degenerate(upath.data)
           && resolve(upath.fill.value.paint, upath.fill.value.opacity,
                      ToNonZeroRect(ObjectBBox(upath, textBBox).value)).Some?)
          || (&& upath.stroke.Some?
              && resolve(upath.stroke.value.paint, upath.stroke.value.opacity,
                         ToNonZeroRect(ObjectBBox(upath, textBBox).value)).Some?))
  {
    var box := ObjectBBox(upath, textBBox);
    box.Some? && (FillOp(upath, box.value, resolve).Some? || StrokeOp(upath, box.value, resolve).Some?)
  }

  /**
   * The box `convert` returns: none when nothing is drawn; otherwise the
   * object box, grown by the stroke box when a stroke op was built.
   */
  function LayerBBox(upath: Usvg.PathNode, textBBox: Option<NonZeroRect>, resolve: Resolver): (r: Option<BBox>)
    ensures r.Some? <==> Draws(upath, textBBox, resolve)
    ensures r.Some? ==> r.value.Encloses(ObjectBBox(upath, textBBox).value)
    ensures r.Some? ==>
      (StrokeOp(upath, ObjectBBox(upath, textBBox).value, resolve).Some? && upath.strokeBoundingBox.Some?
       ==> r.value.Encloses(upath.strokeBoundingBox.value))
    ensures r.Some? ==>
      (StrokeOp(upath, ObjectBBox(upath, textBBox).value, resolve).Some? && upath.strokeBoundingBox.Some?
       ==> r.value == Expand(ObjectBBox(upath, textBBox).value, upath.strokeBoundingBox.value))
    ensures r.Some? ==>
      (StrokeOp(upath, ObjectBBox(upath, textBBox).value, resolve).None? || upath.strokeBoundingBox.None?
       ==> r.value == ObjectBBox(upath, textBBox).value)
  {
    if !Draws(upath, textBBox, resolve) then None
    else
      var box := ObjectBBox(upath, textBBox).value;
      if StrokeOp(upath, box, resolve).Some? && upath.strokeBoundingBox.Some? then
        Some(Expand(box, upath.strokeBoundingBox.value))
      else
        Some(box)
  }

  /** The built ops in paint order, leaving out any op not built. */
  function InPaintOrder(order: Usvg.PaintOrder, fill: Option<FillPath>, stroke: Option<StrokePath>): (ops: seq<Node>)
    ensures |ops| == (if fill.Some? then 1 else 0) + (if stroke.Some? then 1 else 0)
    ensures fill.Some? && (order == Usvg.FillAndStroke || stroke.None?) ==> ops[0] == FillPathNode(fill.value)
    ensures stroke.Some? && (order == Usvg.StrokeAndFill || fill.None?) ==> ops[0] == StrokePathNode(stroke.value)
    ensures fill.Some? && stroke.Some? ==>
      ops[1] == if order == Usvg.FillAndStroke then StrokePathNode(stroke.value) else FillPathNode(fill.value)
  {
    var f := if fill.Some? then [FillPathNode(fill.value)] else [];
    var s := if stroke.Some? then [StrokePathNode(stroke.value)] else [];
    if order == Usvg.FillAndStroke then f + s else s + f
  }

  /**
   * What `convert` appends to `children`: nothing for a node that draws
   * nothing or is not visible, otherwise its ops in paint order.
   */
  function Emitted(upath: Usvg.PathNode, textBBox: Option<NonZeroRect>, resolve: Resolver): (ops: seq<Node>)
    ensures |ops| <= 2
    ensures !Draws(upath, textBBox, resolve) || upath.visibility != Usvg.Visible ==> ops == []
    ensures upath.visibility == Usvg.Visible && Draws(upath, textBBox, resolve) ==> |ops| > 0
  {
    if !Draws(upath, textBBox, resolve) || upath.visibility != Usvg.Visible then []
    else
      var box := ObjectBBox(upath, textBBox).value;
      InPaintOrder(upath.paintOrder, FillOp(upath, box, resolve), StrokeOp(upath, box, resolve))
  }

  /** The caller's growing list of render nodes (`children: &mut Vec<Node>`). */
  class NodeList {
    var items: seq<Node>

    constructor ()
      ensures items == []
    {
      items := [];
    }

    /** Vec::push. */
    method Push(n: Node)
      modifies this
      ensures items == old(items) + [n]
    {
      items := items + [n];
    }
  }

  /**
   * convert: builds the node's ops, appends them to `children` when the
   * node is visible, and returns its layer box; `children` keeps its old
   * contents as a prefix.
   */
  method Convert(upath: Usvg.PathNode, textBBox: Option<NonZeroRect>, resolve: Resolver, children: NodeList)
    returns (r: Option<BBox>)
    modifies children
    ensures r == LayerBBox(upath, textBBox, resolve)
    ensures children.items == old(children.items) + Emitted(upath, textBBox, resolve)
  {
    var antiAlias := upath.renderingMode.UseShapeAntialiasing();

    if upath.boundingBox.None? {
      return None;
    }
    var boundingBox: Rect := upath.boundingBox.value;
    if textBBox.Some? {
      boundingBox := textBBox.value;
    }

    var fillPath: Option<FillPath> := None;
    if upath.fill.Some? {
      fillPath := ConvertFillPath(upath.fill.value, upath.data, boundingBox, antiAlias, resolve);
    }
    var strokePath: Option<StrokePath> := None;
    if upath.stroke.Some? {
      strokePath := ConvertStrokePath(upath.stroke.value, upath.data, boundingBox, antiAlias, resolve);
    }
    assert fillPath == FillOp(upath, boundingBox, resolve);
    assert strokePath == StrokeOp(upath, boundingBox, resolve);

    if fillPath.None? && strokePath.None? {
      return None;
    }

    var layerBBox: BBox := boundingBox;
    if strokePath.Some? {
      if upath.strokeBoundingBox.Some? {
        layerBBox := Expand(layerBBox, upath.strokeBoundingBox.value);
      }
    }

    // A hidden node still contributes its box.
    if upath.visibility != Usvg.Visible {
      return Some(layerBBox);
    }

    if upath.paintOrder == Usvg.FillAndStroke {
      if fillPath.Some? {
        children.Push(FillPathNode(fillPath.value));
      }
      if strokePath.Some? {
        children.Push(StrokePathNode(strokePath.value));
      }
    } else {
      if strokePath.Some? {
        children.Push(StrokePathNode(strokePath.value));
      }
      if fillPath.Some? {
        children.Push(FillPathNode(fillPath.value));
      }
    }

    return Some(layerBBox);
  }
}
