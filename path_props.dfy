/**
 * Properties of the draw-op builder that relate several calls or follow
 * from the specification functions of DrawPath.
 */
module DrawPathProps {
  import opened Options
  import opened Geom
  import Usvg
  import opened PaintServer
  import opened DrawPath

  /** A node without a precomputed bounding box draws nothing and returns nothing. */
  lemma MissingBBoxYieldsNothing(upath: Usvg.PathNode, textBBox: Option<NonZeroRect>, resolve: Resolver)
    requires upath.boundingBox.None?
    ensures LayerBBox(upath, textBBox, resolve).None?
    ensures Emitted(upath, textBBox, resolve) == []
  {
  }

  /** When neither op is built the result is None and nothing is appended, even for a hidden node. */
  lemma NoOpsYieldsNothing(upath: Usvg.PathNode, textBBox: Option<NonZeroRect>, resolve: Resolver)
    requires ObjectBBox(upath, textBBox).Some?
    requires FillOp(upath, ObjectBBox(upath, textBBox).value, resolve).None?
    requires StrokeOp(upath, ObjectBBox(upath, textBBox).value, resolve).None?
    ensures LayerBBox(upath, textBBox, resolve).None?
    ensures Emitted(upath, textBBox, resolve) == []
  {
  }

  /** Appended nodes are draw ops only: no groups or images. */
  predicate OnlyDrawOps(ops: seq<Node>) {
    forall i :: 0 <= i < |ops| ==> ops[i].FillPathNode? || ops[i].StrokePathNode?
  }

  /** The node has no fill op among `ops`. */
  predicate NoFillOp(ops: seq<Node>) {
    forall i :: 0 <= i < |ops| ==> !ops[i].FillPathNode?
  }

  /**
   * Degenerate geometry (zero-width or zero-height bounds) is never filled,
   * whatever the paint resolver and the text box.
   */
  lemma DegenerateNeverFilled(upath: Usvg.PathNode, textBBox: Option<NonZeroRect>, resolve: Resolver)
    requires Degenerate(upath.data)
    ensures NoFillOp(Emitted(upath, textBBox, resolve))
    ensures OnlyDrawOps(Emitted(upath, textBBox, resolve))
  {
  }

  /** In geometric terms: a vertical or horizontal line (or a point) is never filled. */
  lemma LinesNeverFilled(upath: Usvg.PathNode, textBBox: Option<NonZeroRect>, resolve: Resolver)
    requires IsVertical(upath.data.points) || IsHorizontal(upath.data.points)
    ensures NoFillOp(Emitted(upath, textBBox, resolve))
  {
  }

  /**
   * A stroke op is built exactly when the node has a stroke whose paint
   * resolves; degenerate geometry does not prevent it.
   */
  lemma StrokeBuiltIffPaintResolves(upath: Usvg.PathNode, box: Rect, resolve: Resolver)
    ensures StrokeOp(upath, box, resolve).Some? <==>
      upath.stroke.Some? && resolve(upath.stroke.value.paint, upath.stroke.value.opacity, ToNonZeroRect(box)).Some?
  {
  }

  /** A visible node with a box and a resolvable stroke appends a stroke op, even for a point. */
  lemma VisibleStrokeEmitted(upath: Usvg.PathNode, textBBox: Option<NonZeroRect>, resolve: Resolver)
    requires upath.visibility == Usvg.Visible
    requires ObjectBBox(upath, textBBox).Some?
    requires upath.stroke.Some?
    requires resolve(upath.stroke.value.paint, upath.stroke.value.opacity,
                     ToNonZeroRect(ObjectBBox(upath, textBBox).value)).Some?
    ensures exists i :: 0 <= i < |Emitted(upath, textBBox, resolve)| && Emitted(upath, textBBox, resolve)[i].StrokePathNode?
  {
    var box := ObjectBBox(upath, textBBox).value;
    var ops := Emitted(upath, textBBox, resolve);
    var fill, stroke := FillOp(upath, box, resolve), StrokeOp(upath, box, resolve);
    assert stroke.Some?;
    if fill.Some? && upath.paintOrder == Usvg.FillAndStroke {
      assert ops[1].StrokePathNode?;
    } else {
      assert ops[0].StrokePathNode?;
    }
  }

  /**
   * Every appended op carries the node's geometry unchanged and its
   * anti-alias flag, and a fill op carries the node's mapped fill rule.
   */
  lemma OpsCarryNodeAttributes(upath: Usvg.PathNode, textBBox: Option<NonZeroRect>, resolve: Resolver, i: nat)
    requires i < |Emitted(upath, textBBox, resolve)|
    ensures Emitted(upath, textBBox, resolve)[i].FillPathNode? ==>
      && upath.fill.Some?
      && Emitted(upath, textBBox, resolve)[i].fillOp.path == upath.data
      && Emitted(upath, textBBox, resolve)[i].fillOp.antiAlias == upath.renderingMode.UseShapeAntialiasing()
      && Emitted(upath, textBBox, resolve)[i].fillOp.rule == ToRasterRule(upath.fill.value.rule)
    ensures Emitted(upath, textBBox, resolve)[i].StrokePathNode? ==>
      && upath.stroke.Some?
      && Emitted(upath, textBBox, resolve)[i].strokeOp.path == upath.data
      && Emitted(upath, textBBox, resolve)[i].strokeOp.antiAlias == upath.renderingMode.UseShapeAntialiasing()
      && Emitted(upath, textBBox, resolve)[i].strokeOp.stroke == upath.stroke.value.style
    ensures OnlyDrawOps(Emitted(upath, textBBox, resolve))
  {
  }

  /**
   * For a visible node, the appended ops are exactly the built ones: a fill
   * op appears iff one was built, and likewise a stroke op.
   */
  lemma EmittedAreTheBuiltOps(upath: Usvg.PathNode, textBBox: Option<NonZeroRect>, resolve: Resolver)
    requires upath.visibility == Usvg.Visible && ObjectBBox(upath, textBBox).Some?
    ensures forall f :: FillPathNode(f) in Emitted(upath, textBBox, resolve) <==>
      FillOp(upath, ObjectBBox(upath, textBBox).value, resolve) == Some(f)
    ensures forall s :: StrokePathNode(s) in Emitted(upath, textBBox, resolve) <==>
      StrokeOp(upath, ObjectBBox(upath, textBBox).value, resolve) == Some(s)
  {
  }

  /**
   * Visibility never changes the returned box; a node that is not visible
   * appends nothing.
   */
  lemma HiddenKeepsLayerBBox(upath: Usvg.PathNode, textBBox: Option<NonZeroRect>, resolve: Resolver,
                             v: Usvg.Visibility)
    ensures LayerBBox(upath.(visibility := v), textBBox, resolve) == LayerBBox(upath, textBBox, resolve)
    ensures v != Usvg.Visible ==> Emitted(upath.(visibility := v), textBBox, resolve) == []
  {
  }

  /**
   * Switching the paint order reverses the appended ops and changes
   * nothing else: the same ops, in the opposite order, and the same box.
   */
  lemma PaintOrderReverses(upath: Usvg.PathNode, textBBox: Option<NonZeroRect>, resolve: Resolver)
    ensures
      var a := Emitted(upath.(paintOrder := Usvg.FillAndStroke), textBBox, resolve);
      var b := Emitted(upath.(paintOrder := Usvg.StrokeAndFill), textBBox, resolve);
      |a| == |b| && forall i :: 0 <= i < |a| ==> a[i] == b[|b| - 1 - i]
    ensures LayerBBox(upath.(paintOrder := Usvg.FillAndStroke), textBBox, resolve)
         == LayerBBox(upath.(paintOrder := Usvg.StrokeAndFill), textBBox, resolve)
  {
  }

  /**
   * The text box replaces the node's box for the layer box too: with a
   * text box and no stroke expansion the returned box is the text box.
   */
  lemma TextBBoxIsLayerBBox(upath: Usvg.PathNode, text: NonZeroRect, resolve: Resolver)
    requires LayerBBox(upath, Some(text), resolve).Some?
    requires upath.stroke.None? || upath.strokeBoundingBox.None?
    ensures LayerBBox(upath, Some(text), resolve) == Some(text)
  {
  }

  /** Every fill op in the list covers an area (the builder's invariant on its output). */
  predicate FillsHaveArea(items: seq<Node>) {
    forall i :: 0 <= i < |items| && items[i].FillPathNode? ==> !Degenerate(items[i].fillOp.path)
  }

  /** Appending a node's ops to a list whose fills have area keeps that so. */
  lemma ConvertKeepsFillsHaveArea(items: seq<Node>, upath: Usvg.PathNode,
                                  textBBox: Option<NonZeroRect>, resolve: Resolver)
    requires FillsHaveArea(items)
    ensures FillsHaveArea(items + Emitted(upath, textBBox, resolve))
  {
  }

  /** The closed rectangle 0 <= x <= 10, 0 <= y <= 5. */
  function RectanglePath(): (p: Path) {
    PathData([Move, Line, Line, Line, Close],
             [Point(0.0, 0.0), Point(10.0, 0.0), Point(10.0, 5.0), Point(0.0, 5.0)])
  }

  /** The rectangle's bounds are its corners. */
  lemma RectangleBounds()
    ensures RectanglePath().Bounds() == Ltrb(0.0, 0.0, 10.0, 5.0)
  {
    var pts := RectanglePath().points;
    assert pts[2..][1..] == pts[3..];
    assert pts[1..][1..] == pts[2..];
    assert BoundsOf(pts[3..]) == Ltrb(0.0, 5.0, 0.0, 5.0);
    assert BoundsOf(pts[2..]) == Ltrb(0.0, 5.0, 10.0, 5.0);
    assert BoundsOf(pts[1..]) == Ltrb(0.0, 0.0, 10.0, 5.0);
  }

  const Blue := Usvg.SolidColor(Usvg.Color(0, 0, 255))

  /** A visible node over geometry `p`, filled opaque blue with the non-zero rule, not stroked. */
  function RectangleNode(aa: Usvg.ShapeRendering, p: Path): (n: Usvg.PathNode) {
    Usvg.PathNode(Usvg.Visible, Some(Usvg.Fill(Blue, 1.0, Usvg.NonZero)), None, Usvg.FillAndStroke, aa,
                  p, Some(Ltrb(0.0, 0.0, 10.0, 5.0)), None)
  }

  /**
   * A visible node with a fill, no stroke, a box and geometry with area
   * yields exactly its fill op, and its layer box is its own box.
   */
  lemma FillOnlyNode(upath: Usvg.PathNode, resolve: Resolver)
    requires upath.visibility == Usvg.Visible && upath.stroke.None?
    requires upath.fill.Some? && upath.boundingBox.Some? && !Degenerate(upath.data)
    requires resolve(upath.fill.value.paint, upath.fill.value.opacity, ToNonZeroRect(upath.boundingBox.value)).Some?
    ensures Emitted(upath, None, resolve)
         == [FillPathNode(FillPath(resolve(upath.fill.value.paint, upath.fill.value.opacity,
                                           ToNonZeroRect(upath.boundingBox.value)).value,
                                   ToRasterRule(upath.fill.value.rule),
                                   upath.renderingMode.UseShapeAntialiasing(), upath.data))]
    ensures LayerBBox(upath, None, resolve) == upath.boundingBox
  {
  }

  /**
   * A visible rectangle (any geometry whose bounds are 0 <= x <= 10,
   * 0 <= y <= 5, such as RectanglePath) with an opaque solid non-zero
   * fill, no stroke and the default paint order yields exactly one fill
   * op, and its layer box is the rectangle's bounds.
   */
  lemma RectangleScenario(resolve: Resolver, aa: Usvg.ShapeRendering, p: Path)
    requires p.Bounds() == Ltrb(0.0, 0.0, 10.0, 5.0)
    requires resolve(Blue, 1.0, Some(Ltrb(0.0, 0.0, 10.0, 5.0))).Some?
    ensures Emitted(RectangleNode(aa, p), None, resolve)
         == [FillPathNode(FillPath(resolve(Blue, 1.0, Some(Ltrb(0.0, 0.0, 10.0, 5.0))).value,
                                   Winding, aa.UseShapeAntialiasing(), p))]
    ensures LayerBBox(RectangleNode(aa, p), None, resolve) == Some(p.Bounds())
  {
    var box := Ltrb(0.0, 0.0, 10.0, 5.0);
    assert ToNonZeroRect(box) == Some(box);
    FillOnlyNode(RectangleNode(aa, p), resolve);
  }

  /**
   * A zero-length path (\"M 3 4 L 3 4\": two equal points) with round caps and a resolvable stroke paint is
   * still stroked, while its fill is dropped.
   */
  lemma PointStrokeScenario(resolve: Resolver, fill: Usvg.Fill, paint: Usvg.PaintServer, width: Usvg.StrokeWidth)
    requires resolve(paint, 1.0, None).Some?
    ensures
      var p := PathData([Move, Line], [Point(3.0, 4.0), Point(3.0, 4.0)]);
      var node := Usvg.PathNode(Usvg.Visible, Some(fill),
                                Some(Usvg.Stroke(paint, 1.0, Usvg.StrokeStyle(width, Usvg.RoundCap, Usvg.RoundJoin, 4.0, []))),
                                Usvg.FillAndStroke, Usvg.GeometricPrecision, p,
                                Some(Ltrb(3.0, 4.0, 3.0, 4.0)), Some(Ltrb(3.0 - width, 4.0 - width, 3.0 + width, 4.0 + width)));
      && Emitted(node, None, resolve)
         == [StrokePathNode(StrokePath(resolve(paint, 1.0, None).value,
                                       Usvg.StrokeStyle(width, Usvg.RoundCap, Usvg.RoundJoin, 4.0, []), true, p))]
      && LayerBBox(node, None, resolve) == Some(Ltrb(3.0 - width, 4.0 - width, 3.0 + width, 4.0 + width))
  {
  }
}
