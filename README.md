# resvg draw-op builder, modelled in Dafny

This project models the draw-op builder of resvg's `crates/resvg/src/path.rs`.
The builder takes one resolved usvg path node: its geometry, an optional fill,
an optional stroke, its visibility, its paint order, its shape-rendering mode
and its precomputed bounding boxes. From that node it builds at most one fill
op (`FillPath`) and one stroke op (`StrokePath`). For a visible node it
appends the ops to the caller's `children` list in paint order. It returns
the node's layer bounding box.

Modules:

- `Options` (options.dfy) holds the optional value used at every stage boundary.
- `Geom` (geom.dfy) holds tiny-skia's `Rect`, `NonZeroRect` and `Path`, and usvg's `BBox`.
  - A path is its verbs and a non-empty list of points. Its bounds are the tightest box around those points.
  - `BBox::expand` is the smallest box that covers both of its arguments.
- `Usvg` (usvg.dfy) holds the input node (`usvg::Path`) and its style records.
- `PaintServer` (paint.dfy) holds the resolved `Paint` (a shader or a pattern).
  - Paint resolution (`paint_server::convert`) is a function-typed parameter `Resolver`.
  - It receives the paint, the opacity and the object box, passed through `to_non_zero_rect`, so it gets nothing for a zero-area box. It may resolve to nothing.
- `DrawPath` (path.dfy) models `convert_fill_path`, `convert_stroke_path` and `convert`.
  - `convert` is an imperative method over a `NodeList` object, whose `items` sequence stands for `children: &mut Vec<Node>`.
  - The method is proved against the specification functions `LayerBBox` (what it returns) and `Emitted` (what it appends).
- `DrawPathProps` (path_props.dfy) holds the lemmas that relate several calls or spell out the builder's promises.

Two details of `convert` are easy to misread:

- The fill op is rejected when the geometry's own bounds (`path.bounds()`) have zero width or zero height. The check does not use the effective object box, which may be a text box.
- When a text box is supplied, it replaces the node's bounding box for the layer box too (lines 38-40 and 55), not only for paint coordinates.

## Model

| member | source | states |
|---|---|---|
| `Geom.ToNonZeroRect` | crates/resvg/src/path.rs:106-107 | the object box reaches the paint server only when its width and height are positive, and unchanged |
| `Geom.Expand` | crates/resvg/src/path.rs:57-61 | the expanded layer box covers the old box and the stroke box and lies inside every box that covers both |
| `Geom.BoundsOf` | crates/resvg/src/path.rs:97 | a path's bounds contain every point of the path and each edge is attained by some point |
| `Geom.ZeroWidthIffVertical` | crates/resvg/src/path.rs:96-97 | bounds have zero width exactly when all points share one x (a vertical line) |
| `Geom.ZeroHeightIffHorizontal` | crates/resvg/src/path.rs:96-97 | bounds have zero height exactly when all points share one y (a horizontal line) |
| `Usvg.ShapeRendering.UseShapeAntialiasing` | crates/resvg/src/path.rs:30 | anti-aliasing is on exactly for the geometric-precision rendering mode |
| `DrawPath.Degenerate` | crates/resvg/src/path.rs:96-97 | geometry is degenerate (zero-width or zero-height bounds) exactly when it is a vertical or a horizontal line, a point included |
| `DrawPath.ToRasterRule` | crates/resvg/src/path.rs:101-104 | NonZero maps to Winding and EvenOdd to EvenOdd, in both directions |
| `DrawPath.ConvertFillPath` | crates/resvg/src/path.rs:90-117 | no fill op for zero-width or zero-height geometry whatever the paint; otherwise an op exactly when the paint resolves, carrying that paint, the mapped rule, the anti-alias flag and the geometry unchanged |
| `DrawPath.ConvertStrokePath` | crates/resvg/src/path.rs:119-143 | a stroke op exactly when the paint resolves, with no geometry check, carrying that paint, the stroke style, the anti-alias flag and the geometry unchanged |
| `DrawPath.ObjectBBox` | crates/resvg/src/path.rs:32-40 | the object box is absent exactly when the node has no bounding box, and is the text box whenever one is supplied |
| `DrawPath.FillOp` | crates/resvg/src/path.rs:42-45 | the node yields a fill op exactly when it has a fill, its geometry is not degenerate and the fill paint resolves; the op carries the node's geometry and anti-alias flag |
| `DrawPath.StrokeOp` | crates/resvg/src/path.rs:47-49 | the node yields a stroke op exactly when it has a stroke whose paint resolves; the op carries the node's geometry and anti-alias flag |
| `DrawPath.Draws` | crates/resvg/src/path.rs:42-53 | the node draws something exactly when it has a box and either a non-degenerate fill with a resolvable paint or a stroke with a resolvable paint, which is the negation of the test at line 51 |
| `DrawPath.LayerBBox` | crates/resvg/src/path.rs:51-61 | a box is returned exactly when the node has a box and some op was built; it covers the object box, is exactly the object box expanded by the stroke box when a stroke op was built and a stroke box exists, and is exactly the object box otherwise |
| `DrawPath.InPaintOrder` | crates/resvg/src/path.rs:69-85 | the built ops in paint order (fill then stroke under FillAndStroke, stroke then fill otherwise), omitting any op not built |
| `DrawPath.Emitted` | crates/resvg/src/path.rs:51-87 | at most two ops; none when nothing is drawn or the node is not visible; at least one for a visible node that draws |
| `DrawPath.NodeList.Push` | crates/resvg/src/path.rs:71 | pushing appends one node after the existing ones |
| `DrawPath.Convert` | crates/resvg/src/path.rs:25-88 | returns `LayerBBox` and leaves `children` as its old contents followed by `Emitted` |
| `DrawPathProps.MissingBBoxYieldsNothing` | crates/resvg/src/path.rs:32-37 | with no precomputed bounding box, nothing is returned and nothing appended |
| `DrawPathProps.NoOpsYieldsNothing` | crates/resvg/src/path.rs:51-53 | when neither op is built, nothing is returned and nothing appended, also for a hidden node |
| `DrawPathProps.DegenerateNeverFilled` | crates/resvg/src/path.rs:96-99 | zero-width or zero-height geometry never yields a fill op, for any paint resolver or text box |
| `DrawPathProps.LinesNeverFilled` | crates/resvg/src/path.rs:96-99 | horizontal and vertical lines (and single points) are never filled |
| `DrawPathProps.StrokeBuiltIffPaintResolves` | crates/resvg/src/path.rs:47-49 | a stroke op is built exactly when the node has a stroke whose paint resolves |
| `DrawPathProps.VisibleStrokeEmitted` | crates/resvg/src/path.rs:125-133 | a visible node with a resolvable stroke appends a stroke op whatever its geometry |
| `DrawPathProps.OpsCarryNodeAttributes` | crates/resvg/src/path.rs:109-114 | every appended op carries the node's geometry and anti-alias flag, a fill op the mapped fill rule and a stroke op the stroke style |
| `DrawPathProps.EmittedAreTheBuiltOps` | crates/resvg/src/path.rs:69-85 | for a visible node a fill (stroke) op is appended exactly when that op was built |
| `DrawPathProps.HiddenKeepsLayerBBox` | crates/resvg/src/path.rs:63-67 | visibility never changes the returned box, and a node that is not visible appends nothing |
| `DrawPathProps.PaintOrderReverses` | crates/resvg/src/path.rs:69-85 | switching paint order reverses the appended ops without changing them or the box |
| `DrawPathProps.TextBBoxIsLayerBBox` | crates/resvg/src/path.rs:38-40 | with a text box and no stroke expansion, the returned box is the text box |
| `DrawPathProps.ConvertKeepsFillsHaveArea` | crates/resvg/src/path.rs:69-87 | appending a node's ops keeps the list free of fill ops over degenerate geometry |
| `DrawPathProps.FillOnlyNode` | crates/resvg/src/path.rs:25-88 | a visible node with a box, a resolvable fill over geometry with area and no stroke appends exactly its fill op and returns its own box |
| `DrawPathProps.RectangleBounds` | crates/resvg/src/path.rs:97 | the bounds of the closed 10 by 5 rectangle path are its corners |
| `DrawPathProps.RectangleScenario` | crates/resvg/src/path.rs:25-88 | a visible rectangle with a solid non-zero fill and no stroke yields exactly one Winding fill op, and its layer box is the rectangle's bounds |
| `DrawPathProps.PointStrokeScenario` | crates/resvg/src/path.rs:119-143 | a zero-length path (`M 3 4 L 3 4`) with round caps yields a stroke op and no fill op, and its layer box is the stroke box |

## Left out

- `render_fill_path` and `render_stroke_path` (lines 145-217) are left out. They hand the op to tiny-skia's rasterizer and to the pattern-tile renderer, neither of which is part of this model. The one decision they make is that a failed pattern preparation (lines 160 and 196) returns nothing before the pixel buffer is touched.
- Paint resolution is not modelled. `paint_server::convert` (gradients, solid colours, patterns) is an arbitrary function parameter.
- `Stroke::to_tiny_skia` is not modelled. The stroke style is carried over unchanged, so dash normalisation and width checks are not captured.
- Floating point is not modelled. Coordinates are reals, width and height are compared to 0 exactly as the code does, and f32 rounding and non-finite values are not captured.
- `Geom.BoundsOf` is the min/max box of a path's points, which is how tiny-skia computes `Path::bounds`. The tiny-skia path builder, and its refusal to build paths with fewer than two points, are not part of this model.
- The `log::warn!` diagnostic for a missing bounding box is left out, as is the reference counting of the shared geometry (`Rc`). The geometry is a plain value shared by both ops.
- Groups and images in the render tree are placeholders carrying an identifier. They are built elsewhere.
