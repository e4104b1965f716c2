/**
 * The interface of the paint server (resvg's paint_server module): the
 * resolved paint and the resolution step, which is not modelled and is
 * passed to the builder as a function.
 */
module PaintServer {
  import opened Options
  import opened Geom
  import Usvg

  /**
   * paint_server::Paint: a ready shader (solid colour or gradient) or a
   * pattern whose tile is rendered when the op is drawn.
   */
  datatype Paint = Shader(shaderId: nat) | Pattern(patternId: nat)

  /**
   * paint_server::convert: resolves a paint against an opacity and the
   * object box (absent when that box has no area); may resolve to nothing.
   */
  type Resolver = (Usvg.PaintServer, Usvg.Opacity, Option<NonZeroRect>) -> Option<Paint>
}
