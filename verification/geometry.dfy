/** Rectangles as the host library's `Rect`, with its point test and blit clipping. */
module Geometry {

  datatype Point = Point(x: int, y: int)

  /** A rectangle with its top-left corner at (x, y). */
  datatype Rect = Rect(x: int, y: int, w: int, h: int)

  /** `Rect.collidepoint`: the right and bottom edges are not inside. */
  predicate CollidePoint(r: Rect, p: Point)
  {
    r.x <= p.x < r.x + r.w && r.y <= p.y < r.y + r.h
  }

  /** `outer` covers every point of `inner`. */
  predicate Contains(outer: Rect, inner: Rect)
  {
    outer.x <= inner.x && inner.x + inner.w <= outer.x + outer.w
    && outer.y <= inner.y && inner.y + inner.h <= outer.y + outer.h
  }

  function MaxInt(a: int, b: int): int { if a < b then b else a }
  function MinInt(a: int, b: int): int { if a < b then a else b }

  /**
   * The rectangle a blit reports: the destination clipped to the target's
   * bounds, with zero size when nothing of it lies inside them.
   */
  function Clip(dest: Rect, bounds: Rect): (r: Rect)
    ensures r.w >= 0 && r.h >= 0
    ensures forall p :: CollidePoint(r, p) <==> CollidePoint(dest, p) && CollidePoint(bounds, p)
    ensures dest.w > 0 && dest.h > 0 && Contains(bounds, dest) ==> r == dest
  {
    var x := MaxInt(dest.x, bounds.x);
    var y := MaxInt(dest.y, bounds.y);
    var w := MinInt(dest.x + dest.w, bounds.x + bounds.w) - x;
    var h := MinInt(dest.y + dest.h, bounds.y + bounds.h) - y;
    if w > 0 && h > 0 then Rect(x, y, w, h) else Rect(x, y, 0, 0)
  }
}
