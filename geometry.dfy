/** Integer rectangles and the overlap test the game uses for every collision. */
module Geometry {

  /** An SDL_Rect: top-left corner (x, y), width w and height h, y growing downwards. */
  datatype Rect = Rect(x: int, y: int, w: int, h: int)

  /** A rectangle with no area; SDL reports no intersection for it. */
  predicate Empty(r: Rect) {
    r.w <= 0 || r.h <= 0
  }

  /** SDL_HasIntersection: both rectangles have area and their open extents overlap on both
      axes, so rectangles that only touch along an edge do not intersect. */
  predicate Intersects(a: Rect, b: Rect) {
    !Empty(a) && !Empty(b) &&
    a.x < b.x + b.w && b.x < a.x + a.w &&
    a.y < b.y + b.h && b.y < a.y + a.h
  }

  /** The pixel (px, py) lies inside r. */
  predicate Covers(r: Rect, px: int, py: int) {
    r.x <= px < r.x + r.w && r.y <= py < r.y + r.h
  }

  function Max(a: int, b: int): int {
    if a < b then b else a
  }

  /** The overlap test agrees with the pixel-level meaning of "the two rectangles share a pixel". */
  lemma IntersectsIffSharedPixel(a: Rect, b: Rect)
    ensures Intersects(a, b) <==> exists px, py :: Covers(a, px, py) && Covers(b, px, py)
  {
    if Intersects(a, b) {
      assert Covers(a, Max(a.x, b.x), Max(a.y, b.y)) && Covers(b, Max(a.x, b.x), Max(a.y, b.y));
    }
  }
}
