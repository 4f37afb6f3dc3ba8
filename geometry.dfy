/** Integer rectangles (`MyRect`): structural equality is datatype equality. */
module Geometry {
  import opened Wrappers

  datatype Rect = Rect(left: int, top: int, right: int, bottom: int)

  function Width(r: Rect): int { r.right - r.left }
  function Height(r: Rect): int { r.bottom - r.top }

  function Min(a: int, b: int): int { if a <= b then a else b }
  function Max(a: int, b: int): int { if a >= b then a else b }

  /** A point lies in the closed rectangle (edges included). */
  predicate Contains(r: Rect, x: int, y: int) {
    r.left <= x <= r.right && r.top <= y <= r.bottom
  }

  /** `a` lies inside `b`, edges included. */
  predicate Inside(a: Rect, b: Rect) {
    b.left <= a.left && a.right <= b.right && b.top <= a.top && a.bottom <= b.bottom
  }

  /** The rectangle is not inverted. */
  predicate Proper(r: Rect) {
    r.left <= r.right && r.top <= r.bottom
  }

  /** `intersection_area`: the product of the overlap's width and height when both are
      non-negative, and `None` otherwise (two rectangles that only touch give `Some(0)`). */
  function IntersectionArea(a: Rect, b: Rect): (r: Option<int>)
    ensures r.Some? ==> r.value >= 0
  {
    var dx := Min(a.right, b.right) - Max(a.left, b.left);
    var dy := Min(a.bottom, b.bottom) - Max(a.top, b.top);
    if dx >= 0 && dy >= 0 then Some(dx * dy) else None
  }

  /** There is an area exactly when the two closed rectangles share a point. */
  lemma IntersectionAreaIffSharedPoint(a: Rect, b: Rect)
    ensures IntersectionArea(a, b).Some? <==>
            exists x, y :: Contains(a, x, y) && Contains(b, x, y)
  {
    if IntersectionArea(a, b).Some? {
      var x, y := Max(a.left, b.left), Max(a.top, b.top);
      assert Contains(a, x, y) && Contains(b, x, y);
    }
  }

  /** The area does not depend on the order of the two arguments. */
  lemma IntersectionAreaCommutes(a: Rect, b: Rect)
    ensures IntersectionArea(a, b) == IntersectionArea(b, a)
  {
  }

  /** A proper rectangle inside another overlaps it by its own area; in particular a
      rectangle overlaps itself by `width * height`. */
  lemma IntersectionAreaOfInside(a: Rect, b: Rect)
    requires Proper(a) && Inside(a, b)
    ensures IntersectionArea(a, b) == Some(Width(a) * Height(a))
    ensures IntersectionArea(b, a) == Some(Width(a) * Height(a))
  {
  }
}
