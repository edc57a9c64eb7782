/** The integer rectangle the ROI planner and the reader share: a corner
    `(min_x, min_y)` plus a width and a height. The class itself lives in the
    repository's image_reader module, which is not part of this model; the
    intersection is the usual maximal common sub-rectangle. */
module Rectangles {

  datatype Rect = Rect(minX: int, minY: int, width: int, height: int) {

    function MaxX(): int {
      minX + width
    }

    function MaxY(): int {
      minY + height
    }

    /** Sizes are never negative; a zero size is an empty rectangle. */
    predicate Valid() {
      width >= 0 && height >= 0
    }

    predicate IsEmpty() {
      width <= 0 || height <= 0
    }

    /** Pixel `(x, y)` lies in this rectangle. */
    predicate Contains(x: int, y: int) {
      minX <= x < MaxX() && minY <= y < MaxY()
    }

    predicate ContainsRect(o: Rect) {
      minX <= o.minX && o.MaxX() <= MaxX() && minY <= o.minY && o.MaxY() <= MaxY()
    }
  }

  function Max(a: int, b: int): int {
    if a >= b then a else b
  }

  function Min(a: int, b: int): int {
    if a <= b then a else b
  }

  /** `a.get_intersection(b)`: exactly the pixels lying in both. */
  function Intersection(a: Rect, b: Rect): (r: Rect)
    ensures r.Valid()
    ensures forall x, y :: r.Contains(x, y) <==> a.Contains(x, y) && b.Contains(x, y)
  {
    var x0 := Max(a.minX, b.minX);
    var y0 := Max(a.minY, b.minY);
    var x1 := Min(a.MaxX(), b.MaxX());
    var y1 := Min(a.MaxY(), b.MaxY());
    Rect(x0, y0, Max(0, x1 - x0), Max(0, y1 - y0))
  }

  /** The intersection is the largest rectangle inside both: any non-empty
      rectangle lying in `a` and in `b` lies in it. */
  lemma IntersectionMaximal(a: Rect, b: Rect, c: Rect)
    requires !c.IsEmpty()
    requires a.ContainsRect(c) && b.ContainsRect(c)
    ensures Intersection(a, b).ContainsRect(c)
  {
  }

  /** Clipping a rectangle that already fits changes nothing. */
  lemma IntersectionOfContained(a: Rect, b: Rect)
    requires a.Valid() && b.ContainsRect(a)
    ensures Intersection(a, b) == a
  {
  }
}
