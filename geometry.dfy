/** Integer points and half-open rectangles, as the image package defines
    them: a rectangle holds the points p with Min <= p < Max on both axes. */
module Geometry {

  datatype Point = Point(x: int, y: int)

  datatype Rect = Rect(min: Point, max: Point) {

    /** p.In(r) */
    predicate Contains(p: Point) {
      min.x <= p.x < max.x && min.y <= p.y < max.y
    }

    predicate IsEmpty() {
      min.x >= max.x || min.y >= max.y
    }

    /** The largest rectangle contained by both; the zero rectangle when
        they do not overlap. */
    function Intersect(s: Rect): (r: Rect)
      ensures r.IsEmpty() ==> r == ZeroRect
      ensures !r.IsEmpty() ==> Contains(r.min) && s.Contains(r.min)
    {
      var clipped := Rect(Point(Max(min.x, s.min.x), Max(min.y, s.min.y)),
                          Point(Min(max.x, s.max.x), Min(max.y, s.max.y)));
      if clipped.IsEmpty() then ZeroRect else clipped
    }
  }

  const ZeroRect := Rect(Point(0, 0), Point(0, 0))

  function Min(a: int, b: int): int { if a <= b then a else b }
  function Max(a: int, b: int): int { if a <= b then b else a }

  /** A point lies in the intersection exactly when it lies in both. */
  lemma IntersectContains(r: Rect, s: Rect, p: Point)
    ensures r.Intersect(s).Contains(p) <==> r.Contains(p) && s.Contains(p)
  {
  }

  /** A rectangle is empty exactly when it contains no point. */
  lemma EmptyHasNoPoint(r: Rect)
    ensures r.IsEmpty() <==> forall p :: !r.Contains(p)
  {
    if !r.IsEmpty() {
      assert r.Contains(r.min);
    }
  }

  /** image.Rect(x0, y0, x1, y1): the corners are swapped where needed so
      that Min <= Max. */
  function MakeRect(x0: int, y0: int, x1: int, y1: int): (r: Rect)
    ensures r.min.x <= r.max.x && r.min.y <= r.max.y
  {
    var (minX, maxX) := if x0 > x1 then (x1, x0) else (x0, x1);
    var (minY, maxY) := if y0 > y1 then (y1, y0) else (y0, y1);
    Rect(Point(minX, minY), Point(maxX, maxY))
  }

  /** The canonical rectangle holds the points between the two corners,
      whichever order they were given in. */
  lemma MakeRectContains(x0: int, y0: int, x1: int, y1: int, p: Point)
    ensures MakeRect(x0, y0, x1, y1).Contains(p) <==>
              Min(x0, x1) <= p.x < Max(x0, x1) && Min(y0, y1) <= p.y < Max(y0, y1)
  {
  }
}
