/** Points and rectangles with the semantics of Go's image package. */
module Geometry {

  datatype Point = Point(x: int, y: int) {
    function Add(q: Point): Point { Point(x + q.x, y + q.y) }
    function Sub(q: Point): Point { Point(x - q.x, y - q.y) }
    function Mul(k: int): Point { Point(x * k, y * k) }

    /** image.Point.In: the half-open rectangle contains the point. */
    predicate In(r: Rect) {
      r.min.x <= x < r.max.x && r.min.y <= y < r.max.y
    }
  }

  const Zero := Point(0, 0)

  datatype Rect = Rect(min: Point, max: Point) {
    function Dx(): int { max.x - min.x }
    function Dy(): int { max.y - min.y }

    predicate Empty() { min.x >= max.x || min.y >= max.y }

    /** Both corners ordered on both axes. */
    predicate IsCanon() { min.x <= max.x && min.y <= max.y }

    /** image.Rectangle.Canon: swaps the coordinates of an axis whose Max is below its Min. */
    function Canon(): (r: Rect)
      ensures r.IsCanon()
    {
      Rect(Point(if max.x < min.x then max.x else min.x, if max.y < min.y then max.y else min.y),
           Point(if max.x < min.x then min.x else max.x, if max.y < min.y then min.y else max.y))
    }

    function Add(p: Point): Rect { Rect(min.Add(p), max.Add(p)) }
    function Sub(p: Point): Rect { Rect(min.Sub(p), max.Sub(p)) }

    /** image.Rectangle.In: every point of this rectangle is in s (an empty rectangle is in everything). */
    predicate In(s: Rect) {
      Empty() || (s.min.x <= min.x && max.x <= s.max.x && s.min.y <= min.y && max.y <= s.max.y)
    }

    /** image.Rectangle.Eq: same rectangle, or both empty. */
    predicate Eq(s: Rect) { this == s || (Empty() && s.Empty()) }
  }

  /** image.Rect: the canonical rectangle with the given corners. */
  function MakeRect(x0: int, y0: int, x1: int, y1: int): Rect {
    Rect(Point(x0, y0), Point(x1, y1)).Canon()
  }

  lemma {:induction false} CanonIdempotent(r: Rect)
    ensures r.Canon().Canon() == r.Canon()
    ensures r.IsCanon() ==> r.Canon() == r
  {
  }
}
