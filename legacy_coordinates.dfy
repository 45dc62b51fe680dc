/** Modules/coordinates.go: the earlier revision of the pixel/chunk conversions, without an origin. */
module LegacyCoordinates {
  import opened Geometry
  import opened Utility
  import C = Coordinates

  /** toChunkCoord (Modules/coordinates.go:14-19). */
  function ToChunkCoord(size: Point, coord: Point): (c: Point)
    requires C.Divisible(size)
    ensures IsFloorQuotient(coord.x, size.x, c.x) && IsFloorQuotient(coord.y, size.y, c.y)
  {
    DivideFloorIsFloor(coord.x, size.x);
    DivideFloorIsFloor(coord.y, size.y);
    Point(DivideFloor(coord.x, size.x), DivideFloor(coord.y, size.y))
  }

  /** toOuterChunkRect (Modules/coordinates.go:23-39). */
  function ToOuterChunkRect(size: Point, r: Rect): (cr: Rect)
    requires C.Divisible(size)
    ensures var t := r.Canon();
      && IsFloorQuotient(t.min.x, size.x, cr.min.x) && IsFloorQuotient(t.min.y, size.y, cr.min.y)
      && IsCeilQuotient(t.max.x, size.x, cr.max.x) && IsCeilQuotient(t.max.y, size.y, cr.max.y)
  {
    var t := r.Canon();
    DivideFloorIsFloor(t.min.x, size.x);
    DivideFloorIsFloor(t.min.y, size.y);
    DivideCeilIsCeil(t.max.x, size.x);
    DivideCeilIsCeil(t.max.y, size.y);
    Rect(Point(DivideFloor(t.min.x, size.x), DivideFloor(t.min.y, size.y)),
         Point(DivideCeil(t.max.x, size.x), DivideCeil(t.max.y, size.y)))
  }

  /** toInnerChunkRect (Modules/coordinates.go:45-68), with the same clamp of the maximum. */
  function ToInnerChunkRect(size: Point, r: Rect): (cr: Rect)
    requires C.Divisible(size)
    ensures cr.IsCanon()
    ensures var t := r.Canon();
      && IsCeilQuotient(t.min.x, size.x, cr.min.x) && IsCeilQuotient(t.min.y, size.y, cr.min.y)
      && (forall q | IsFloorQuotient(t.max.x, size.x, q) :: cr.max.x == if q < cr.min.x then cr.min.x else q)
      && (forall q | IsFloorQuotient(t.max.y, size.y, q) :: cr.max.y == if q < cr.min.y then cr.min.y else q)
  {
    var t := r.Canon();
    DivideCeilIsCeil(t.min.x, size.x);
    DivideCeilIsCeil(t.min.y, size.y);
    DivideFloorIsFloor(t.max.x, size.x);
    DivideFloorIsFloor(t.max.y, size.y);
    forall q | IsFloorQuotient(t.max.x, size.x, q) ensures q == DivideFloor(t.max.x, size.x) {
      QuotientsUnique(t.max.x, size.x, q, DivideFloor(t.max.x, size.x));
    }
    forall q | IsFloorQuotient(t.max.y, size.y, q) ensures q == DivideFloor(t.max.y, size.y) {
      QuotientsUnique(t.max.y, size.y, q, DivideFloor(t.max.y, size.y));
    }
    var min := Point(DivideCeil(t.min.x, size.x), DivideCeil(t.min.y, size.y));
    var max := Point(DivideFloor(t.max.x, size.x), DivideFloor(t.max.y, size.y));
    Rect(min, Point(if max.x < min.x then min.x else max.x, if max.y < min.y then min.y else max.y))
  }

  /** The three conversions are the current ones with origin (0,0). */
  lemma {:induction false} AgreesWithOriginZero(size: Point, p: Point, r: Rect)
    requires C.Divisible(size)
    ensures ToChunkCoord(size, p) == C.GetChunkCoord(size, p, Zero)
    ensures ToOuterChunkRect(size, r) == C.GetOuterChunkRect(size, r, Zero)
    ensures ToInnerChunkRect(size, r) == C.GetInnerChunkRect(size, r, Zero)
  {
    assert p.Add(Zero) == p;
    assert r.Canon().Add(Zero) == r.Canon();
  }

  /** The pixel lies inside the chunk toChunkCoord returns. */
  lemma ChunkContainsPixel(size: Point, p: Point)
    requires C.Positive(size)
    ensures var c := ToChunkCoord(size, p);
      p.In(C.GetPixelRectangle(Rect(c, c.Add(Point(1, 1))), size, Zero))
  {
    AgreesWithOriginZero(size, p, Rect(Zero, Zero));
    C.ChunkContainsPixel(size, p, Zero);
  }

  /** toOuterChunkRect scaled back to pixels covers the canonical input. */
  lemma OuterCovers(size: Point, r: Rect)
    requires C.Positive(size)
    ensures var c, q := r.Canon(), C.GetPixelRectangle(ToOuterChunkRect(size, r), size, Zero);
      q.min.x <= c.min.x && q.min.y <= c.min.y && c.max.x <= q.max.x && c.max.y <= q.max.y
  {
    AgreesWithOriginZero(size, Zero, r);
    C.OuterCovers(size, r, Zero);
  }

  /** toInnerChunkRect scaled back to pixels lies inside the canonical input or has no area. */
  lemma InnerInside(size: Point, r: Rect)
    requires C.Positive(size)
    ensures var c, q := r.Canon(), C.GetPixelRectangle(ToInnerChunkRect(size, r), size, Zero);
      q.Empty() || (c.min.x <= q.min.x && c.min.y <= q.min.y && q.max.x <= c.max.x && q.max.y <= c.max.y)
  {
    AgreesWithOriginZero(size, Zero, r);
    C.InnerInside(size, r, Zero);
  }
}
