/** coordinates.go: conversion between pixel and chunk coordinates on a grid of chunks of size
    `size` pixels, shifted by `origin` (positive origin values move the grid toward negative
    coordinates). Pixel sizes, chunk coordinates and chunk sizes are all points; chunk rectangles
    are rectangles. */
module Coordinates {
  import opened Geometry
  import opened Utility
  import Arith

  /** A chunk size that can be divided by (a zero component makes Go's division panic). */
  predicate Divisible(size: Point) { size.x != 0 && size.y != 0 }

  /** A chunk size the rectangle statements are about: positive on both axes. */
  predicate Positive(size: Point) { size.x > 0 && size.y > 0 }

  /** getChunkCoord (coordinates.go:34-39): the floor quotient of the shifted pixel on each axis. */
  function GetChunkCoord(size: Point, coord: Point, origin: Point): (c: Point)
    requires Divisible(size)
    ensures IsFloorQuotient(coord.x + origin.x, size.x, c.x)
    ensures IsFloorQuotient(coord.y + origin.y, size.y, c.y)
  {
    DivideFloorIsFloor(coord.x + origin.x, size.x);
    DivideFloorIsFloor(coord.y + origin.y, size.y);
    Point(DivideFloor(coord.x + origin.x, size.x), DivideFloor(coord.y + origin.y, size.y))
  }

  /** getOuterChunkRect (coordinates.go:45-61): floor of the shifted canonical minimum, ceiling of its
      maximum. */
  function GetOuterChunkRect(size: Point, r: Rect, origin: Point): (cr: Rect)
    requires Divisible(size)
    ensures var t := r.Canon().Add(origin);
      && IsFloorQuotient(t.min.x, size.x, cr.min.x) && IsFloorQuotient(t.min.y, size.y, cr.min.y)
      && IsCeilQuotient(t.max.x, size.x, cr.max.x) && IsCeilQuotient(t.max.y, size.y, cr.max.y)
  {
    var t := r.Canon().Add(origin);
    DivideFloorIsFloor(t.min.x, size.x);
    DivideFloorIsFloor(t.min.y, size.y);
    DivideCeilIsCeil(t.max.x, size.x);
    DivideCeilIsCeil(t.max.y, size.y);
    Rect(Point(DivideFloor(t.min.x, size.x), DivideFloor(t.min.y, size.y)),
         Point(DivideCeil(t.max.x, size.x), DivideCeil(t.max.y, size.y)))
  }

  /** getInnerChunkRect (coordinates.go:69-92): ceiling of the shifted canonical minimum, floor of its
      maximum, with each maximum raised to the minimum where it would fall below it. */
  function GetInnerChunkRect(size: Point, r: Rect, origin: Point): (cr: Rect)
    requires Divisible(size)
    ensures cr.IsCanon()
    ensures var t := r.Canon().Add(origin);
      && IsCeilQuotient(t.min.x, size.x, cr.min.x) && IsCeilQuotient(t.min.y, size.y, cr.min.y)
      && (forall q | IsFloorQuotient(t.max.x, size.x, q) :: cr.max.x == if q < cr.min.x then cr.min.x else q)
      && (forall q | IsFloorQuotient(t.max.y, size.y, q) :: cr.max.y == if q < cr.min.y then cr.min.y else q)
  {
    var t := r.Canon().Add(origin);
    DivideCeilIsCeil(t.min.x, size.x);
    DivideCeilIsCeil(t.min.y, size.y);
    DivideFloorIsFloor(t.max.x, size.x);
    DivideFloorIsFloor(t.max.y, size.y);
    forall q | IsFloorQuotient(t.max.x, size.x, q) ensures q == DivideFloor(t.max.x, size.x) {
      QuotientsUnique(t.max.x, size.x, q, DivideFloor(t.max.x, size.x));
    }
    forall q | IsFloorQuotient(t.max.y, size.y, q) ensures q == DivideFloor(t.max.y, size.y) {
      QuotientsUnique(t.max.y, size.y, q, DivideFloor(t.max.y, size.y));
    }
    var min := Point(DivideCeil(t.min.x, size.x), DivideCeil(t.min.y, size.y));
    var max := Point(DivideFloor(t.max.x, size.x), DivideFloor(t.max.y, size.y));
    var maxX := if max.x < min.x then min.x else max.x;
    var maxY := if max.y < min.y then min.y else max.y;
    Rect(min, Point(maxX, maxY))
  }

  /** chunkRectangle.getPixelRectangle (coordinates.go:97-106): the canonical chunk rectangle scaled
      by the chunk size, then shifted back by the origin. */
  function GetPixelRectangle(cr: Rect, size: Point, origin: Point): (r: Rect)
    ensures Positive(size) ==> r.IsCanon()
    ensures r.Add(origin) == Rect(Scale(cr.Canon().min, size), Scale(cr.Canon().max, size))
  {
    var t := cr.Canon();
    var q := Rect(Scale(t.min, size), Scale(t.max, size));
    assert Positive(size) ==> q.IsCanon() by {
      if Positive(size) {
        Arith.MulLeRight(t.min.x, t.max.x, size.x);
        Arith.MulLeRight(t.min.y, t.max.y, size.y);
      }
    }
    q.Sub(origin)
  }

  /** Component-wise product. */
  function Scale(p: Point, size: Point): Point { Point(p.x * size.x, p.y * size.y) }

  /** chunkSize.getPixelSize (coordinates.go:109-114). */
  function GetPixelSize(cs: Point, size: Point): (ps: Point)
    ensures ps == Scale(cs, size)
  {
    Point(cs.x * size.x, cs.y * size.y)
  }

  // ---------------------------------------------------------------------------------------------
  // Properties

  /** The pixel lies in the chunk getChunkCoord returns. */
  lemma ChunkContainsPixel(size: Point, p: Point, origin: Point)
    requires Positive(size)
    ensures var c := GetChunkCoord(size, p, origin);
      p.In(GetPixelRectangle(Rect(c, c.Add(Point(1, 1))), size, origin))
  {
    var c := GetChunkCoord(size, p, origin);
    assert (c.x + 1) * size.x == c.x * size.x + size.x;
    assert (c.y + 1) * size.y == c.y * size.y + size.y;
  }

  /** The origin is a shift of the pixel plane. */
  lemma {:induction false} OriginIsShift(size: Point, p: Point, r: Rect, origin: Point)
    requires Divisible(size)
    ensures GetChunkCoord(size, p, origin) == GetChunkCoord(size, p.Add(origin), Zero)
    ensures GetOuterChunkRect(size, r, origin) == GetOuterChunkRect(size, r.Canon().Add(origin), Zero)
    ensures GetInnerChunkRect(size, r, origin) == GetInnerChunkRect(size, r.Canon().Add(origin), Zero)
  {
    var t := r.Canon().Add(origin);
    assert t.IsCanon() && t.Canon() == t;
    assert t.Add(Zero) == t;
  }

  /** The outer chunk rectangle, in pixels, covers the canonical input. */
  lemma OuterCovers(size: Point, r: Rect, origin: Point)
    requires Positive(size)
    ensures var c, q := r.Canon(), GetPixelRectangle(GetOuterChunkRect(size, r, origin), size, origin);
      q.min.x <= c.min.x && q.min.y <= c.min.y && c.max.x <= q.max.x && c.max.y <= q.max.y
  {
    var cr := GetOuterChunkRect(size, r, origin);
    Arith.MulLeRight(cr.min.x, cr.max.x, size.x) by {
      var t := r.Canon().Add(origin);
      assert cr.min.x * size.x <= t.min.x <= t.max.x <= cr.max.x * size.x;
      Arith.MulLeCancel(cr.min.x, cr.max.x, size.x);
    }
    Arith.MulLeRight(cr.min.y, cr.max.y, size.y) by {
      var t := r.Canon().Add(origin);
      assert cr.min.y * size.y <= t.min.y <= t.max.y <= cr.max.y * size.y;
      Arith.MulLeCancel(cr.min.y, cr.max.y, size.y);
    }
  }

  /** The inner chunk rectangle, in pixels, lies inside the canonical input or has no area. */
  lemma InnerInside(size: Point, r: Rect, origin: Point)
    requires Positive(size)
    ensures var c, q := r.Canon(), GetPixelRectangle(GetInnerChunkRect(size, r, origin), size, origin);
      q.Empty() || (c.min.x <= q.min.x && c.min.y <= q.min.y && q.max.x <= c.max.x && q.max.y <= c.max.y)
  {
    var cr := GetInnerChunkRect(size, r, origin);
    assert cr.Canon() == cr;
    var t := r.Canon().Add(origin);
    DivideFloorIsFloor(t.max.x, size.x);
    DivideFloorIsFloor(t.max.y, size.y);
    assert cr.max.x == cr.min.x || IsFloorQuotient(t.max.x, size.x, cr.max.x);
    assert cr.max.y == cr.min.y || IsFloorQuotient(t.max.y, size.y, cr.max.y);
    var q := GetPixelRectangle(cr, size, origin);
    if cr.max.x == cr.min.x || cr.max.y == cr.min.y {
      assert q.Empty();
    }
  }

  /** Rectangles with the same corners in another order convert alike. */
  lemma {:induction false} CornerOrderIrrelevant(size: Point, r: Rect, origin: Point)
    requires Divisible(size)
    ensures var s := Rect(r.max, r.min);
      GetOuterChunkRect(size, s, origin) == GetOuterChunkRect(size, r, origin) &&
      GetInnerChunkRect(size, s, origin) == GetInnerChunkRect(size, r, origin)
  {
    assert Rect(r.max, r.min).Canon() == r.Canon();
  }

  /** A multiple of a positive size divides exactly. */
  lemma MultipleQuotient(c: int, s: int)
    requires s > 0
    ensures DivideFloor(c * s, s) == c && DivideCeil(c * s, s) == c
  {
    DivideFloorIsFloor(c * s, s);
    DivideCeilIsCeil(c * s, s);
    QuotientsUnique(c * s, s, c, DivideFloor(c * s, s));
    QuotientsUnique(c * s, s, c, DivideCeil(c * s, s));
  }

  /** A canonical chunk rectangle converted to pixels converts back to itself, outer and inner: the
      conversions give the closest chunk rectangle. */
  lemma {:induction false} ChunkRectRoundTrip(cr: Rect, size: Point, origin: Point)
    requires Positive(size) && cr.IsCanon()
    ensures GetOuterChunkRect(size, GetPixelRectangle(cr, size, origin), origin) == cr
    ensures GetInnerChunkRect(size, GetPixelRectangle(cr, size, origin), origin) == cr
  {
    var q := GetPixelRectangle(cr, size, origin);
    assert cr.Canon() == cr;
    assert q.Canon() == q;
    MultipleQuotient(cr.min.x, size.x);
    MultipleQuotient(cr.min.y, size.y);
    MultipleQuotient(cr.max.x, size.x);
    MultipleQuotient(cr.max.y, size.y);
  }

  /** The pixel size of a chunk size is the pixel extent of a chunk rectangle of that size. */
  lemma PixelSizeIsExtent(cs: Point, size: Point, origin: Point)
    requires Positive(size) && cs.x >= 0 && cs.y >= 0
    ensures var q := GetPixelRectangle(Rect(Zero, cs), size, origin);
      GetPixelSize(cs, size) == Point(q.Dx(), q.Dy())
  {
  }
}
