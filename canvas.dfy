/** canvas.go: the canvas holds a map from chunk coordinates to chunks, forwards every change to its
    listeners as an event, and maps pixel and rectangle operations onto the chunks they touch.

    Chunks are held by value (ChunkState) in the map; the event channel is the append-only log
    `events`, and the listener registry is the set `listeners`. */
module Canvases {
  import opened Geometry
  import opened Colors
  import opened Bytes
  import opened Images
  import opened Results
  import opened Utility
  import Coordinates
  import Chunks
  import Arith

  // ---------------------------------------------------------------------------------------------
  // The chunk grid

  /** The rectangle getChunk gives the chunk at c (canvas.go:152-153). */
  function ChunkRect(c: Point, size: Point): Rect {
    var min := Point(c.x * size.x, c.y * size.y);
    Rect(min, min.Add(size))
  }

  /** A chunk's rectangle is the pixel rectangle of its chunk coordinate, and holds exactly the pixels
      whose chunk coordinate is c. */
  lemma {:induction false} ChunkRectHoldsItsPixels(c: Point, size: Point, p: Point)
    requires Coordinates.Positive(size)
    ensures ChunkRect(c, size).IsCanon()
    ensures ChunkRect(c, size) == Coordinates.GetPixelRectangle(Rect(c, c.Add(Point(1, 1))), size, Zero)
    ensures p.In(ChunkRect(c, size)) <==> Coordinates.GetChunkCoord(size, p, Zero) == c
  {
    Arith.MulSucc(c.x, size.x);
    Arith.MulSucc(c.y, size.y);
    var k := Coordinates.GetChunkCoord(size, p, Zero);
    assert p.Add(Zero) == p;
    if p.In(ChunkRect(c, size)) {
      assert IsFloorQuotient(p.x, size.x, c.x) && IsFloorQuotient(p.y, size.y, c.y);
      QuotientsUnique(p.x, size.x, c.x, k.x);
      QuotientsUnique(p.y, size.y, c.y, k.y);
    }
  }

  /** A pixel of a rectangle has its chunk in the outer chunk rectangle. */
  lemma {:induction false} CoordInOuter(size: Point, r: Rect, p: Point)
    requires Coordinates.Positive(size) && p.In(r)
    ensures Coordinates.GetChunkCoord(size, p, Zero).In(Coordinates.GetOuterChunkRect(size, r, Zero))
  {
    CanonIdempotent(r);
    assert r.Canon().Add(Zero) == r;
    assert p.Add(Zero) == p;
    var q := Coordinates.GetChunkCoord(size, p, Zero);
    var o := Coordinates.GetOuterChunkRect(size, r, Zero);
    Arith.MulSucc(q.x, size.x);
    Arith.MulSucc(q.y, size.y);
    Arith.MulLtCancel(o.min.x, q.x + 1, size.x);
    Arith.MulLtCancel(o.min.y, q.y + 1, size.y);
    Arith.MulLtCancel(q.x, o.max.x, size.x);
    Arith.MulLtCancel(q.y, o.max.y, size.y);
  }

  /** Row y of r from its left edge up to column x (exclusive). */
  function RowUpTo(r: Rect, y: int, x: int): seq<Point>
    decreases x - r.min.x
  {
    if x <= r.min.x then [] else RowUpTo(r, y, x - 1) + [Point(x - 1, y)]
  }

  /** One more column of row y: its point joins the end of what was walked. */
  lemma RowUpToNext(before: seq<Point>, r: Rect, y: int, x: int)
    requires r.min.x <= x
    ensures before + RowUpTo(r, y, x + 1) == (before + RowUpTo(r, y, x)) + [Point(x, y)]
  {
    assert RowUpTo(r, y, x + 1) == RowUpTo(r, y, x) + [Point(x, y)];
  }

  /** The full rows of r from its top up to row y (exclusive). */
  function RowsUpTo(r: Rect, y: int): seq<Point>
    decreases y - r.min.y
  {
    if y <= r.min.y then [] else RowsUpTo(r, y - 1) + RowUpTo(r, y - 1, r.max.x)
  }

  /** The coordinates getChunks visits: the canonical rectangle, y outer and x inner. */
  function RowMajor(r: Rect): seq<Point> {
    RowsUpTo(r.Canon(), r.Canon().max.y)
  }

  /** Strictly earlier in row-major order. */
  predicate Before(a: Point, b: Point) {
    a.y < b.y || (a.y == b.y && a.x < b.x)
  }

  predicate Ordered(s: seq<Point>) {
    forall i, j | 0 <= i < j < |s| :: Before(s[i], s[j])
  }

  lemma OrderedAppend(a: seq<Point>, b: seq<Point>)
    requires Ordered(a) && Ordered(b)
    requires forall i, j | 0 <= i < |a| && 0 <= j < |b| :: Before(a[i], b[j])
    ensures Ordered(a + b)
  {
    forall i, j | 0 <= i < j < |a + b|
      ensures Before((a + b)[i], (a + b)[j])
    {
      if j < |a| {
        assert (a + b)[i] == a[i] && (a + b)[j] == a[j];
      } else if i < |a| {
        assert (a + b)[i] == a[i] && (a + b)[j] == b[j - |a|];
      } else {
        assert (a + b)[i] == b[i - |a|] && (a + b)[j] == b[j - |a|];
      }
    }
  }

  lemma {:induction false} RowUpToFacts(r: Rect, y: int, x: int)
    ensures forall p | p in RowUpTo(r, y, x) :: p.y == y && r.min.x <= p.x < x
    ensures forall p: Point | p.y == y && r.min.x <= p.x < x :: p in RowUpTo(r, y, x)
    ensures |RowUpTo(r, y, x)| == if x <= r.min.x then 0 else x - r.min.x
    ensures Ordered(RowUpTo(r, y, x))
    decreases x - r.min.x
  {
    if x > r.min.x {
      var front := RowUpTo(r, y, x - 1);
      RowUpToFacts(r, y, x - 1);
      forall i | 0 <= i < |front| ensures Before(front[i], Point(x - 1, y)) {
        assert front[i] in front;
      }
      OrderedAppend(front, [Point(x - 1, y)]);
    }
  }

  lemma RowsUpToFacts(r: Rect, y: int)
    requires r.IsCanon()
    ensures forall p | p in RowsUpTo(r, y) :: r.min.y <= p.y < y && r.min.x <= p.x < r.max.x
    ensures forall p: Point | r.min.y <= p.y < y && r.min.x <= p.x < r.max.x :: p in RowsUpTo(r, y)
    ensures |RowsUpTo(r, y)| == if y <= r.min.y then 0 else (y - r.min.y) * r.Dx()
    ensures Ordered(RowsUpTo(r, y))
  {
    RowsUpToMembers(r, y);
    RowsUpToLength(r, y);
    RowsUpToOrdered(r, y);
  }

  lemma {:induction false} RowsUpToMembers(r: Rect, y: int)
    ensures forall p | p in RowsUpTo(r, y) :: r.min.y <= p.y < y && r.min.x <= p.x < r.max.x
    ensures forall p: Point | r.min.y <= p.y < y && r.min.x <= p.x < r.max.x :: p in RowsUpTo(r, y)
    decreases y - r.min.y
  {
    if y > r.min.y {
      var front, row := RowsUpTo(r, y - 1), RowUpTo(r, y - 1, r.max.x);
      assert RowsUpTo(r, y) == front + row;
      RowsUpToMembers(r, y - 1);
      RowUpToFacts(r, y - 1, r.max.x);
      forall p: Point | p in front + row ensures r.min.y <= p.y < y && r.min.x <= p.x < r.max.x {
        if p !in front {
          assert p in row;
        }
      }
      forall p: Point | r.min.y <= p.y < y && r.min.x <= p.x < r.max.x ensures p in front + row {
        if p.y < y - 1 {
          assert p in front;
        } else {
          assert p in row;
        }
      }
    }
  }

  lemma {:induction false} RowsUpToLength(r: Rect, y: int)
    requires r.IsCanon()
    ensures |RowsUpTo(r, y)| == if y <= r.min.y then 0 else (y - r.min.y) * r.Dx()
    decreases y - r.min.y
  {
    if y > r.min.y {
      RowsUpToLength(r, y - 1);
      RowUpToFacts(r, y - 1, r.max.x);
      Arith.MulSucc(y - 1 - r.min.y, r.Dx());
    }
  }

  lemma {:induction false} RowsUpToOrdered(r: Rect, y: int)
    ensures Ordered(RowsUpTo(r, y))
    decreases y - r.min.y
  {
    if y > r.min.y {
      var front, row := RowsUpTo(r, y - 1), RowUpTo(r, y - 1, r.max.x);
      RowsUpToOrdered(r, y - 1);
      RowsUpToMembers(r, y - 1);
      RowUpToFacts(r, y - 1, r.max.x);
      forall i, j | 0 <= i < |front| && 0 <= j < |row| ensures Before(front[i], row[j]) {
        assert front[i] in front && row[j] in row;
      }
      OrderedAppend(front, row);
    }
  }

  /** getChunks visits exactly the chunks of the canonical chunk rectangle, each once, row-major. */
  lemma {:induction false} RowMajorFacts(r: Rect)
    ensures forall p | p in RowMajor(r) :: p.In(r.Canon())
    ensures forall p: Point | p.In(r.Canon()) :: p in RowMajor(r)
    ensures |RowMajor(r)| == r.Canon().Dx() * r.Canon().Dy()
    ensures Ordered(RowMajor(r))
  {
    var c := r.Canon();
    RowsUpToFacts(c, c.max.y);
    if c.max.y == c.min.y {
      Arith.MulZero(c.Dx());
    } else {
      Arith.MulComm(c.max.y - c.min.y, c.Dx());
    }
  }

  /** One more row: the full rows up to y, then row y itself. */
  lemma RowsUpToNext(r: Rect, y: int)
    requires r.min.y <= y
    ensures RowsUpTo(r, y + 1) == RowsUpTo(r, y) + RowUpTo(r, y, r.max.x)
  {
  }

  /** A coordinate of the canonical rectangle that has no chunk leaves the visit incomplete. */
  lemma RowMajorLacks<V>(r: Rect, m: map<Point, V>, p: Point)
    requires p.In(r.Canon()) && p !in m
    ensures !AllPresent(RowMajor(r), m)
  {
    RowMajorMember(r, p);
  }

  lemma RowMajorMember(r: Rect, p: Point)
    ensures p in RowMajor(r) <==> p.In(r.Canon())
  {
    RowMajorFacts(r);
  }

  // ---------------------------------------------------------------------------------------------
  // The chunk map

  /** Every chunk keeps its invariant and the rectangle its coordinate gives it. */
  predicate ChunksFit(m: map<Point, Chunks.ChunkState>, size: Point) {
    forall c | c in m :: m[c].Inv() && m[c].rect == ChunkRect(c, size)
  }

  /** The chunk newChunk makes for coordinate c. */
  function Fresh(c: Point, size: Point, now: int): Chunks.ChunkState {
    Chunks.NewChunkState(ChunkRect(c, size), now)
  }

  /** The map after getChunk(c, true) for each c of cs in turn. */
  function Created(m: map<Point, Chunks.ChunkState>, cs: seq<Point>, size: Point, now: int): map<Point, Chunks.ChunkState> {
    if cs == [] then m
    else
      var m' := Created(m, cs[..|cs| - 1], size, now);
      var c := cs[|cs| - 1];
      if c in m' then m' else m'[c := Fresh(c, size, now)]
  }

  /** Creating keeps every present chunk and adds a fresh one for each missing coordinate. */
  lemma {:induction false} CreatedAt(m: map<Point, Chunks.ChunkState>, cs: seq<Point>, size: Point, now: int, c: Point)
    ensures c in Created(m, cs, size, now) <==> c in m || c in cs
    ensures c in Created(m, cs, size, now) ==> Created(m, cs, size, now)[c] == if c in m then m[c] else Fresh(c, size, now)
  {
    if cs != [] {
      var front := cs[..|cs| - 1];
      CreatedAt(m, front, size, now, c);
      assert cs == front + [cs[|cs| - 1]];
    }
  }

  /** A fresh chunk fits the grid. */
  lemma FreshFitsAt(c: Point, size: Point, now: int)
    requires Coordinates.Positive(size)
    ensures Fresh(c, size, now).Inv() && Fresh(c, size, now).rect == ChunkRect(c, size)
  {
    CanonIdempotent(ChunkRect(c, size));
    CanonIdempotent(Fresh(c, size, now).rect);
  }

  /** Creating chunks keeps them fitting the grid. */
  lemma {:induction false} FreshFits(m: map<Point, Chunks.ChunkState>, cs: seq<Point>, size: Point, now: int)
    requires Coordinates.Positive(size) && ChunksFit(m, size)
    ensures ChunksFit(Created(m, cs, size, now), size)
  {
    if cs != [] {
      FreshFits(m, cs[..|cs| - 1], size, now);
      FreshFitsAt(cs[|cs| - 1], size, now);
    }
  }

  /** The coordinates of cs that have a chunk, in order. */
  function Present<V>(cs: seq<Point>, m: map<Point, V>): seq<Point> {
    if cs == [] then []
    else Present(cs[..|cs| - 1], m) + (if cs[|cs| - 1] in m then [cs[|cs| - 1]] else [])
  }

  lemma {:induction false} PresentMember<V>(cs: seq<Point>, m: map<Point, V>, c: Point)
    ensures c in Present(cs, m) <==> c in cs && c in m
  {
    if cs != [] {
      var front := cs[..|cs| - 1];
      PresentMember(front, m, c);
      assert cs == front + [cs[|cs| - 1]];
    }
  }

  predicate AllPresent<V>(cs: seq<Point>, m: map<Point, V>) {
    forall c | c in cs :: c in m
  }

  /** Every chunk rectangle is canonical, as chunk.setImage needs. */
  predicate Canonical(m: map<Point, Chunks.ChunkState>) {
    forall c | c in m :: m[c].rect.IsCanon()
  }

  /** One more present coordinate extends a present prefix. */
  lemma PresentNext<V>(cs: seq<Point>, m: map<Point, V>, i: nat)
    requires i < |cs| && AllPresent(cs[..i], m) && cs[i] in m
    ensures AllPresent(cs[..i + 1], m)
  {
    forall d | d in cs[..i + 1] ensures d in m {
      if d != cs[i] {
        assert cs[..i + 1] == cs[..i] + [cs[i]];
      }
    }
  }

  lemma PresentPrefix<V>(cs: seq<Point>, m: map<Point, V>, k: nat)
    requires AllPresent(cs, m) && k <= |cs|
    ensures AllPresent(cs[..k], m)
  {
    forall c | c in cs[..k] ensures c in m {
      var j :| 0 <= j < k && cs[..k][j] == c;
      assert cs[j] in cs;
    }
  }

  /** What setImage over a list of chunks leaves: the chunk map, the events sent, and the error that
      stopped it, if any. */
  datatype Applied = Applied(chunks: map<Point, Chunks.ChunkState>, sent: seq<Event>, err: Option<Error>)

  /** setImage on each chunk of cs in turn, stopping at the first error (canvas.go:246-255). */
  function SetImages(m: map<Point, Chunks.ChunkState>, cs: seq<Point>, src: Image): (r: Applied)
    requires Canonical(m) && src.WellFormed() && AllPresent(cs, m)
    ensures r.chunks.Keys == m.Keys && Canonical(r.chunks)
    ensures forall c | c in r.chunks :: r.chunks[c].rect == m[c].rect
  {
    if cs == [] then Applied(m, [], None)
    else SetImageNext(SetImages(m, cs[..|cs| - 1], src), cs[|cs| - 1], src)
  }

  /** One turn of that loop: chunk c takes the image, unless an earlier chunk already failed; a
      failing chunk keeps the state setImage left it in. */
  function SetImageNext(a: Applied, c: Point, src: Image): (r: Applied)
    requires Canonical(a.chunks) && src.WellFormed() && c in a.chunks
    ensures r.chunks.Keys == a.chunks.Keys && Canonical(r.chunks)
    ensures forall d | d in r.chunks :: r.chunks[d].rect == a.chunks[d].rect
  {
    if a.err.Some? then a
    else
      var step := Chunks.SetImageStep(a.chunks[c], src);
      var m' := a.chunks[c := step.1];
      if step.0.Err? then Applied(m', a.sent, Some(step.0.error))
      else Applied(m', a.sent + [SetImageEvent(step.0.value)], None)
  }

  /** SetImages over a non-empty list is one more turn after the list without its last entry. */
  lemma SetImagesUnfold(m: map<Point, Chunks.ChunkState>, cs: seq<Point>, src: Image)
    requires Canonical(m) && src.WellFormed() && AllPresent(cs, m) && cs != []
    ensures AllPresent(cs[..|cs| - 1], m)
    ensures SetImages(m, cs, src) == SetImageNext(SetImages(m, cs[..|cs| - 1], src), cs[|cs| - 1], src)
  {
    PresentPrefix(cs, m, |cs| - 1);
  }

  /** Once an error stopped the loop, later chunks change nothing. */
  lemma {:induction false} SetImagesStops(m: map<Point, Chunks.ChunkState>, cs: seq<Point>, k: nat, src: Image)
    requires Canonical(m) && src.WellFormed() && AllPresent(cs, m) && k <= |cs|
    requires SetImages(m, cs[..k], src).err.Some?
    ensures SetImages(m, cs, src) == SetImages(m, cs[..k], src)
    decreases |cs| - k
  {
    if k < |cs| {
      var front := cs[..|cs| - 1];
      assert front[..k] == cs[..k];
      PresentPrefix(cs, m, |cs| - 1);
      SetImagesStops(m, front, k, src);
    } else {
      assert cs[..k] == cs;
    }
  }

  /** setImage over a list of chunks leaves the chunks off the list untouched. */
  lemma {:induction false} SetImagesKeeps(m: map<Point, Chunks.ChunkState>, cs: seq<Point>, src: Image, d: Point)
    requires Canonical(m) && src.WellFormed() && AllPresent(cs, m) && d in m && d !in cs
    ensures SetImages(m, cs, src).chunks[d] == m[d]
  {
    if cs != [] {
      PresentPrefix(cs, m, |cs| - 1);
      assert d !in cs[..|cs| - 1];
      SetImagesKeeps(m, cs[..|cs| - 1], src, d);
    }
  }

  /** It sends one event per chunk that accepted the image: one per listed chunk without an error,
      fewer with one. */
  lemma {:induction false} SetImagesCount(m: map<Point, Chunks.ChunkState>, cs: seq<Point>, src: Image)
    requires Canonical(m) && src.WellFormed() && AllPresent(cs, m)
    ensures SetImages(m, cs, src).err == None ==> |SetImages(m, cs, src).sent| == |cs|
    ensures SetImages(m, cs, src).err != None ==> |SetImages(m, cs, src).sent| < |cs|
  {
    if cs != [] {
      var front := cs[..|cs| - 1];
      PresentPrefix(cs, m, |cs| - 1);
      SetImagesCount(m, front, src);
      var a, r := SetImages(m, front, src), SetImages(m, cs, src);
      if a.err.None? {
        var step := Chunks.SetImageStep(a.chunks[cs[|cs| - 1]], src);
        assert r.sent == if step.0.Err? then a.sent else a.sent + [SetImageEvent(step.0.value)];
      }
    }
  }

  /** Every event it sends is a setImage event. */
  lemma {:induction false} SetImagesEvent(m: map<Point, Chunks.ChunkState>, cs: seq<Point>, src: Image, i: nat)
    requires Canonical(m) && src.WellFormed() && AllPresent(cs, m) && i < |SetImages(m, cs, src).sent|
    ensures SetImages(m, cs, src).sent[i].SetImageEvent?
  {
    var front := cs[..|cs| - 1];
    PresentPrefix(cs, m, |cs| - 1);
    if i < |SetImages(m, front, src).sent| {
      SetImagesEvent(m, front, src, i);
    }
  }

  /** Without an error every listed chunk ends valid, not downloading, with an empty queue. */
  lemma {:induction false} SetImagesRevalidates(m: map<Point, Chunks.ChunkState>, cs: seq<Point>, src: Image, d: Point)
    requires Canonical(m) && src.WellFormed() && AllPresent(cs, m) && d in cs
    requires SetImages(m, cs, src).err == None
    ensures var s := SetImages(m, cs, src).chunks[d]; s.valid && !s.downloading && s.queue == []
  {
    var front, c := cs[..|cs| - 1], cs[|cs| - 1];
    PresentPrefix(cs, m, |cs| - 1);
    if d != c {
      assert d in front;
      SetImagesRevalidates(m, front, src, d);
    }
  }

  /** A chunk that keeps the chunk invariant still keeps it afterwards. */
  lemma {:induction false} SetImagesKeepsInv(m: map<Point, Chunks.ChunkState>, cs: seq<Point>, src: Image, d: Point)
    requires Canonical(m) && src.WellFormed() && AllPresent(cs, m) && d in m && m[d].Inv()
    ensures SetImages(m, cs, src).chunks[d].Inv()
  {
    if cs != [] {
      var front, c := cs[..|cs| - 1], cs[|cs| - 1];
      PresentPrefix(cs, m, |cs| - 1);
      SetImagesKeepsInv(m, front, src, d);
      var a := SetImages(m, front, src);
      SetImagesChunk(m, cs, src, d);
      if a.err.None? && c == d {
        Chunks.SetImageKeepsInv(a.chunks[c], src);
      }
    }
  }

  /** The chunk at d after one more coordinate c: set when the loop went on to c and d is c, kept
      otherwise. */
  lemma SetImagesChunk(m: map<Point, Chunks.ChunkState>, cs: seq<Point>, src: Image, d: Point)
    requires Canonical(m) && src.WellFormed() && AllPresent(cs, m) && cs != [] && d in m
    requires AllPresent(cs[..|cs| - 1], m)
    ensures var a, c := SetImages(m, cs[..|cs| - 1], src), cs[|cs| - 1];
      SetImages(m, cs, src).chunks[d] ==
        if a.err.None? && c == d then Chunks.SetImageStep(a.chunks[c], src).1 else a.chunks[d]
  {
    SetImagesUnfold(m, cs, src);
    SetImageNextAt(SetImages(m, cs[..|cs| - 1], src), cs[|cs| - 1], src, d);
  }

  /** The chunk at d after one turn for c. */
  lemma SetImageNextAt(a: Applied, c: Point, src: Image, d: Point)
    requires Canonical(a.chunks) && src.WellFormed() && c in a.chunks && d in a.chunks
    ensures SetImageNext(a, c, src).chunks[d] ==
      if a.err.None? && c == d then Chunks.SetImageStep(a.chunks[c], src).1 else a.chunks[d]
  {
    if a.err.None? {
      var step := Chunks.SetImageStep(a.chunks[c], src);
      assert SetImageNext(a, c, src).chunks == a.chunks[c := step.1];
    }
  }

  /** The chunks keep fitting the grid. */
  lemma SetImagesFits(m: map<Point, Chunks.ChunkState>, cs: seq<Point>, src: Image, size: Point)
    requires ChunksFit(m, size) && src.WellFormed() && AllPresent(cs, m)
    ensures Canonical(m) && ChunksFit(SetImages(m, cs, src).chunks, size)
  {
    forall d | d in SetImages(m, cs, src).chunks ensures SetImages(m, cs, src).chunks[d].Inv() {
      SetImagesKeepsInv(m, cs, src, d);
    }
  }

  /** The loop of invalidateAll: every chunk invalidated, in the map's own order. */
  method InvalidateEvery(m0: map<Point, Chunks.ChunkState>) returns (m: map<Point, Chunks.ChunkState>)
    ensures m == map c | c in m0 :: Chunks.InvalidateStep(m0[c])
  {
    m := m0;
    var todo := m0.Keys;
    while todo != {}
      invariant todo <= m0.Keys && m.Keys == m0.Keys
      invariant forall c | c in m0 :: m[c] == if c in todo then m0[c] else Chunks.InvalidateStep(m0[c])
      decreases |todo|
    {
      var c :| c in todo;
      m := m[c := Chunks.InvalidateStep(m[c])];
      todo := todo - {c};
    }
  }

  /** chunk.invalidateImage on each chunk of cs that exists, in turn. */
  function Invalidated(m: map<Point, Chunks.ChunkState>, cs: seq<Point>): map<Point, Chunks.ChunkState> {
    if cs == [] then m
    else
      var m' := Invalidated(m, cs[..|cs| - 1]);
      var c := cs[|cs| - 1];
      if c in m' then m'[c := Chunks.InvalidateStep(m'[c])] else m'
  }

  /** Invalidating keeps the chunks and invalidates those listed (each once, however often listed). */
  lemma {:induction false} InvalidatedAt(m: map<Point, Chunks.ChunkState>, cs: seq<Point>, c: Point)
    ensures c in Invalidated(m, cs) <==> c in m
    ensures c in m ==> Invalidated(m, cs)[c] == if c in cs then Chunks.InvalidateStep(m[c]) else m[c]
  {
    if cs != [] {
      var front := cs[..|cs| - 1];
      InvalidatedAt(m, front, c);
      assert cs == front + [cs[|cs| - 1]];
    }
  }

  /** Invalidating the listed coordinates is invalidating those of them that exist. */
  lemma InvalidatedPresent(m: map<Point, Chunks.ChunkState>, cs: seq<Point>)
    ensures Invalidated(m, Present(cs, m)) == Invalidated(m, cs)
  {
    forall c ensures (c in Invalidated(m, Present(cs, m)) <==> c in Invalidated(m, cs)) &&
      (c in Invalidated(m, cs) ==> Invalidated(m, Present(cs, m))[c] == Invalidated(m, cs)[c])
    {
      InvalidatedAt(m, cs, c);
      InvalidatedAt(m, Present(cs, m), c);
      PresentMember(cs, m, c);
    }
  }

  /** Invalidated chunks still fit the grid. */
  lemma InvalidatedFits(m: map<Point, Chunks.ChunkState>, cs: seq<Point>, size: Point)
    requires ChunksFit(m, size)
    ensures Invalidated(m, cs).Keys == m.Keys && ChunksFit(Invalidated(m, cs), size)
  {
    forall c ensures (c in Invalidated(m, cs) <==> c in m) &&
      (c in m ==> Invalidated(m, cs)[c].Inv() && Invalidated(m, cs)[c].rect == ChunkRect(c, size))
    {
      InvalidatedAt(m, cs, c);
    }
  }

  /** chunk.signalDownload on each chunk of cs that exists, in turn. */
  function Signalled(m: map<Point, Chunks.ChunkState>, cs: seq<Point>): map<Point, Chunks.ChunkState> {
    if cs == [] then m
    else
      var m' := Signalled(m, cs[..|cs| - 1]);
      var c := cs[|cs| - 1];
      if c in m' then m'[c := Chunks.SignalDownloadStep(m'[c]).1] else m'
  }

  /** Signalling keeps the chunks and signals those listed; a second signal changes nothing. */
  lemma {:induction false} SignalledAt(m: map<Point, Chunks.ChunkState>, cs: seq<Point>, c: Point)
    ensures c in Signalled(m, cs) <==> c in m
    ensures c in m ==> Signalled(m, cs)[c] == if c in cs then Chunks.SignalDownloadStep(m[c]).1 else m[c]
  {
    if cs != [] {
      var front := cs[..|cs| - 1];
      SignalledAt(m, front, c);
      assert cs == front + [cs[|cs| - 1]];
      if c in m {
        Chunks.SignalDownloadOnce(m[c]);
      }
    }
  }

  /** Signalled chunks still fit the grid. */
  lemma SignalledFits(m: map<Point, Chunks.ChunkState>, cs: seq<Point>, size: Point)
    requires ChunksFit(m, size)
    ensures Signalled(m, cs).Keys == m.Keys && ChunksFit(Signalled(m, cs), size)
  {
    forall c ensures (c in Signalled(m, cs) <==> c in m) &&
      (c in m ==> Signalled(m, cs)[c].Inv() && Signalled(m, cs)[c].rect == ChunkRect(c, size))
    {
      SignalledAt(m, cs, c);
    }
  }

  /** invalidateRect: every existing chunk holding a pixel of the rectangle is invalid afterwards;
      no chunk is created or removed, and chunks outside the outer chunk rectangle are untouched. */
  lemma InvalidateRectEffect(m: map<Point, Chunks.ChunkState>, size: Point, r: Rect, p: Point, c: Point)
    requires Coordinates.Positive(size)
    ensures var m' := Invalidated(m, RowMajor(Coordinates.GetOuterChunkRect(size, r, Zero)));
      && m'.Keys == m.Keys
      && (p.In(r) && Coordinates.GetChunkCoord(size, p, Zero) in m ==> !m'[Coordinates.GetChunkCoord(size, p, Zero)].valid)
      && (c in m && !c.In(Coordinates.GetOuterChunkRect(size, r, Zero).Canon()) ==> m'[c] == m[c])
  {
    var o := Coordinates.GetOuterChunkRect(size, r, Zero);
    var q := Coordinates.GetChunkCoord(size, p, Zero);
    RowMajorMember(o, c);
    InvalidatedAt(m, RowMajor(o), c);
    InvalidatedAt(m, RowMajor(o), q);
    forall d ensures d in Invalidated(m, RowMajor(o)) <==> d in m {
      InvalidatedAt(m, RowMajor(o), d);
    }
    if p.In(r) {
      CoordInOuter(size, r, p);
      RowMajorMember(o, q);
      CanonIdempotent(o);
    }
  }

  /** signalDownload: afterwards every chunk of the outer chunk rectangle exists and is valid or
      downloading; a chunk that was idle starts downloading with an empty queue. */
  lemma SignalDownloadEffect(m: map<Point, Chunks.ChunkState>, size: Point, r: Rect, now: int, c: Point)
    requires Coordinates.Positive(size)
    ensures var cs := RowMajor(Coordinates.GetOuterChunkRect(size, r, Zero));
      var m1 := Created(m, cs, size, now);
      var m' := Signalled(m1, cs);
      && m'.Keys == m1.Keys
      && (c in cs ==> c in m1 && c in m' && (m'[c].valid || m'[c].downloading))
      && (c in cs && c in m1 && !m1[c].valid && !m1[c].downloading ==> c in m' && m'[c].downloading && m'[c].queue == [])
      && (c in m && c !in cs ==> c in m' && m'[c] == m[c])
  {
    var cs := RowMajor(Coordinates.GetOuterChunkRect(size, r, Zero));
    var m1 := Created(m, cs, size, now);
    CreatedAt(m, cs, size, now, c);
    SignalledAt(m1, cs, c);
    forall d ensures d in Signalled(m1, cs) <==> d in m1 {
      SignalledAt(m1, cs, d);
    }
    if c in m1 {
      Chunks.SignalDownloadOnce(m1[c]);
    }
  }

  // ---------------------------------------------------------------------------------------------
  // Composing the chunk images: getImageCopy

  /** The intersection of two rectangles, as far as its pixels go (an empty one may be non-canonical). */
  function Overlap(r: Rect, s: Rect): Rect {
    Rect(Point(if r.min.x < s.min.x then s.min.x else r.min.x, if r.min.y < s.min.y then s.min.y else r.min.y),
         Point(if r.max.x < s.max.x then r.max.x else s.max.x, if r.max.y < s.max.y then r.max.y else s.max.y))
  }

  /** draw.Draw(dst, r, src, r.min, Over) onto a paletted image of rectangle r and palette pal finds a
      colour at every pixel it covers, both in src and in dst (else At would panic): each pixel of
      the overlap has a colour in src, and dst has one only when pal is not empty. */
  predicate Drawable(src: Image, r: Rect, pal: seq<Color>)
    requires src.WellFormed()
  {
    DefinedOn(src, Overlap(r, src.Bounds())) && (pal == [] ==> Overlap(r, src.Bounds()).Empty())
  }

  /** A paletted image laid out as NewPaletted lays it out. */
  predicate Dense(img: Image) {
    img.Paletted? && img.WellFormed() && img.stride == img.rect.Dx() && |img.pix| == img.rect.Dx() * img.rect.Dy()
  }

  /** draw.Draw(dst, dst.rect, src, dst.rect.min, Over) as a copy: each pixel of dst that src covers takes
      the palette index nearest to src's colour there. */
  function DrawOnto(dst: Image, src: Image): (img: Image)
    requires Dense(dst) && src.WellFormed()
    ensures Dense(img) && img.rect == dst.rect && img.palette == dst.palette
  {
    var r := dst.rect;
    Paletted(r, dst.stride, seq(|dst.pix|, k requires 0 <= k < |dst.pix| =>
      if r.Dx() > 0 && PixelOf(r, k).In(src.Bounds())
      then NearestIndex(dst.palette, ColorAt(src, PixelOf(r, k))) % 256
      else dst.pix[k]), dst.palette)
  }

  lemma {:induction false} DrawOntoAt(dst: Image, src: Image, p: Point)
    requires Dense(dst) && src.WellFormed() && p.In(dst.rect)
    ensures IndexAt(DrawOnto(dst, src), p) ==
      if p.In(src.Bounds()) then NearestIndex(dst.palette, ColorAt(src, p)) % 256 else IndexAt(dst, p)
  {
    var k := PixelNumber(dst.rect, p);
    assert dst.PixOffset(p) == k;
  }

  /** The images drawn one after the other onto dst. */
  function Compose(dst: Image, imgs: seq<Image>): (img: Image)
    requires Dense(dst) && forall i | 0 <= i < |imgs| :: imgs[i].WellFormed()
    ensures Dense(img) && img.rect == dst.rect && img.palette == dst.palette
  {
    if imgs == [] then dst else DrawOnto(Compose(dst, imgs[..|imgs| - 1]), imgs[|imgs| - 1])
  }

  /** The last of the images covering p, if any. */
  function LastCover(imgs: seq<Image>, p: Point): (r: Option<Image>)
    ensures r.Some? ==> r.value in imgs && p.In(r.value.Bounds())
  {
    if imgs == [] then None
    else if p.In(imgs[|imgs| - 1].Bounds()) then Some(imgs[|imgs| - 1])
    else LastCover(imgs[..|imgs| - 1], p)
  }

  /** Each pixel of the composition shows the last image covering it, else dst. */
  lemma {:induction false} ComposeAt(dst: Image, imgs: seq<Image>, p: Point)
    requires Dense(dst) && (forall i | 0 <= i < |imgs| :: imgs[i].WellFormed()) && p.In(dst.rect)
    ensures IndexAt(Compose(dst, imgs), p) == match LastCover(imgs, p)
      case Some(src) => NearestIndex(dst.palette, ColorAt(src, p)) % 256
      case None => IndexAt(dst, p)
  {
    if imgs != [] {
      ComposeAt(dst, imgs[..|imgs| - 1], p);
      DrawOntoAt(Compose(dst, imgs[..|imgs| - 1]), imgs[|imgs| - 1], p);
    }
  }

  /** A chunk whose chunk.getImageCopy(true) succeeds (Chunks.ImageCopyResult): it is valid and holds
      an image of its own rather than its bare rectangle. */
  predicate Shown(s: Chunks.ChunkState) {
    s.valid && !s.image.RectImage?
  }

  /** The images chunk.getImageCopy(true) hands out for the chunks of cs: an invalid chunk, or one
      without an image of its own, gives none. */
  function ChunkImages(m: map<Point, Chunks.ChunkState>, cs: seq<Point>): (imgs: seq<Image>)
    requires forall c | c in m :: m[c].Inv()
    ensures forall i | 0 <= i < |imgs| :: imgs[i].WellFormed()
  {
    if cs == [] then []
    else
      var c := cs[|cs| - 1];
      ChunkImages(m, cs[..|cs| - 1]) +
        (if c in m && Shown(m[c]) then [m[c].image] else [])
  }

  lemma {:induction false} ChunkImagesAppend(m: map<Point, Chunks.ChunkState>, a: seq<Point>, b: seq<Point>)
    requires forall c | c in m :: m[c].Inv()
    ensures ChunkImages(m, a + b) == ChunkImages(m, a) + ChunkImages(m, b)
    decreases |b|
  {
    if b == [] {
      assert a + b == a;
    } else {
      var front := b[..|b| - 1];
      ChunkImagesAppend(m, a, front);
      assert (a + b)[..|a + b| - 1] == a + front;
    }
  }

  /** Among the chunk images, only the image of the pixel's own chunk covers it. */
  lemma {:induction false} LastCoverChunks(m: map<Point, Chunks.ChunkState>, size: Point, cs: seq<Point>, p: Point)
    requires Coordinates.Positive(size) && ChunksFit(m, size)
    ensures var c := Coordinates.GetChunkCoord(size, p, Zero);
      LastCover(ChunkImages(m, cs), p) ==
        if c in cs && c in m && Shown(m[c]) then Some(m[c].image) else None
  {
    if cs != [] {
      var front, d := cs[..|cs| - 1], cs[|cs| - 1];
      var c := Coordinates.GetChunkCoord(size, p, Zero);
      LastCoverChunks(m, size, front, p);
      assert cs == front + [d];
      assert c in cs <==> c in front || c == d;
      if d in m && Shown(m[d]) {
        ChunkRectHoldsItsPixels(d, size, p);
        assert ChunkImages(m, cs) == ChunkImages(m, front) + [m[d].image];
        assert ChunkImages(m, cs)[..|ChunkImages(m, cs)| - 1] == ChunkImages(m, front);
      } else {
        assert ChunkImages(m, cs) == ChunkImages(m, front);
      }
    }
  }

  predicate AllDrawable(imgs: seq<Image>, r: Rect, pal: seq<Color>)
    requires forall i | 0 <= i < |imgs| :: imgs[i].WellFormed()
  {
    forall i | 0 <= i < |imgs| :: Drawable(imgs[i], r, pal)
  }

  lemma AllDrawableSnoc(imgs: seq<Image>, src: Image, r: Rect, pal: seq<Color>)
    requires (forall i | 0 <= i < |imgs| :: imgs[i].WellFormed()) && src.WellFormed()
    requires AllDrawable(imgs, r, pal) && Drawable(src, r, pal)
    ensures forall i | 0 <= i < |imgs + [src]| :: (imgs + [src])[i].WellFormed()
    ensures AllDrawable(imgs + [src], r, pal)
  {
    assert forall i | 0 <= i < |imgs| :: (imgs + [src])[i] == imgs[i];
  }

  /** getImageCopy (canvas.go:264-278): a fresh paletted image of the rectangle with every valid
      chunk of the outer chunk rectangle drawn onto it, in row-major order. NewPaletted panics on a
      rectangle that is not canonical, and each draw panics where a pixel it covers has no colour,
      in the chunk image or in the destination. */
  function ImageCopyOf(m: map<Point, Chunks.ChunkState>, size: Point, palette: seq<Color>, r: Rect): Result<Image>
    requires Coordinates.Positive(size) && ChunksFit(m, size)
  {
    if !r.IsCanon() then Err(Fault)
    else
      var imgs := ChunkImages(m, Present(RowMajor(Coordinates.GetOuterChunkRect(size, r, Zero)), m));
      if !AllDrawable(imgs, r, palette) then Err(Fault)
      else Ok(Compose(NewPaletted(r, palette), imgs))
  }

  /** Every pixel of the copy shows the colour its chunk holds there, as the nearest palette index;
      palette index 0 where the chunk is missing, invalid or still without an image. */
  lemma {:induction false} ImageCopyAt(m: map<Point, Chunks.ChunkState>, size: Point, palette: seq<Color>, r: Rect, p: Point)
    requires Coordinates.Positive(size) && ChunksFit(m, size)
    requires ImageCopyOf(m, size, palette, r).Ok? && p.In(r)
    ensures var img, c := ImageCopyOf(m, size, palette, r).value, Coordinates.GetChunkCoord(size, p, Zero);
      img.rect == r && img.palette == palette &&
      IndexAt(img, p) == if c in m && Shown(m[c]) then NearestIndex(palette, ColorAt(m[c].image, p)) % 256 else 0
  {
    var o := Coordinates.GetOuterChunkRect(size, r, Zero);
    var cs := Present(RowMajor(o), m);
    var c := Coordinates.GetChunkCoord(size, p, Zero);
    var base := NewPaletted(r, palette);
    ComposeAt(base, ChunkImages(m, cs), p);
    LastCoverChunks(m, size, cs, p);
    PresentMember(RowMajor(o), m, c);
    CoordInOuter(size, r, p);
    RowMajorMember(o, c);
    CanonIdempotent(o);
    OffsetInBuffer(base, p);
  }

  /** An image covering a pixel of r cannot be drawn onto an image without a palette. */
  lemma CoverBlocksEmptyPalette(imgs: seq<Image>, r: Rect, p: Point)
    requires forall i | 0 <= i < |imgs| :: imgs[i].WellFormed()
    requires LastCover(imgs, p).Some? && p.In(r)
    ensures !AllDrawable(imgs, r, [])
  {
    var src := LastCover(imgs, p).value;
    var i :| 0 <= i < |imgs| && imgs[i] == src;
    assert p.In(Overlap(r, src.Bounds()));
  }

  /** With an empty canvas palette, getImageCopy panics as soon as a shown chunk lies under a pixel
      of the rectangle: draw.Over reads the colour of the destination there, and an image without
      a palette has none. */
  lemma {:induction false} ImageCopyEmptyPalette(m: map<Point, Chunks.ChunkState>, size: Point, r: Rect, p: Point)
    requires Coordinates.Positive(size) && ChunksFit(m, size) && p.In(r)
    requires var c := Coordinates.GetChunkCoord(size, p, Zero); c in m && Shown(m[c])
    ensures ImageCopyOf(m, size, [], r) == Err(Fault)
  {
    var o := Coordinates.GetOuterChunkRect(size, r, Zero);
    var cs := Present(RowMajor(o), m);
    var c := Coordinates.GetChunkCoord(size, p, Zero);
    LastCoverChunks(m, size, cs, p);
    PresentMember(RowMajor(o), m, c);
    CoordInOuter(size, r, p);
    RowMajorMember(o, c);
    CanonIdempotent(o);
    CoverBlocksEmptyPalette(ChunkImages(m, cs), r, p);
  }

  /** The loop of invalidateRect over the chunks getChunks found. */
  method InvalidateEach(m0: map<Point, Chunks.ChunkState>, cs: seq<Point>) returns (m: map<Point, Chunks.ChunkState>)
    requires AllPresent(cs, m0)
    ensures m == Invalidated(m0, cs)
  {
    m := m0;
    var i := 0;
    while i < |cs|
      invariant 0 <= i <= |cs|
      invariant m == Invalidated(m0, cs[..i])
    {
      var c := cs[i];
      InvalidatedAt(m0, cs[..i], c);
      assert cs[..i + 1][..i] == cs[..i];
      m := m[c := Chunks.InvalidateStep(m[c])];
      i := i + 1;
    }
    assert cs[..|cs|] == cs;
  }

  /** The loop of signalDownload over the chunks getChunks found or made. */
  method SignalEach(m0: map<Point, Chunks.ChunkState>, cs: seq<Point>) returns (m: map<Point, Chunks.ChunkState>)
    requires AllPresent(cs, m0)
    ensures m == Signalled(m0, cs)
  {
    m := m0;
    var i := 0;
    while i < |cs|
      invariant 0 <= i <= |cs|
      invariant m == Signalled(m0, cs[..i])
    {
      var c := cs[i];
      SignalledAt(m0, cs[..i], c);
      assert cs[..i + 1][..i] == cs[..i];
      var (_, s) := Chunks.SignalDownloadStep(m[c]);
      m := m[c := s];
      i := i + 1;
    }
    assert cs[..|cs|] == cs;
  }

  /** The loop of setImage over the chunks getChunks found or made. */
  method SetImageEach(m0: map<Point, Chunks.ChunkState>, cs: seq<Point>, src: Image) returns (a: Applied)
    requires Canonical(m0) && src.WellFormed() && AllPresent(cs, m0)
    ensures a == SetImages(m0, cs, src)
  {
    a := Applied(m0, [], None);
    var i := 0;
    while i < |cs|
      invariant 0 <= i <= |cs| && AllPresent(cs[..i], m0)
      invariant a == SetImages(m0, cs[..i], src) && a.err == None
    {
      a := SetImageAt(m0, cs, i, src, a);
      if a.err.Some? {
        return;
      }
      i := i + 1;
    }
    assert cs[..|cs|] == cs;
  }

  /** One turn of the setImage loop: the chunk at cs[i] takes the image; an error ends the loop
      with the outcome of the whole list. */
  method SetImageAt(m0: map<Point, Chunks.ChunkState>, cs: seq<Point>, i: nat, src: Image, a: Applied) returns (b: Applied)
    requires Canonical(m0) && src.WellFormed() && AllPresent(cs, m0) && i < |cs|
    requires AllPresent(cs[..i], m0) && a == SetImages(m0, cs[..i], src) && a.err == None
    ensures AllPresent(cs[..i + 1], m0) && b == SetImages(m0, cs[..i + 1], src)
    ensures b.err.Some? ==> b == SetImages(m0, cs, src)
  {
    assert cs[..i + 1][..i] == cs[..i];
    PresentPrefix(cs, m0, i + 1);
    SetImagesUnfold(m0, cs[..i + 1], src);
    var c := cs[i];
    assert cs[..i + 1][i] == c;
    var step := Chunks.SetImageStep(a.chunks[c], src);
    var m := a.chunks[c := step.1];
    if step.0.Err? {
      b := Applied(m, a.sent, Some(step.0.error));
      SetImagesStops(m0, cs, i + 1, src);
    } else {
      b := Applied(m, a.sent + [SetImageEvent(step.0.value)], None);
    }
  }

  /** One chunk image that cannot be drawn makes the whole list undrawable. */
  lemma UndrawableBlocks(m: map<Point, Chunks.ChunkState>, cs: seq<Point>, i: nat, rect: Rect, pal: seq<Color>)
    requires (forall c | c in m :: m[c].Inv()) && i < |cs| && cs[i] in m && m[cs[i]].Inv()
    requires Shown(m[cs[i]]) && !Drawable(m[cs[i]].image, rect, pal)
    ensures !AllDrawable(ChunkImages(m, cs), rect, pal)
  {
    ChunkImagesSplit(m, cs, i);
    var k := |ChunkImages(m, cs[..i])|;
    assert ChunkImages(m, cs)[k] == m[cs[i]].image;
  }

  /** The images of cs around a listed chunk with an image: those before it, its own, those after. */
  lemma ChunkImagesSplit(m: map<Point, Chunks.ChunkState>, cs: seq<Point>, i: nat)
    requires (forall c | c in m :: m[c].Inv()) && i < |cs| && cs[i] in m && Shown(m[cs[i]])
    ensures ChunkImages(m, cs) == ChunkImages(m, cs[..i]) + [m[cs[i]].image] + ChunkImages(m, cs[i + 1..])
  {
    var a, b := cs[..i + 1], cs[i + 1..];
    assert a[..|a| - 1] == cs[..i] && a[|a| - 1] == cs[i];
    assert ChunkImages(m, a) == ChunkImages(m, cs[..i]) + [m[cs[i]].image];
    ChunkImagesAppend(m, a, b);
    assert a + b == cs;
  }

  /** One round of the loop of getImageCopy: the image of chunk cs[i], if it is shown, drawn onto img. */
  method DrawChunk(m: map<Point, Chunks.ChunkState>, cs: seq<Point>, i: nat, dst: Image, img: Image) returns (r: Result<Image>)
    requires (forall c | c in m :: m[c].Inv()) && AllPresent(cs, m) && Dense(dst) && i < |cs|
    requires AllDrawable(ChunkImages(m, cs[..i]), dst.rect, dst.palette) && img == Compose(dst, ChunkImages(m, cs[..i]))
    ensures r.Ok? ==> AllDrawable(ChunkImages(m, cs[..i + 1]), dst.rect, dst.palette) && r.value == Compose(dst, ChunkImages(m, cs[..i + 1]))
    ensures r.Err? ==> r == Err(Fault) && !AllDrawable(ChunkImages(m, cs), dst.rect, dst.palette)
  {
    var c := cs[i];
    assert c in cs;
    assert cs[..i + 1][..i] == cs[..i];
    var copy := Chunks.ImageCopy(m[c], true);
    Chunks.ImageCopyResult(m[c], true);
    if copy.Err? {
      assert ChunkImages(m, cs[..i + 1]) == ChunkImages(m, cs[..i]);
      return Ok(img);
    }
    var src := copy.value.0;
    if !Drawable(src, dst.rect, dst.palette) {
      UndrawableBlocks(m, cs, i, dst.rect, dst.palette);
      return Err(Fault);
    }
    ghost var drawn := ChunkImages(m, cs[..i]);
    AllDrawableSnoc(drawn, src, dst.rect, dst.palette);
    assert ChunkImages(m, cs[..i + 1]) == drawn + [src];
    assert (drawn + [src])[..|drawn|] == drawn;
    r := Ok(DrawOnto(img, src));
  }

  /** The loop of getImageCopy: the image of each shown chunk drawn onto dst in turn. */
  method ComposeEach(m: map<Point, Chunks.ChunkState>, cs: seq<Point>, dst: Image) returns (r: Result<Image>)
    requires (forall c | c in m :: m[c].Inv()) && AllPresent(cs, m) && Dense(dst)
    ensures r == if AllDrawable(ChunkImages(m, cs), dst.rect, dst.palette) then Ok(Compose(dst, ChunkImages(m, cs))) else Err(Fault)
  {
    var img := dst;
    var i := 0;
    while i < |cs|
      invariant 0 <= i <= |cs|
      invariant AllDrawable(ChunkImages(m, cs[..i]), dst.rect, dst.palette) && img == Compose(dst, ChunkImages(m, cs[..i]))
    {
      var next := DrawChunk(m, cs, i, dst, img);
      if next.Err? {
        return next;
      }
      img := next.value;
      i := i + 1;
    }
    assert cs[..|cs|] == cs;
    return Ok(img);
  }

  // ---------------------------------------------------------------------------------------------
  // The canvas object

  /** The events the canvas sends to its broadcaster (canvas.go:30-47). */
  datatype Event =
    | SetPixelEvent(pos: Point, index: Byte)
    | SetImageEvent(image: Option<Image>)
    | InvalidateRectEvent(rect: Rect)
    | InvalidateAllEvent
    | SignalDownloadEvent(rect: Rect)

  class Canvas<Listener(==)> {
    var chunks: map<Point, Chunks.ChunkState>
    var chunkSize: Point
    var palette: seq<Color>
    var events: seq<Event>
    var listeners: set<Listener>

    predicate Valid()
      reads this
    {
      Coordinates.Positive(chunkSize) && ChunksFit(chunks, chunkSize)
    }

    /** newCanvas (canvas.go:75-121), without its broadcaster goroutine. */
    constructor (size: Point, p: seq<Color>)
      requires Coordinates.Positive(size)
      ensures Valid() && chunks == map[] && chunkSize == size && palette == p && events == [] && listeners == {}
    {
      chunks, chunkSize, palette, events, listeners := map[], size, p, [], {};
    }

    /** subscribeListener (canvas.go:123-128). */
    method Subscribe(l: Listener)
      modifies this
      ensures listeners == old(listeners) + {l}
      ensures chunks == old(chunks) && chunkSize == old(chunkSize) && palette == old(palette) && events == old(events)
    {
      listeners := listeners + {l};
    }

    /** unsubscribeListener (canvas.go:130-135). */
    method Unsubscribe(l: Listener)
      modifies this
      ensures listeners == old(listeners) - {l}
      ensures chunks == old(chunks) && chunkSize == old(chunkSize) && palette == old(palette) && events == old(events)
    {
      listeners := listeners - {l};
    }

    /** getChunk (canvas.go:137-168). */
    method GetChunk(coord: Point, create: bool, now: int) returns (r: Result<Chunks.ChunkState>)
      requires Valid()
      modifies this
      ensures Valid() && chunkSize == old(chunkSize) && palette == old(palette)
      ensures events == old(events) && listeners == old(listeners)
      ensures coord in old(chunks) ==> r == Ok(old(chunks)[coord]) && chunks == old(chunks)
      ensures coord !in old(chunks) && create ==>
        r == Ok(Fresh(coord, chunkSize, now)) && chunks == old(chunks)[coord := Fresh(coord, chunkSize, now)]
      ensures coord !in old(chunks) && !create ==> r == Err(NotFound) && chunks == old(chunks)
    {
      if coord in chunks {
        return Ok(chunks[coord]);
      }
      if create {
        var min := Point(coord.x * chunkSize.x, coord.y * chunkSize.y);
        var max := min.Add(chunkSize);
        var chunk := Chunks.NewChunkState(Rect(min, max), now);
        FreshFitsAt(coord, chunkSize, now);
        chunks := chunks[coord := chunk];
        return Ok(chunk);
      }
      return Err(NotFound);
    }

    /** getChunks (canvas.go:170-189). The chunks are named by their coordinates. */
    method GetChunks(cr: Rect, create: bool, ignore: bool, now: int) returns (r: Result<seq<Point>>)
      requires Valid()
      modifies this
      ensures Valid() && chunkSize == old(chunkSize) && palette == old(palette)
      ensures events == old(events) && listeners == old(listeners)
      ensures create ==> r == Ok(RowMajor(cr)) && chunks == Created(old(chunks), RowMajor(cr), chunkSize, now)
      ensures !create && ignore ==> r == Ok(Present(RowMajor(cr), old(chunks))) && chunks == old(chunks)
      ensures !create && !ignore ==> chunks == old(chunks)
      ensures !create && !ignore ==>
        r == if AllPresent(RowMajor(cr), old(chunks)) then Ok(RowMajor(cr)) else Err(NotFound)
    {
      var t := cr.Canon();
      ghost var m0 := chunks;
      var out: seq<Point> := [];
      var iy := t.min.y;
      ghost var done := RowsUpTo(t, iy);
      while iy < t.max.y
        invariant t.min.y <= iy <= t.max.y && done == RowsUpTo(t, iy)
        invariant Valid() && chunkSize == old(chunkSize) && palette == old(palette)
        invariant events == old(events) && listeners == old(listeners)
        invariant chunks == if create then Created(m0, done, chunkSize, now) else m0
        invariant out == if ignore && !create then Present(done, m0) else done
        invariant !create && !ignore ==> AllPresent(done, m0)
      {
        var missing;
        ghost var next := RowsUpTo(t, iy + 1);
        RowsUpToNext(t, iy);
        out, missing := GetRow(t, iy, create, ignore, now, m0, done, next, out);
        if missing.Some? {
          RowMajorLacks(cr, m0, missing.value);
          return Err(NotFound);
        }
        iy, done := iy + 1, next;
      }
      assert iy == t.max.y && done == RowMajor(cr);
      return Ok(out);
    }

    /** The inner loop of getChunks: row iy of t, left to right, after the coordinates `before`
        (chunks found or made so far in out0), ending at the coordinates `after`. On a missing chunk
        that may not be ignored it stops and names it. */
    method GetRow(t: Rect, iy: int, create: bool, ignore: bool, now: int, ghost m0: map<Point, Chunks.ChunkState>,
                  ghost before: seq<Point>, ghost after: seq<Point>, out0: seq<Point>)
      returns (out: seq<Point>, missing: Option<Point>)
      requires after == before + RowUpTo(t, iy, t.max.x)
      requires Valid()
      requires chunks == if create then Created(m0, before, chunkSize, now) else m0
      requires out0 == if ignore && !create then Present(before, m0) else before
      requires !create && !ignore ==> AllPresent(before, m0)
      modifies this
      ensures Valid() && chunkSize == old(chunkSize) && palette == old(palette)
      ensures events == old(events) && listeners == old(listeners)
      ensures missing.Some? ==>
        && !create && !ignore && chunks == m0 && missing.value !in m0
        && missing.value.y == iy && t.min.x <= missing.value.x < t.max.x
      ensures missing.None? ==>
        && (chunks == if create then Created(m0, after, chunkSize, now) else m0)
        && (out == if ignore && !create then Present(after, m0) else after)
        && (!create && !ignore ==> AllPresent(after, m0))
    {
      out := out0;
      var ix := t.min.x;
      assert before + RowUpTo(t, iy, ix) == before;
      while ix < t.max.x
        invariant t.min.x <= ix <= t.max.x || (t.max.x < t.min.x && ix == t.min.x)
        invariant Valid() && chunkSize == old(chunkSize) && palette == old(palette)
        invariant events == old(events) && listeners == old(listeners)
        invariant var done := before + RowUpTo(t, iy, ix);
          && (chunks == if create then Created(m0, done, chunkSize, now) else m0)
          && (out == if ignore && !create then Present(done, m0) else done)
          && (!create && !ignore ==> AllPresent(done, m0))
      {
        var c := Point(ix, iy);
        var lacking;
        out, lacking := GetCell(t, iy, ix, create, ignore, now, m0, before, out);
        if lacking {
          return out, Some(c);
        }
        ix := ix + 1;
      }
      if ix == t.min.x {
        assert RowUpTo(t, iy, t.max.x) == [];
      }
      missing := None;
    }

    /** One step of the inner loop of getChunks: the chunk at (ix, iy), after the coordinates
        before it. It reports a missing chunk that may not be ignored. */
    method GetCell(t: Rect, iy: int, ix: int, create: bool, ignore: bool, now: int,
                   ghost m0: map<Point, Chunks.ChunkState>, ghost before: seq<Point>, out0: seq<Point>)
      returns (out: seq<Point>, lacking: bool)
      requires t.min.x <= ix
      requires Valid()
      requires var done := before + RowUpTo(t, iy, ix);
        && (chunks == if create then Created(m0, done, chunkSize, now) else m0)
        && (out0 == if ignore && !create then Present(done, m0) else done)
        && (!create && !ignore ==> AllPresent(done, m0))
      modifies this
      ensures Valid() && chunkSize == old(chunkSize) && palette == old(palette)
      ensures events == old(events) && listeners == old(listeners)
      ensures lacking ==> !create && !ignore && chunks == m0 && Point(ix, iy) !in m0
      ensures !lacking ==> var next := before + RowUpTo(t, iy, ix + 1);
        && (chunks == if create then Created(m0, next, chunkSize, now) else m0)
        && (out == if ignore && !create then Present(next, m0) else next)
        && (!create && !ignore ==> AllPresent(next, m0))
    {
      var c := Point(ix, iy);
      ghost var done, next := before + RowUpTo(t, iy, ix), before + RowUpTo(t, iy, ix + 1);
      RowUpToNext(before, t, iy, ix);
      assert next[..|next| - 1] == done;
      var chunk := GetChunk(c, create, now);
      if chunk.Err? && !ignore {
        return out0, true;
      }
      out, lacking := if chunk.Ok? then out0 + [c] else out0, false;
    }

    /** getPixel (canvas.go:191-200), with origin (0,0). The pixel always lies in the chunk found. */
    function GetPixel(pos: Point): (r: Result<Option<Color>>)
      requires Valid()
      reads this
      ensures r != Err(OutOfBounds)
      ensures r == Err(NotFound) <==> Coordinates.GetChunkCoord(chunkSize, pos, Zero) !in chunks
    {
      var c := Coordinates.GetChunkCoord(chunkSize, pos, Zero);
      ChunkRectHoldsItsPixels(c, chunkSize, pos);
      if c !in chunks then Err(NotFound) else Chunks.PixelAt(chunks[c], pos)
    }

    /** getPixelIndex (canvas.go:202-211). */
    function GetPixelIndex(pos: Point): (r: Result<Byte>)
      requires Valid()
      reads this
      ensures r != Err(OutOfBounds)
      ensures r == Err(NotFound) <==> Coordinates.GetChunkCoord(chunkSize, pos, Zero) !in chunks
    {
      var c := Coordinates.GetChunkCoord(chunkSize, pos, Zero);
      ChunkRectHoldsItsPixels(c, chunkSize, pos);
      if c !in chunks then Err(NotFound) else Chunks.PixelIndexAt(chunks[c], pos)
    }

    /** setPixelIndex (canvas.go:217-232): the event is sent before the lookup, and no chunk is created. */
    method SetPixelIndex(pos: Point, index: Byte) returns (err: Option<Error>)
      requires Valid()
      modifies this
      ensures Valid() && chunkSize == old(chunkSize) && palette == old(palette) && listeners == old(listeners)
      ensures events == old(events) + [SetPixelEvent(pos, index)]
      ensures err != Some(OutOfBounds)
      ensures var c := Coordinates.GetChunkCoord(chunkSize, pos, Zero);
        if c !in old(chunks) then err == Some(NotFound) && chunks == old(chunks)
        else var t := Chunks.SetPixelIndexStep(old(chunks)[c], pos, index);
          if t.Ok? then err == None && chunks == old(chunks)[c := t.value]
          else err == Some(t.error) && chunks == old(chunks)
    {
      var c := Coordinates.GetChunkCoord(chunkSize, pos, Zero);
      events := events + [SetPixelEvent(pos, index)];
      var chunk := GetChunk(c, false, 0);
      if chunk.Err? {
        return Some(NotFound);
      }
      ChunkRectHoldsItsPixels(c, chunkSize, pos);
      Chunks.StepsKeepInv(chunk.value, pos, Transparent, index, RectImage(chunk.value.rect), false, 0);
      var t := Chunks.SetPixelIndexStep(chunk.value, pos, index);
      if t.Err? {
        return Some(t.error);
      }
      chunks := chunks[c := t.value];
      return None;
    }

    /** setPixel (canvas.go:213-215): the nearest index of the canvas palette, cut to a byte. */
    method SetPixel(pos: Point, col: Color) returns (err: Option<Error>)
      requires Valid()
      modifies this
      ensures Valid() && chunkSize == old(chunkSize) && palette == old(palette) && listeners == old(listeners)
      ensures var index := NearestIndex(old(palette), col) % 256;
        && events == old(events) + [SetPixelEvent(pos, index)]
        && var c := Coordinates.GetChunkCoord(chunkSize, pos, Zero);
        if c !in old(chunks) then err == Some(NotFound) && chunks == old(chunks)
        else var t := Chunks.SetPixelIndexStep(old(chunks)[c], pos, index);
          if t.Ok? then err == None && chunks == old(chunks)[c := t.value]
          else err == Some(t.error) && chunks == old(chunks)
    {
      err := SetPixelIndex(pos, NearestIndex(palette, col) % 256);
    }

    /** setImage (canvas.go:239-258): the chunks of the inner chunk rectangle, one event each. */
    method SetImage(img: Image, create: bool, now: int) returns (err: Option<Error>)
      requires Valid() && img.WellFormed()
      modifies this
      ensures Valid() && chunkSize == old(chunkSize) && palette == old(palette) && listeners == old(listeners)
      ensures var cs := RowMajor(Coordinates.GetInnerChunkRect(chunkSize, img.Bounds(), Zero));
        var m1 := if create then Created(old(chunks), cs, chunkSize, now) else old(chunks);
        if !create && !AllPresent(cs, old(chunks)) then
          err == Some(NotFound) && chunks == old(chunks) && events == old(events)
        else
          && Canonical(m1) && AllPresent(cs, m1)
          && |old(events)| <= |events| && events[..|old(events)|] == old(events)
          && SetImages(m1, cs, img) == Applied(chunks, events[|old(events)|..], err)
    {
      var cr := Coordinates.GetInnerChunkRect(chunkSize, img.Bounds(), Zero);
      var got := GetChunks(cr, create, false, now);
      if got.Err? {
        return Some(NotFound);
      }
      var cs := got.value;
      var m1 := chunks;
      assert AllPresent(cs, m1) by {
        forall c | c in cs ensures c in m1 {
          if create {
            CreatedAt(old(chunks), cs, chunkSize, now, c);
          }
        }
      }
      SetImagesFits(m1, cs, img, chunkSize);
      var a := SetImageEach(m1, cs, img);
      chunks, events, err := a.chunks, events + a.sent, a.err;
      assert events[|old(events)|..] == a.sent;
    }

    /** getImageCopy (canvas.go:264-278), reading each chunk through chunk.getImageCopy(true). */
    method GetImageCopy(rect: Rect) returns (r: Result<Image>)
      requires Valid()
      modifies this
      ensures Valid() && chunks == old(chunks) && chunkSize == old(chunkSize) && palette == old(palette)
      ensures events == old(events) && listeners == old(listeners)
      ensures r == ImageCopyOf(chunks, chunkSize, palette, rect)
    {
      var cr := Coordinates.GetOuterChunkRect(chunkSize, rect, Zero);
      var got := GetChunks(cr, false, true, 0);
      var cs := got.value;
      if !rect.IsCanon() {
        return Err(Fault);
      }
      assert AllPresent(cs, chunks) by {
        forall c | c in cs ensures c in chunks {
          PresentMember(RowMajor(cr), chunks, c);
        }
      }
      r := ComposeEach(chunks, cs, NewPaletted(rect, palette));
    }

    /** invalidateRect (canvas.go:284-301): existing chunks only. */
    method InvalidateRect(rect: Rect)
      requires Valid()
      modifies this
      ensures Valid() && chunkSize == old(chunkSize) && palette == old(palette) && listeners == old(listeners)
      ensures events == old(events) + [InvalidateRectEvent(rect)]
      ensures chunks == Invalidated(old(chunks), RowMajor(Coordinates.GetOuterChunkRect(chunkSize, rect, Zero)))
    {
      events := events + [InvalidateRectEvent(rect)];
      var cr := Coordinates.GetOuterChunkRect(chunkSize, rect, Zero);
      var got := GetChunks(cr, false, true, 0);
      var cs := got.value;
      var m0 := chunks;
      assert AllPresent(cs, m0) by {
        forall c | c in cs ensures c in m0 {
          PresentMember(RowMajor(cr), m0, c);
        }
      }
      var m := InvalidateEach(m0, cs);
      InvalidatedPresent(m0, RowMajor(cr));
      InvalidatedFits(m0, cs, chunkSize);
      chunks := m;
    }

    /** invalidateAll (canvas.go:307-319): every chunk of the map, in any order. */
    method InvalidateAll()
      requires Valid()
      modifies this
      ensures Valid() && chunkSize == old(chunkSize) && palette == old(palette) && listeners == old(listeners)
      ensures events == old(events) + [InvalidateAllEvent]
      ensures chunks == map c | c in old(chunks) :: Chunks.InvalidateStep(old(chunks)[c])
    {
      events := events + [InvalidateAllEvent];
      chunks := InvalidateEvery(chunks);
    }

    /** signalDownload (canvas.go:330-347): creates the chunks of the outer chunk rectangle and signals
        each; the results of chunk.signalDownload are not used. */
    method SignalDownload(rect: Rect, now: int)
      requires Valid()
      modifies this
      ensures Valid() && chunkSize == old(chunkSize) && palette == old(palette) && listeners == old(listeners)
      ensures events == old(events) + [SignalDownloadEvent(rect)]
      ensures var cs := RowMajor(Coordinates.GetOuterChunkRect(chunkSize, rect, Zero));
        chunks == Signalled(Created(old(chunks), cs, chunkSize, now), cs)
    {
      events := events + [SignalDownloadEvent(rect)];
      var cr := Coordinates.GetOuterChunkRect(chunkSize, rect, Zero);
      var got := GetChunks(cr, true, true, now);
      var cs := got.value;
      var m1 := chunks;
      assert AllPresent(cs, m1) by {
        forall c | c in cs ensures c in m1 {
          CreatedAt(old(chunks), cs, chunkSize, now, c);
        }
      }
      var m := SignalEach(m1, cs);
      SignalledFits(m1, cs, chunkSize);
      chunks := m;
    }
  }
}
