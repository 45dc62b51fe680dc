/** Modules/canvas.go: the earlier canvas. Its chunks are paletted with the canvas palette;
    getChunks keeps a place for each missing chunk it ignores (a nil entry), setImage always creates
    the chunks it needs, invalidateRect creates before it invalidates, and a missing chunk makes
    getImageCopy dereference nil.

    As for the current canvas, chunks are held by value, the event channel is the log `events` and
    the listener registry the set `listeners`. A chunk pointer returned by getChunks is named by its
    coordinate: Some(c) for the chunk at c, None for nil. */
module LegacyCanvases {
  import opened Geometry
  import opened Colors
  import opened Bytes
  import opened Images
  import opened Results
  import Coordinates
  import LC = LegacyCoordinates
  import LegacyChunks
  import Canvases

  type ChunkMap = map<Point, LegacyChunks.ChunkState>

  // ---------------------------------------------------------------------------------------------
  // The chunk map

  predicate AllInv(m: ChunkMap) {
    forall c | c in m :: m[c].Inv()
  }

  /** Every chunk keeps its invariant, the rectangle its coordinate gives it and the canvas palette. */
  predicate ChunksFit(m: ChunkMap, size: Point, palette: seq<Color>) {
    forall c | c in m :: m[c].Inv() && m[c].rect == Canvases.ChunkRect(c, size) && m[c].palette == palette
  }

  /** Replacing one chunk by a state that keeps the chunk invariant, the rectangle and the palette
      keeps the map fitting the grid. */
  lemma UpdateFits(m: ChunkMap, size: Point, palette: seq<Color>, c: Point, s: LegacyChunks.ChunkState)
    requires ChunksFit(m, size, palette) && c in m && s.Inv() && s.rect == m[c].rect && s.palette == m[c].palette
    ensures ChunksFit(m[c := s], size, palette)
  {
  }

  /** setPixelIndex on the chunk that holds pos: it succeeds, and the chunks still fit the grid. */
  lemma SetPixelInChunk(m: ChunkMap, size: Point, palette: seq<Color>, pos: Point, index: Byte)
    requires Coordinates.Positive(size) && ChunksFit(m, size, palette) && LC.ToChunkCoord(size, pos) in m
    ensures var c := LC.ToChunkCoord(size, pos);
      var t := LegacyChunks.SetPixelIndexStep(m[c], pos, index);
      t.Ok? && ChunksFit(m[c := t.value], size, palette)
  {
    var c := LC.ToChunkCoord(size, pos);
    LC.ChunkContainsPixel(size, pos);
    Canvases.ChunkRectHoldsItsPixels(c, size, pos);
    LegacyChunks.StepsKeepInv(m[c], pos, index, Transparent);
    UpdateFits(m, size, palette, c, LegacyChunks.SetPixelIndexStep(m[c], pos, index).value);
  }

  /** The chunk newChunk makes for coordinate c (Modules/canvas.go:126-135). */
  function Fresh(c: Point, size: Point, palette: seq<Color>): (s: LegacyChunks.ChunkState)
    requires Coordinates.Positive(size)
    ensures s.Inv() && s.rect == Canvases.ChunkRect(c, size) && s.palette == palette
    ensures !s.valid && s.queue == []
  {
    Canvases.ChunkRectHoldsItsPixels(c, size, c);
    LegacyChunks.NewChunkState(Canvases.ChunkRect(c, size), palette)
  }

  /** The map after getChunk(c, true) for each c of cs in turn. */
  function Created(m: ChunkMap, cs: seq<Point>, size: Point, palette: seq<Color>): ChunkMap
    requires Coordinates.Positive(size)
  {
    if cs == [] then m
    else
      var m' := Created(m, cs[..|cs| - 1], size, palette);
      var c := cs[|cs| - 1];
      if c in m' then m' else m'[c := Fresh(c, size, palette)]
  }

  /** Creating keeps every present chunk and adds a fresh one for each missing coordinate. */
  lemma {:induction false} CreatedAt(m: ChunkMap, cs: seq<Point>, size: Point, palette: seq<Color>, c: Point)
    requires Coordinates.Positive(size)
    ensures c in Created(m, cs, size, palette) <==> c in m || c in cs
    ensures c in Created(m, cs, size, palette) ==>
      Created(m, cs, size, palette)[c] == if c in m then m[c] else Fresh(c, size, palette)
  {
    if cs != [] {
      var front := cs[..|cs| - 1];
      CreatedAt(m, front, size, palette, c);
      assert cs == front + [cs[|cs| - 1]];
    }
  }

  /** One more coordinate creates its chunk if it is missing. */
  lemma CreatedSnoc(m: ChunkMap, cs: seq<Point>, c: Point, size: Point, palette: seq<Color>)
    requires Coordinates.Positive(size)
    ensures Created(m, cs + [c], size, palette) ==
      if c in Created(m, cs, size, palette) then Created(m, cs, size, palette)
      else Created(m, cs, size, palette)[c := Fresh(c, size, palette)]
  {
    assert (cs + [c])[..|cs|] == cs;
  }

  /** Creating chunks keeps them fitting the grid. */
  lemma {:induction false} FreshFits(m: ChunkMap, cs: seq<Point>, size: Point, palette: seq<Color>)
    requires Coordinates.Positive(size) && ChunksFit(m, size, palette)
    ensures ChunksFit(Created(m, cs, size, palette), size, palette)
  {
    if cs != [] {
      FreshFits(m, cs[..|cs| - 1], size, palette);
    }
  }

  // ---------------------------------------------------------------------------------------------
  // getChunks

  /** What getChunks returns for the coordinates cs: the chunk at each one, nil where none exists
      (Modules/canvas.go:151-157). */
  function Entries(cs: seq<Point>, m: ChunkMap): (r: seq<Option<Point>>)
    ensures |r| == |cs|
  {
    if cs == [] then []
    else
      var c := cs[|cs| - 1];
      Entries(cs[..|cs| - 1], m) + [if c in m then Some(c) else None]
  }

  /** Entry i is the chunk at cs[i], or nil where there is none. */
  lemma {:induction false} EntriesAt(cs: seq<Point>, m: ChunkMap, i: nat)
    requires i < |cs|
    ensures Entries(cs, m)[i] == if cs[i] in m then Some(cs[i]) else None
  {
    if i < |cs| - 1 {
      EntriesAt(cs[..|cs| - 1], m, i);
    }
  }

  /** One more coordinate adds its entry at the end. */
  lemma EntriesSnoc(cs: seq<Point>, c: Point, m: ChunkMap)
    ensures Entries(cs + [c], m) == Entries(cs, m) + [if c in m then Some(c) else None]
  {
    assert (cs + [c])[..|cs|] == cs;
  }

  /** Adding chunks elsewhere leaves the entries of coordinates that all exist alone. */
  lemma EntriesGrow(cs: seq<Point>, m: ChunkMap, m': ChunkMap)
    requires Canvases.AllPresent(cs, m) && m.Keys <= m'.Keys
    ensures Entries(cs, m') == Entries(cs, m)
  {
    forall i | 0 <= i < |cs| ensures Entries(cs, m')[i] == Entries(cs, m)[i] {
      assert cs[i] in cs;
      EntriesAt(cs, m, i);
      EntriesAt(cs, m', i);
    }
  }

  /** getChunks returns one entry per chunk of the canonical chunk rectangle, whether or not it
      exists: as many entries as the rectangle has chunks. */
  lemma EntriesCount(cr: Rect, m: ChunkMap)
    ensures |Entries(Canvases.RowMajor(cr), m)| == cr.Canon().Dx() * cr.Canon().Dy()
  {
    Canvases.RowMajorFacts(cr);
  }

  // ---------------------------------------------------------------------------------------------
  // setImage

  /** What setImage over a list of chunks leaves: the chunk map, the events sent, and the error that
      stopped it, if any. */
  datatype Applied = Applied(chunks: ChunkMap, sent: seq<Event>, err: Option<Error>)

  /** Every chunk rectangle is canonical, as chunk.setImage needs. */
  predicate Canonical(m: ChunkMap) {
    forall c | c in m :: m[c].rect.IsCanon()
  }

  /** chunk.setImage on each chunk of cs in turn, one event with the returned copy for each, stopping
      at the first error (Modules/canvas.go:217-226). A chunk that refuses the image is unchanged. */
  function SetImages(m: ChunkMap, cs: seq<Point>, src: Image): (r: Applied)
    requires Canonical(m) && src.WellFormed() && Canvases.AllPresent(cs, m)
    ensures r.chunks.Keys == m.Keys && Canonical(r.chunks)
    ensures forall c | c in r.chunks :: r.chunks[c].rect == m[c].rect
  {
    if cs == [] then Applied(m, [], None)
    else SetImageNext(SetImages(m, cs[..|cs| - 1], src), cs[|cs| - 1], src)
  }

  /** One turn of that loop: chunk c takes the image, unless an earlier chunk already failed. */
  function SetImageNext(a: Applied, c: Point, src: Image): (r: Applied)
    requires Canonical(a.chunks) && src.WellFormed() && c in a.chunks
    ensures r.chunks.Keys == a.chunks.Keys && Canonical(r.chunks)
    ensures forall d | d in r.chunks :: r.chunks[d].rect == a.chunks[d].rect
  {
    if a.err.Some? then a
    else
      var step := LegacyChunks.SetImageStep(a.chunks[c], src);
      if step.Err? then Applied(a.chunks, a.sent, Some(step.error))
      else Applied(a.chunks[c := step.value], a.sent + [SetImageEvent(step.value.image)], None)
  }

  /** SetImages over a non-empty list is one more turn after the list without its last entry. */
  lemma SetImagesUnfold(m: ChunkMap, cs: seq<Point>, src: Image)
    requires Canonical(m) && src.WellFormed() && Canvases.AllPresent(cs, m) && cs != []
    ensures Canvases.AllPresent(cs[..|cs| - 1], m)
    ensures SetImages(m, cs, src) == SetImageNext(SetImages(m, cs[..|cs| - 1], src), cs[|cs| - 1], src)
  {
    Canvases.PresentPrefix(cs, m, |cs| - 1);
  }

  /** The three outcomes of one turn. */
  lemma SetImageNextCases(a: Applied, c: Point, src: Image)
    requires Canonical(a.chunks) && src.WellFormed() && c in a.chunks
    ensures a.err.Some? ==> SetImageNext(a, c, src) == a
    ensures a.err.None? ==> match LegacyChunks.SetImageStep(a.chunks[c], src)
      case Err(e) => SetImageNext(a, c, src) == Applied(a.chunks, a.sent, Some(e))
      case Ok(s) => SetImageNext(a, c, src) == Applied(a.chunks[c := s], a.sent + [SetImageEvent(s.image)], None)
  {
  }

  /** Once an error stopped the loop, later chunks change nothing. */
  lemma {:induction false} SetImagesStops(m: ChunkMap, cs: seq<Point>, k: nat, src: Image)
    requires Canonical(m) && src.WellFormed() && Canvases.AllPresent(cs, m) && k <= |cs|
    requires SetImages(m, cs[..k], src).err.Some?
    ensures SetImages(m, cs, src) == SetImages(m, cs[..k], src)
    decreases |cs| - k
  {
    if k < |cs| {
      var front := cs[..|cs| - 1];
      assert front[..k] == cs[..k];
      Canvases.PresentPrefix(cs, m, |cs| - 1);
      SetImagesStops(m, front, k, src);
    } else {
      assert cs[..k] == cs;
    }
  }

  /** The chunks off the list are untouched. */
  lemma {:induction false} SetImagesKeeps(m: ChunkMap, cs: seq<Point>, src: Image, d: Point)
    requires Canonical(m) && src.WellFormed() && Canvases.AllPresent(cs, m) && d in m && d !in cs
    ensures SetImages(m, cs, src).chunks[d] == m[d]
  {
    if cs != [] {
      Canvases.PresentPrefix(cs, m, |cs| - 1);
      assert d !in cs[..|cs| - 1];
      SetImagesKeeps(m, cs[..|cs| - 1], src, d);
    }
  }

  /** One event per chunk without an error, fewer with one. */
  lemma {:induction false} SetImagesCount(m: ChunkMap, cs: seq<Point>, src: Image)
    requires Canonical(m) && src.WellFormed() && Canvases.AllPresent(cs, m)
    ensures SetImages(m, cs, src).err == None ==> |SetImages(m, cs, src).sent| == |cs|
    ensures SetImages(m, cs, src).err != None ==> |SetImages(m, cs, src).sent| < |cs|
  {
    if cs != [] {
      var front, c := cs[..|cs| - 1], cs[|cs| - 1];
      SetImagesUnfold(m, cs, src);
      SetImagesCount(m, front, src);
      SetImageNextCases(SetImages(m, front, src), c, src);
    }
  }

  /** Without an error every listed chunk ends valid with an empty queue. */
  lemma {:induction false} SetImagesRevalidates(m: ChunkMap, cs: seq<Point>, src: Image, d: Point)
    requires Canonical(m) && src.WellFormed() && Canvases.AllPresent(cs, m) && d in cs
    requires SetImages(m, cs, src).err == None
    ensures var s := SetImages(m, cs, src).chunks[d]; s.valid && s.queue == []
  {
    var front, c := cs[..|cs| - 1], cs[|cs| - 1];
    Canvases.PresentPrefix(cs, m, |cs| - 1);
    if d != c {
      assert d in front;
      SetImagesRevalidates(m, front, src, d);
    }
  }

  /** A turn that ends without an error appends the event of the chunk it updated. */
  lemma SetImagesOkStep(m: ChunkMap, cs: seq<Point>, src: Image)
    requires Canonical(m) && src.WellFormed() && Canvases.AllPresent(cs, m) && cs != []
    requires SetImages(m, cs, src).err == None
    ensures Canvases.AllPresent(cs[..|cs| - 1], m)
    ensures var a, r, c := SetImages(m, cs[..|cs| - 1], src), SetImages(m, cs, src), cs[|cs| - 1];
      a.err == None && r.sent == a.sent + [SetImageEvent(r.chunks[c].image)] && r.chunks == a.chunks[c := r.chunks[c]]
  {
    SetImagesUnfold(m, cs, src);
    SetImageNextCases(SetImages(m, cs[..|cs| - 1], src), cs[|cs| - 1], src);
  }

  /** Without an error, the event of chunk cs[i] carries the image that chunk ends with, provided
      no later entry names it again: the copy handed out is up to date. */
  lemma {:induction false} SetImagesShows(m: ChunkMap, cs: seq<Point>, src: Image, i: nat)
    requires Canonical(m) && src.WellFormed() && Canvases.AllPresent(cs, m) && i < |cs|
    requires forall k | i < k < |cs| :: cs[k] != cs[i]
    requires SetImages(m, cs, src).err == None
    ensures |SetImages(m, cs, src).sent| == |cs|
    ensures SetImages(m, cs, src).sent[i] == SetImageEvent(SetImages(m, cs, src).chunks[cs[i]].image)
  {
    SetImagesOkStep(m, cs, src);
    SetImagesCount(m, cs, src);
    if i < |cs| - 1 {
      var front := cs[..|cs| - 1];
      assert forall k | i < k < |front| :: front[k] == cs[k];
      SetImagesShows(m, front, src, i);
      SetImagesShowsEarlier(m, cs, src, i);
    }
  }

  /** The step of SetImagesShows for an entry before the last one. */
  lemma SetImagesShowsEarlier(m: ChunkMap, cs: seq<Point>, src: Image, i: nat)
    requires Canonical(m) && src.WellFormed() && Canvases.AllPresent(cs, m) && i < |cs| - 1
    requires cs[|cs| - 1] != cs[i] && SetImages(m, cs, src).err == None
    requires var a := SetImages(m, cs[..|cs| - 1], src);
      |a.sent| == |cs| - 1 && a.sent[i] == SetImageEvent(a.chunks[cs[..|cs| - 1][i]].image)
    ensures SetImages(m, cs, src).sent[i] == SetImageEvent(SetImages(m, cs, src).chunks[cs[i]].image)
  {
    SetImagesOkStep(m, cs, src);
    assert cs[..|cs| - 1][i] == cs[i];
  }

  /** The last listed chunk either takes the image or stays as it was. */
  lemma SetImagesLast(m: ChunkMap, cs: seq<Point>, src: Image, d: Point)
    requires Canonical(m) && src.WellFormed() && Canvases.AllPresent(cs, m) && cs != [] && d in m
    ensures var a := SetImages(m, cs[..|cs| - 1], src);
      || SetImages(m, cs, src).chunks[d] == a.chunks[d]
      || (a.err.None? && d == cs[|cs| - 1] && LegacyChunks.SetImageStep(a.chunks[d], src).Ok? &&
          SetImages(m, cs, src).chunks[d] == LegacyChunks.SetImageStep(a.chunks[d], src).value)
  {
    SetImagesUnfold(m, cs, src);
    SetImageNextCases(SetImages(m, cs[..|cs| - 1], src), cs[|cs| - 1], src);
  }

  /** A chunk that keeps the chunk invariant still keeps it afterwards, with its palette. */
  lemma {:induction false} SetImagesKeepsInv(m: ChunkMap, cs: seq<Point>, src: Image, d: Point)
    requires Canonical(m) && src.WellFormed() && Canvases.AllPresent(cs, m) && d in m && m[d].Inv()
    ensures SetImages(m, cs, src).chunks[d].Inv() && SetImages(m, cs, src).chunks[d].palette == m[d].palette
  {
    if cs != [] {
      var front := cs[..|cs| - 1];
      Canvases.PresentPrefix(cs, m, |cs| - 1);
      SetImagesKeepsInv(m, front, src, d);
      var a := SetImages(m, front, src);
      LegacyChunks.SetImageKeepsInv(a.chunks[d], src);
      SetImagesLast(m, cs, src, d);
    }
  }

  /** The chunks keep fitting the grid and the palette. */
  lemma SetImagesFits(m: ChunkMap, cs: seq<Point>, src: Image, size: Point, palette: seq<Color>)
    requires ChunksFit(m, size, palette) && src.WellFormed() && Canvases.AllPresent(cs, m)
    ensures Canonical(m) && ChunksFit(SetImages(m, cs, src).chunks, size, palette)
  {
    forall d | d in SetImages(m, cs, src).chunks
      ensures SetImages(m, cs, src).chunks[d].Inv() && SetImages(m, cs, src).chunks[d].palette == palette
    {
      SetImagesKeepsInv(m, cs, src, d);
    }
  }

  // ---------------------------------------------------------------------------------------------
  // invalidateRect and invalidateAll

  /** chunk.invalidateImage on each chunk of cs that exists, in turn. */
  function Invalidated(m: ChunkMap, cs: seq<Point>): ChunkMap {
    if cs == [] then m
    else
      var m' := Invalidated(m, cs[..|cs| - 1]);
      var c := cs[|cs| - 1];
      if c in m' then m'[c := LegacyChunks.InvalidateStep(m'[c])] else m'
  }

  /** Invalidating keeps the chunks and invalidates those listed (each once, however often listed). */
  lemma {:induction false} InvalidatedAt(m: ChunkMap, cs: seq<Point>, c: Point)
    ensures c in Invalidated(m, cs) <==> c in m
    ensures c in m ==> Invalidated(m, cs)[c] == if c in cs then LegacyChunks.InvalidateStep(m[c]) else m[c]
  {
    if cs != [] {
      var front := cs[..|cs| - 1];
      InvalidatedAt(m, front, c);
      assert cs == front + [cs[|cs| - 1]];
    }
  }

  /** chunk.invalidateImage on every chunk of the map. */
  function InvalidatedAll(m: ChunkMap): ChunkMap {
    map c | c in m :: LegacyChunks.InvalidateStep(m[c])
  }

  lemma InvalidatedAllFits(m: ChunkMap, size: Point, palette: seq<Color>)
    requires ChunksFit(m, size, palette)
    ensures ChunksFit(InvalidatedAll(m), size, palette)
  {
    forall c | c in InvalidatedAll(m)
      ensures InvalidatedAll(m)[c].Inv() && InvalidatedAll(m)[c].rect == Canvases.ChunkRect(c, size)
      ensures InvalidatedAll(m)[c].palette == palette
    {
      assert InvalidatedAll(m)[c] == LegacyChunks.InvalidateStep(m[c]);
    }
  }

  /** The loop of invalidateAll: every chunk of the map, in any order. */
  method InvalidateAllEach(m0: ChunkMap) returns (m: ChunkMap)
    ensures m == InvalidatedAll(m0)
  {
    m := m0;
    var todo := m0.Keys;
    while todo != {}
      invariant todo <= m0.Keys && m.Keys == m0.Keys
      invariant forall c | c in m0 :: m[c] == if c in todo then m0[c] else LegacyChunks.InvalidateStep(m0[c])
      decreases |todo|
    {
      var c :| c in todo;
      m := m[c := LegacyChunks.InvalidateStep(m[c])];
      todo := todo - {c};
    }
  }

  /** Invalidated chunks still fit the grid. */
  lemma InvalidatedFits(m: ChunkMap, cs: seq<Point>, size: Point, palette: seq<Color>)
    requires ChunksFit(m, size, palette)
    ensures ChunksFit(Invalidated(m, cs), size, palette)
  {
    forall c | c in Invalidated(m, cs)
      ensures Invalidated(m, cs)[c].Inv() && Invalidated(m, cs)[c].rect == Canvases.ChunkRect(c, size)
      ensures Invalidated(m, cs)[c].palette == palette
    {
      InvalidatedAt(m, cs, c);
    }
  }

  /** invalidateRect leaves every chunk of the outer chunk rectangle, made if missing, invalid with an
      empty queue, and every other chunk as it was. */
  lemma InvalidateRectEffect(m: ChunkMap, size: Point, palette: seq<Color>, r: Rect, c: Point)
    requires Coordinates.Positive(size)
    ensures var cs := Canvases.RowMajor(LC.ToOuterChunkRect(size, r));
      var m' := Invalidated(Created(m, cs, size, palette), cs);
      && (c in m' <==> c in m || c.In(LC.ToOuterChunkRect(size, r).Canon()))
      && (c in m' && c.In(LC.ToOuterChunkRect(size, r).Canon()) ==> !m'[c].valid && m'[c].queue == [])
      && (c in m && !c.In(LC.ToOuterChunkRect(size, r).Canon()) ==> c in m' && m'[c] == m[c])
  {
    var cs := Canvases.RowMajor(LC.ToOuterChunkRect(size, r));
    Canvases.RowMajorMember(LC.ToOuterChunkRect(size, r), c);
    CreatedAt(m, cs, size, palette, c);
    InvalidatedAt(Created(m, cs, size, palette), cs, c);
  }

  // ---------------------------------------------------------------------------------------------
  // getImageCopy

  /** The images chunk.getImageCopy hands out for the chunks of cs, in order; a missing chunk gives
      none. */
  function ChunkImages(m: ChunkMap, cs: seq<Point>): (imgs: seq<Image>)
    requires AllInv(m)
    ensures forall i | 0 <= i < |imgs| :: imgs[i].WellFormed()
  {
    if cs == [] then []
    else
      var c := cs[|cs| - 1];
      ChunkImages(m, cs[..|cs| - 1]) + (if c in m then [m[c].image] else [])
  }

  lemma {:induction false} ChunkImagesAppend(m: ChunkMap, a: seq<Point>, b: seq<Point>)
    requires AllInv(m)
    ensures ChunkImages(m, a + b) == ChunkImages(m, a) + ChunkImages(m, b)
    decreases |b|
  {
    if b == [] {
      assert a + b == a;
    } else {
      var front := b[..|b| - 1];
      ChunkImagesAppend(m, a, front);
      assert (a + b)[..|a + b| - 1] == a + front;
    }
  }

  /** Among the chunk images, only the image of the pixel's own chunk covers it. */
  lemma {:induction false} LastCoverChunks(m: ChunkMap, size: Point, palette: seq<Color>, cs: seq<Point>, p: Point)
    requires Coordinates.Positive(size) && ChunksFit(m, size, palette)
    ensures var c := LC.ToChunkCoord(size, p);
      Canvases.LastCover(ChunkImages(m, cs), p) == if c in cs && c in m then Some(m[c].image) else None
  {
    if cs != [] {
      var front, d := cs[..|cs| - 1], cs[|cs| - 1];
      var c := LC.ToChunkCoord(size, p);
      LastCoverChunks(m, size, palette, front, p);
      assert cs == front + [d];
      assert c in cs <==> c in front || c == d;
      var imgs, before := ChunkImages(m, cs), ChunkImages(m, front);
      if d in m {
        LC.AgreesWithOriginZero(size, p, Rect(Zero, Zero));
        Canvases.ChunkRectHoldsItsPixels(d, size, p);
        assert imgs == before + [m[d].image];
        assert imgs[|imgs| - 1] == m[d].image && imgs[..|imgs| - 1] == before;
        assert m[d].image.Bounds() == Canvases.ChunkRect(d, size);
        if d == c {
          assert Canvases.LastCover(imgs, p) == Some(m[d].image);
        } else {
          assert Canvases.LastCover(imgs, p) == Canvases.LastCover(before, p);
        }
      } else {
        assert imgs == before;
      }
    }
  }

  /** getImageCopy (Modules/canvas.go:235-249): a fresh paletted image of the rectangle with the
      image of every chunk of the outer chunk rectangle drawn onto it, in row-major order. A missing
      chunk is a nil pointer, and reading it panics; so does NewPaletted on a rectangle that is not
      canonical, and drawing a pixel without colour. */
  function ImageCopyOf(m: ChunkMap, size: Point, palette: seq<Color>, r: Rect): Result<Image>
    requires Coordinates.Positive(size) && ChunksFit(m, size, palette)
  {
    var cs := Canvases.RowMajor(LC.ToOuterChunkRect(size, r));
    if !r.IsCanon() || !Canvases.AllPresent(cs, m) then Err(Fault)
    else
      var imgs := ChunkImages(m, cs);
      if !Canvases.AllDrawable(imgs, r, palette) then Err(Fault)
      else Ok(Canvases.Compose(NewPaletted(r, palette), imgs))
  }

  /** A chunk missing under the rectangle makes getImageCopy fail. */
  lemma ImageCopyNeedsChunks(m: ChunkMap, size: Point, palette: seq<Color>, r: Rect, c: Point)
    requires Coordinates.Positive(size) && ChunksFit(m, size, palette)
    requires c.In(LC.ToOuterChunkRect(size, r).Canon()) && c !in m
    ensures ImageCopyOf(m, size, palette, r) == Err(Fault)
  {
    Canvases.RowMajorMember(LC.ToOuterChunkRect(size, r), c);
  }

  /** Every pixel of the copy shows the colour its chunk holds there, as the nearest palette index. */
  lemma {:induction false} ImageCopyAt(m: ChunkMap, size: Point, palette: seq<Color>, r: Rect, p: Point)
    requires Coordinates.Positive(size) && ChunksFit(m, size, palette)
    requires ImageCopyOf(m, size, palette, r).Ok? && p.In(r)
    ensures var img, c := ImageCopyOf(m, size, palette, r).value, LC.ToChunkCoord(size, p);
      && img.rect == r && img.palette == palette && c in m
      && IndexAt(img, p) == NearestIndex(palette, ColorAt(m[c].image, p)) % 256
  {
    var o := LC.ToOuterChunkRect(size, r);
    var cs := Canvases.RowMajor(o);
    var c := LC.ToChunkCoord(size, p);
    ComposeAtChunks(m, size, palette, r, p);
    LC.AgreesWithOriginZero(size, p, r);
    Canvases.CoordInOuter(size, r, p);
    Canvases.RowMajorMember(o, c);
    CanonIdempotent(o);
  }

  /** The composition at p, resolved to the pixel's own chunk. */
  lemma ComposeAtChunks(m: ChunkMap, size: Point, palette: seq<Color>, r: Rect, p: Point)
    requires Coordinates.Positive(size) && ChunksFit(m, size, palette)
    requires ImageCopyOf(m, size, palette, r).Ok? && p.In(r)
    ensures var cs, c := Canvases.RowMajor(LC.ToOuterChunkRect(size, r)), LC.ToChunkCoord(size, p);
      IndexAt(ImageCopyOf(m, size, palette, r).value, p) ==
        if c in cs && c in m then NearestIndex(palette, ColorAt(m[c].image, p)) % 256
        else IndexAt(NewPaletted(r, palette), p)
  {
    var cs := Canvases.RowMajor(LC.ToOuterChunkRect(size, r));
    var base := NewPaletted(r, palette);
    Canvases.ComposeAt(base, ChunkImages(m, cs), p);
    LastCoverChunks(m, size, palette, cs, p);
  }

  // ---------------------------------------------------------------------------------------------
  // The loops over the entries getChunks returns

  /** Every entry is a chunk: the one at the coordinate in the same place. */
  predicate Found(es: seq<Option<Point>>, cs: seq<Point>) {
    |es| == |cs| && forall i | 0 <= i < |cs| :: es[i] == Some(cs[i])
  }

  /** When every coordinate has a chunk, getChunks finds them all. */
  lemma AllFound(cs: seq<Point>, m: ChunkMap)
    requires Canvases.AllPresent(cs, m)
    ensures Found(Entries(cs, m), cs)
  {
    forall i | 0 <= i < |cs| ensures Entries(cs, m)[i] == Some(cs[i]) {
      assert cs[i] in cs;
      EntriesAt(cs, m, i);
    }
  }

  /** The loop of setImage: every entry is a chunk, since setImage creates the missing ones. */
  method SetImageEach(m0: ChunkMap, es: seq<Option<Point>>, ghost cs: seq<Point>, src: Image) returns (a: Applied)
    requires Canonical(m0) && src.WellFormed() && Canvases.AllPresent(cs, m0) && Found(es, cs)
    ensures a == SetImages(m0, cs, src)
  {
    a := Applied(m0, [], None);
    var i := 0;
    while i < |es|
      invariant 0 <= i <= |cs| && Canvases.AllPresent(cs[..i], m0)
      invariant a == SetImages(m0, cs[..i], src) && a.err == None
    {
      assert es[i] == Some(cs[i]);
      a := SetImageAt(m0, cs, i, es[i].value, src, a);
      if a.err.Some? {
        return;
      }
      i := i + 1;
    }
    assert i == |cs| && cs[..i] == cs;
  }

  /** One turn of the setImage loop: chunk c, the one at cs[i], takes the image; an error ends the
      loop with the outcome of the whole list. */
  method SetImageAt(m0: ChunkMap, ghost cs: seq<Point>, i: nat, c: Point, src: Image, a: Applied) returns (b: Applied)
    requires Canonical(m0) && src.WellFormed() && Canvases.AllPresent(cs, m0) && i < |cs| && c == cs[i]
    requires Canvases.AllPresent(cs[..i], m0) && a == SetImages(m0, cs[..i], src) && a.err == None
    ensures Canvases.AllPresent(cs[..i + 1], m0) && b == SetImages(m0, cs[..i + 1], src)
    ensures b.err.Some? ==> b == SetImages(m0, cs, src)
  {
    assert cs[..i + 1][..i] == cs[..i];
    Canvases.PresentPrefix(cs, m0, i + 1);
    SetImagesUnfold(m0, cs[..i + 1], src);
    assert cs[..i + 1][i] == c;
    var step := LegacyChunks.SetImageStep(a.chunks[c], src);
    if step.Err? {
      b := Applied(a.chunks, a.sent, Some(step.error));
      SetImagesStops(m0, cs, i + 1, src);
    } else {
      b := Applied(a.chunks[c := step.value], a.sent + [SetImageEvent(step.value.image)], None);
    }
  }

  /** The loop of invalidateRect: every entry is a chunk, since invalidateRect creates the missing
      ones. */
  method InvalidateEach(m0: ChunkMap, es: seq<Option<Point>>, ghost cs: seq<Point>) returns (m: ChunkMap)
    requires Canvases.AllPresent(cs, m0) && Found(es, cs)
    ensures m == Invalidated(m0, cs)
  {
    m := m0;
    var i := 0;
    while i < |es|
      invariant 0 <= i <= |cs|
      invariant m == Invalidated(m0, cs[..i])
    {
      var c := es[i].value;
      InvalidatedAt(m0, cs[..i], c);
      assert cs[..i + 1][..i] == cs[..i];
      m := m[c := LegacyChunks.InvalidateStep(m[c])];
      i := i + 1;
    }
    assert cs[..|cs|] == cs;
  }

  /** One chunk image that cannot be drawn makes the whole list undrawable. */
  lemma UndrawableBlocks(m: ChunkMap, cs: seq<Point>, i: nat, rect: Rect, pal: seq<Color>)
    requires AllInv(m) && i < |cs| && cs[i] in m && m[cs[i]].Inv()
    requires !Canvases.Drawable(m[cs[i]].image, rect, pal)
    ensures !Canvases.AllDrawable(ChunkImages(m, cs), rect, pal)
  {
    ChunkImagesSplit(m, cs, i);
    var k := |ChunkImages(m, cs[..i])|;
    assert ChunkImages(m, cs)[k] == m[cs[i]].image;
  }

  /** The images of cs around a listed chunk: those before it, its own, those after. */
  lemma ChunkImagesSplit(m: ChunkMap, cs: seq<Point>, i: nat)
    requires AllInv(m) && i < |cs| && cs[i] in m
    ensures ChunkImages(m, cs) == ChunkImages(m, cs[..i]) + [m[cs[i]].image] + ChunkImages(m, cs[i + 1..])
  {
    var a, b := cs[..i + 1], cs[i + 1..];
    assert a[..|a| - 1] == cs[..i] && a[|a| - 1] == cs[i];
    assert ChunkImages(m, a) == ChunkImages(m, cs[..i]) + [m[cs[i]].image];
    ChunkImagesAppend(m, a, b);
    assert a + b == cs;
  }

  /** One round of the loop of getImageCopy: entry i, a chunk whose image is drawn onto img, or nil. */
  method DrawChunk(m: ChunkMap, e: Option<Point>, ghost cs: seq<Point>, i: nat, dst: Image, img: Image)
    returns (r: Result<Image>)
    requires AllInv(m) && Canvases.Dense(dst) && i < |cs| && e == if cs[i] in m then Some(cs[i]) else None
    requires Canvases.AllPresent(cs[..i], m) && Canvases.AllDrawable(ChunkImages(m, cs[..i]), dst.rect, dst.palette)
    requires img == Canvases.Compose(dst, ChunkImages(m, cs[..i]))
    ensures r.Ok? ==>
      && Canvases.AllPresent(cs[..i + 1], m) && Canvases.AllDrawable(ChunkImages(m, cs[..i + 1]), dst.rect, dst.palette)
      && r.value == Canvases.Compose(dst, ChunkImages(m, cs[..i + 1]))
    ensures r.Err? ==> r == Err(Fault) && !(Canvases.AllPresent(cs, m) && Canvases.AllDrawable(ChunkImages(m, cs), dst.rect, dst.palette))
  {
    if e.None? {
      assert cs[i] in cs;
      return Err(Fault);
    }
    var c := e.value;
    var src := m[c].image;
    if !Canvases.Drawable(src, dst.rect, dst.palette) {
      UndrawableBlocks(m, cs, i, dst.rect, dst.palette);
      return Err(Fault);
    }
    DrawnNext(m, cs, i, dst);
    r := Ok(Canvases.DrawOnto(img, src));
  }

  /** Drawing the image of chunk cs[i] after those of cs[..i] composes the images of cs[..i+1]. */
  lemma DrawnNext(m: ChunkMap, cs: seq<Point>, i: nat, dst: Image)
    requires AllInv(m) && Canvases.Dense(dst) && i < |cs| && cs[i] in m
    requires Canvases.AllPresent(cs[..i], m) && Canvases.AllDrawable(ChunkImages(m, cs[..i]), dst.rect, dst.palette)
    requires Canvases.Drawable(m[cs[i]].image, dst.rect, dst.palette)
    ensures Canvases.AllPresent(cs[..i + 1], m) && Canvases.AllDrawable(ChunkImages(m, cs[..i + 1]), dst.rect, dst.palette)
    ensures Canvases.Compose(dst, ChunkImages(m, cs[..i + 1])) ==
      Canvases.DrawOnto(Canvases.Compose(dst, ChunkImages(m, cs[..i])), m[cs[i]].image)
  {
    var src := m[cs[i]].image;
    var drawn := ChunkImages(m, cs[..i]);
    Canvases.PresentNext(cs, m, i);
    ImagesNext(m, cs, i);
    Canvases.AllDrawableSnoc(drawn, src, dst.rect, dst.palette);
    assert (drawn + [src])[..|drawn|] == drawn;
  }

  /** The images of cs[..i+1], when cs[i] is a chunk: those of cs[..i], then its own. */
  lemma ImagesNext(m: ChunkMap, cs: seq<Point>, i: nat)
    requires AllInv(m) && i < |cs| && cs[i] in m
    ensures ChunkImages(m, cs[..i + 1]) == ChunkImages(m, cs[..i]) + [m[cs[i]].image]
  {
    assert cs[..i + 1][..i] == cs[..i];
  }

  /** The loop of getImageCopy: each entry's image drawn onto dst in turn; a nil entry panics. */
  method ComposeEach(m: ChunkMap, es: seq<Option<Point>>, ghost cs: seq<Point>, dst: Image) returns (r: Result<Image>)
    requires AllInv(m) && Canvases.Dense(dst) && es == Entries(cs, m)
    ensures r == if Canvases.AllPresent(cs, m) && Canvases.AllDrawable(ChunkImages(m, cs), dst.rect, dst.palette)
      then Ok(Canvases.Compose(dst, ChunkImages(m, cs))) else Err(Fault)
  {
    var img := dst;
    var i := 0;
    while i < |es|
      invariant 0 <= i <= |cs|
      invariant Canvases.AllPresent(cs[..i], m) && Canvases.AllDrawable(ChunkImages(m, cs[..i]), dst.rect, dst.palette)
      invariant img == Canvases.Compose(dst, ChunkImages(m, cs[..i]))
    {
      EntriesAt(cs, m, i);
      var next := DrawChunk(m, es[i], cs, i, dst, img);
      if next.Err? {
        return next;
      }
      img := next.value;
      i := i + 1;
    }
    assert cs[..|cs|] == cs;
    return Ok(img);
  }

  // ---------------------------------------------------------------------------------------------
  // The canvas object

  /** The events the canvas sends to its broadcaster (Modules/canvas.go:14-27). */
  datatype Event =
    | SetPixelEvent(pos: Point, index: Byte)
    | InvalidateRectEvent(rect: Rect)
    | InvalidateAllEvent
    | SetImageEvent(image: Image)

  class Canvas<Listener(==)> {
    var chunks: ChunkMap
    var chunkSize: Point
    var palette: seq<Color>
    var events: seq<Event>
    var listeners: set<Listener>

    predicate Valid()
      reads this
    {
      Coordinates.Positive(chunkSize) && ChunksFit(chunks, chunkSize, palette)
    }

    /** newCanvas (Modules/canvas.go:54-96), without its broadcaster goroutine. */
    constructor (size: Point, p: seq<Color>)
      requires Coordinates.Positive(size)
      ensures Valid() && chunks == map[] && chunkSize == size && palette == p && events == [] && listeners == {}
    {
      chunks, chunkSize, palette, events, listeners := map[], size, p, [], {};
    }

    /** subscribeListener (Modules/canvas.go:98-103). */
    method Subscribe(l: Listener)
      modifies this
      ensures listeners == old(listeners) + {l}
      ensures chunks == old(chunks) && chunkSize == old(chunkSize) && palette == old(palette) && events == old(events)
    {
      listeners := listeners + {l};
    }

    /** unsubscribeListener (Modules/canvas.go:105-110). */
    method Unsubscribe(l: Listener)
      modifies this
      ensures listeners == old(listeners) - {l}
      ensures chunks == old(chunks) && chunkSize == old(chunkSize) && palette == old(palette) && events == old(events)
    {
      listeners := listeners - {l};
    }

    /** getChunk (Modules/canvas.go:112-143): a new chunk gets the canvas palette. */
    method GetChunk(coord: Point, create: bool) returns (r: Result<LegacyChunks.ChunkState>)
      requires Valid()
      modifies this
      ensures Valid() && chunkSize == old(chunkSize) && palette == old(palette)
      ensures events == old(events) && listeners == old(listeners)
      ensures coord in old(chunks) ==> r == Ok(old(chunks)[coord]) && chunks == old(chunks)
      ensures coord !in old(chunks) && create ==>
        r == Ok(Fresh(coord, chunkSize, palette)) && chunks == old(chunks)[coord := Fresh(coord, chunkSize, palette)]
      ensures coord !in old(chunks) && !create ==> r == Err(NotFound) && chunks == old(chunks)
    {
      if coord in chunks {
        return Ok(chunks[coord]);
      }
      if create {
        var min := Point(coord.x * chunkSize.x, coord.y * chunkSize.y);
        var max := min.Add(chunkSize);
        Canvases.ChunkRectHoldsItsPixels(coord, chunkSize, coord);
        var chunk := LegacyChunks.NewChunkState(Rect(min, max), palette);
        chunks := chunks[coord := chunk];
        return Ok(chunk);
      }
      return Err(NotFound);
    }

    /** getChunks (Modules/canvas.go:145-162). It fails only on a missing chunk that it may neither
        create nor ignore. */
    method GetChunks(cr: Rect, create: bool, ignore: bool) returns (r: Result<seq<Option<Point>>>)
      requires Valid()
      modifies this
      ensures Valid() && chunkSize == old(chunkSize) && palette == old(palette)
      ensures events == old(events) && listeners == old(listeners)
      ensures chunks == if create then Created(old(chunks), Canvases.RowMajor(cr), chunkSize, palette) else old(chunks)
      ensures r.Err? <==> !create && !ignore && !Canvases.AllPresent(Canvases.RowMajor(cr), old(chunks))
      ensures r.Err? ==> r.error == NotFound
      ensures r.Ok? ==> r.value == Entries(Canvases.RowMajor(cr), chunks)
      ensures create ==> Canvases.AllPresent(Canvases.RowMajor(cr), chunks)
    {
      var t := cr.Canon();
      ghost var m0 := chunks;
      var out: seq<Option<Point>> := [];
      var iy := t.min.y;
      ghost var done := Canvases.RowsUpTo(t, iy);
      while iy < t.max.y
        invariant t.min.y <= iy <= t.max.y && done == Canvases.RowsUpTo(t, iy)
        invariant Valid() && chunkSize == old(chunkSize) && palette == old(palette)
        invariant events == old(events) && listeners == old(listeners)
        invariant chunks == if create then Created(m0, done, chunkSize, palette) else m0
        invariant out == Entries(done, chunks)
        invariant create || !ignore ==> Canvases.AllPresent(done, chunks)
      {
        var missing;
        ghost var next := Canvases.RowsUpTo(t, iy + 1);
        Canvases.RowsUpToNext(t, iy);
        out, missing := GetRow(t, iy, create, ignore, m0, done, next, out);
        if missing.Some? {
          Canvases.RowMajorLacks(cr, m0, missing.value);
          return Err(NotFound);
        }
        iy, done := iy + 1, next;
      }
      return Ok(out);
    }

    /** The inner loop of getChunks: row iy of t, left to right, after the coordinates `before`
        (whose entries are out0), ending at the coordinates `after`. On a missing chunk that may not
        be ignored it stops and names it. */
    method GetRow(t: Rect, iy: int, create: bool, ignore: bool, ghost m0: ChunkMap, ghost before: seq<Point>,
                  ghost after: seq<Point>, out0: seq<Option<Point>>) returns (out: seq<Option<Point>>, missing: Option<Point>)
      requires after == before + Canvases.RowUpTo(t, iy, t.max.x)
      requires Valid()
      requires chunks == if create then Created(m0, before, chunkSize, palette) else m0
      requires out0 == Entries(before, chunks)
      requires create || !ignore ==> Canvases.AllPresent(before, chunks)
      modifies this
      ensures Valid() && chunkSize == old(chunkSize) && palette == old(palette)
      ensures events == old(events) && listeners == old(listeners)
      ensures missing.Some? ==>
        && !create && !ignore && chunks == m0 && missing.value !in m0
        && missing.value.y == iy && t.min.x <= missing.value.x < t.max.x
      ensures missing.None? ==>
        && (chunks == if create then Created(m0, after, chunkSize, palette) else m0)
        && out == Entries(after, chunks)
        && (create || !ignore ==> Canvases.AllPresent(after, chunks))
    {
      out := out0;
      var ix := t.min.x;
      assert before + Canvases.RowUpTo(t, iy, ix) == before;
      while ix < t.max.x
        invariant t.min.x <= ix <= t.max.x || (t.max.x < t.min.x && ix == t.min.x)
        invariant Valid() && chunkSize == old(chunkSize) && palette == old(palette)
        invariant events == old(events) && listeners == old(listeners)
        invariant var done := before + Canvases.RowUpTo(t, iy, ix);
          && (chunks == if create then Created(m0, done, chunkSize, palette) else m0)
          && out == Entries(done, chunks)
          && (create || !ignore ==> Canvases.AllPresent(done, chunks))
      {
        var c := Point(ix, iy);
        var lacking;
        out, lacking := GetCell(t, iy, ix, create, ignore, m0, before, out);
        if lacking {
          return out, Some(c);
        }
        ix := ix + 1;
      }
      if ix == t.min.x {
        assert Canvases.RowUpTo(t, iy, t.max.x) == [];
      }
      missing := None;
    }

    /** One step of the inner loop of getChunks: the chunk at (ix, iy), after the coordinates before
        it (whose entries are out0). It reports a missing chunk that may not be ignored. */
    method GetCell(t: Rect, iy: int, ix: int, create: bool, ignore: bool, ghost m0: ChunkMap,
                   ghost before: seq<Point>, out0: seq<Option<Point>>) returns (out: seq<Option<Point>>, lacking: bool)
      requires t.min.x <= ix
      requires Valid()
      requires var done := before + Canvases.RowUpTo(t, iy, ix);
        && (chunks == if create then Created(m0, done, chunkSize, palette) else m0)
        && out0 == Entries(done, chunks)
        && (create || !ignore ==> Canvases.AllPresent(done, chunks))
      modifies this
      ensures Valid() && chunkSize == old(chunkSize) && palette == old(palette)
      ensures events == old(events) && listeners == old(listeners)
      ensures lacking ==> !create && !ignore && chunks == m0 && Point(ix, iy) !in m0
      ensures !lacking ==> var next := before + Canvases.RowUpTo(t, iy, ix + 1);
        && (chunks == if create then Created(m0, next, chunkSize, palette) else m0)
        && out == Entries(next, chunks)
        && (create || !ignore ==> Canvases.AllPresent(next, chunks))
    {
      var c := Point(ix, iy);
      ghost var done := before + Canvases.RowUpTo(t, iy, ix);
      Canvases.RowUpToNext(before, t, iy, ix);
      ghost var m1 := chunks;
      CreatedSnoc(m0, done, c, chunkSize, palette);
      var chunk := GetChunk(c, create);
      if chunk.Err? && !ignore {
        return out0, true;
      }
      if create {
        EntriesGrow(done, m1, chunks);
      }
      EntriesSnoc(done, c, chunks);
      out, lacking := out0 + [if chunk.Ok? then Some(c) else None], false;
    }

    /** getPixel (Modules/canvas.go:164-173). The pixel always lies in the chunk found. */
    function GetPixel(pos: Point): (r: Result<Option<Color>>)
      requires Valid()
      reads this
      ensures r != Err(OutOfBounds)
      ensures r == Err(NotFound) <==> LC.ToChunkCoord(chunkSize, pos) !in chunks
    {
      var c := LC.ToChunkCoord(chunkSize, pos);
      LC.ChunkContainsPixel(chunkSize, pos);
      Canvases.ChunkRectHoldsItsPixels(c, chunkSize, pos);
      if c !in chunks then Err(NotFound) else LegacyChunks.PixelAt(chunks[c], pos)
    }

    /** getPixelIndex (Modules/canvas.go:175-184). */
    function GetPixelIndex(pos: Point): (r: Result<Byte>)
      requires Valid()
      reads this
      ensures r.Err? <==> LC.ToChunkCoord(chunkSize, pos) !in chunks
      ensures r.Err? ==> r.error == NotFound
    {
      var c := LC.ToChunkCoord(chunkSize, pos);
      LC.ChunkContainsPixel(chunkSize, pos);
      Canvases.ChunkRectHoldsItsPixels(c, chunkSize, pos);
      if c !in chunks then Err(NotFound) else LegacyChunks.PixelIndexAt(chunks[c], pos)
    }

    /** setPixelIndex (Modules/canvas.go:190-205): the event is sent before the lookup, no chunk is
        created, and the chunk found always holds the pixel. */
    method SetPixelIndex(pos: Point, index: Byte) returns (err: Option<Error>)
      requires Valid()
      modifies this
      ensures Valid() && chunkSize == old(chunkSize) && palette == old(palette) && listeners == old(listeners)
      ensures events == old(events) + [SetPixelEvent(pos, index)]
      ensures var c := LC.ToChunkCoord(chunkSize, pos);
        if c !in old(chunks) then err == Some(NotFound) && chunks == old(chunks)
        else var t := LegacyChunks.SetPixelIndexStep(old(chunks)[c], pos, index);
          t.Ok? && err == None && chunks == old(chunks)[c := t.value]
    {
      var c := LC.ToChunkCoord(chunkSize, pos);
      events := events + [SetPixelEvent(pos, index)];
      var chunk := GetChunk(c, false);
      if chunk.Err? {
        return Some(NotFound);
      }
      SetPixelInChunk(chunks, chunkSize, palette, pos, index);
      var t := LegacyChunks.SetPixelIndexStep(chunk.value, pos, index);
      chunks := chunks[c := t.value];
      return None;
    }

    /** setPixel (Modules/canvas.go:186-188): the nearest index of the canvas palette, cut to a byte. */
    method SetPixel(pos: Point, col: Color) returns (err: Option<Error>)
      requires Valid()
      modifies this
      ensures Valid() && chunkSize == old(chunkSize) && palette == old(palette) && listeners == old(listeners)
      ensures var index := NearestIndex(old(palette), col) % 256;
        && events == old(events) + [SetPixelEvent(pos, index)]
        && var c := LC.ToChunkCoord(chunkSize, pos);
        if c !in old(chunks) then err == Some(NotFound) && chunks == old(chunks)
        else var t := LegacyChunks.SetPixelIndexStep(old(chunks)[c], pos, index);
          t.Ok? && err == None && chunks == old(chunks)[c := t.value]
    {
      err := SetPixelIndex(pos, NearestIndex(palette, col) % 256);
    }

    /** setImage (Modules/canvas.go:210-229): the chunks of the inner chunk rectangle, created where
        missing, one event each. */
    method SetImage(img: Image) returns (err: Option<Error>)
      requires Valid() && img.WellFormed()
      modifies this
      ensures Valid() && chunkSize == old(chunkSize) && palette == old(palette) && listeners == old(listeners)
      ensures var cs := Canvases.RowMajor(LC.ToInnerChunkRect(chunkSize, img.Bounds()));
        var m1 := Created(old(chunks), cs, chunkSize, palette);
        && Canonical(m1) && Canvases.AllPresent(cs, m1)
        && |old(events)| <= |events| && events[..|old(events)|] == old(events)
        && SetImages(m1, cs, img) == Applied(chunks, events[|old(events)|..], err)
    {
      var cr := LC.ToInnerChunkRect(chunkSize, img.Bounds());
      ghost var cs := Canvases.RowMajor(cr);
      var got := GetChunks(cr, true, false);
      ghost var m1 := chunks;
      assert m1 == Created(old(chunks), cs, chunkSize, palette);
      SetImagesFits(m1, cs, img, chunkSize, palette);
      AllFound(cs, m1);
      var a := SetImageEach(chunks, got.value, cs, img);
      assert a == SetImages(m1, cs, img) && ChunksFit(a.chunks, chunkSize, palette);
      ghost var e0 := events;
      chunks, events, err := a.chunks, events + a.sent, a.err;
      assert e0 == old(events) && events[|e0|..] == a.sent && events[..|e0|] == e0;
    }

    /** getImageCopy (Modules/canvas.go:235-249). */
    method GetImageCopy(rect: Rect) returns (r: Result<Image>)
      requires Valid()
      modifies this
      ensures Valid() && chunks == old(chunks) && chunkSize == old(chunkSize) && palette == old(palette)
      ensures events == old(events) && listeners == old(listeners)
      ensures r == ImageCopyOf(chunks, chunkSize, palette, rect)
    {
      var cr := LC.ToOuterChunkRect(chunkSize, rect);
      var got := GetChunks(cr, false, true);
      if !rect.IsCanon() {
        return Err(Fault);
      }
      r := ComposeEach(chunks, got.value, Canvases.RowMajor(cr), NewPaletted(rect, palette));
    }

    /** invalidateRect (Modules/canvas.go:255-272): the chunks of the outer chunk rectangle, created
        where missing. */
    method InvalidateRect(rect: Rect)
      requires Valid()
      modifies this
      ensures Valid() && chunkSize == old(chunkSize) && palette == old(palette) && listeners == old(listeners)
      ensures events == old(events) + [InvalidateRectEvent(rect)]
      ensures var cs := Canvases.RowMajor(LC.ToOuterChunkRect(chunkSize, rect));
        chunks == Invalidated(Created(old(chunks), cs, chunkSize, palette), cs)
    {
      events := events + [InvalidateRectEvent(rect)];
      var cr := LC.ToOuterChunkRect(chunkSize, rect);
      var got := GetChunks(cr, true, true);
      AllFound(Canvases.RowMajor(cr), chunks);
      var m := InvalidateEach(chunks, got.value, Canvases.RowMajor(cr));
      InvalidatedFits(chunks, Canvases.RowMajor(cr), chunkSize, palette);
      chunks := m;
    }

    /** invalidateAll (Modules/canvas.go:278-290): every chunk of the map, in any order. */
    method InvalidateAll()
      requires Valid()
      modifies this
      ensures Valid() && chunkSize == old(chunkSize) && palette == old(palette) && listeners == old(listeners)
      ensures events == old(events) + [InvalidateAllEvent]
      ensures chunks == InvalidatedAll(old(chunks))
    {
      events := events + [InvalidateAllEvent];
      var m := InvalidateAllEach(chunks);
      InvalidatedAllFits(chunks, chunkSize, palette);
      chunks := m;
    }
  }
}
