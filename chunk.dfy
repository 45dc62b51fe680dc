/** chunk.go: one tile of the canvas. A chunk holds an image of its rectangle, the flags Valid (the
    image is in sync with the game) and Downloading (an image is being fetched), the queue of pixels
    set while downloading, and the time it was last queried.

    The operations are given twice: as steps on a ChunkState value, which the lemmas are about, and
    as the methods of the class Chunk, which update the fields in place and are proved to take
    exactly those steps. */
module Chunks {
  import opened Geometry
  import opened Colors
  import opened Bytes
  import opened Images
  import opened Results
  import Utility

  /** chunkDeleteTime: five minutes, in nanoseconds. */
  const ChunkDeleteTime: int := 300_000_000_000

  /** pixelQueueElement. */
  datatype QueueElement = QueueElement(pos: Point, color: Color)

  /** chunkQueryResult. Compress is declared but never produced. */
  datatype QueryResult = Keep | Download | Compress | Delete

  datatype ChunkState = ChunkState(rect: Rect, image: Image, queue: seq<QueueElement>,
                                   valid: bool, downloading: bool, lastQueryTime: int)
  {
    /** Valid and Downloading are never both set, and the image covers exactly the canonical rectangle. */
    predicate Inv() {
      !(valid && downloading) && rect.IsCanon() && image.WellFormed() && image.Bounds() == rect
    }
  }

  /** newChunk (chunk.go:51-62): the canonical rectangle doubles as the image. */
  function NewChunkState(rect: Rect, now: int): (s: ChunkState)
    ensures s.Inv() && s.rect.Canon() == rect.Canon()
    ensures !s.valid && !s.downloading && s.queue == [] && s.lastQueryTime == now
    ensures s.image == RectImage(s.rect)
  {
    var c := rect.Canon();
    CanonIdempotent(rect);
    ChunkState(c, RectImage(c), [], false, false, now)
  }

  /** getPixel (chunk.go:64-73). A paletted image without palette gives the nil colour (None); a stored
      index outside a non-empty palette makes At panic (Fault). */
  function PixelAt(s: ChunkState, pos: Point): (r: Result<Option<Color>>)
    requires s.Inv()
    ensures r == Err(OutOfBounds) <==> !pos.In(s.rect)
    ensures pos.In(s.rect) && !s.image.Paletted? ==> r.Ok? && r.value.Some?
    ensures r == Err(Fault) <==>
      pos.In(s.rect) && s.image.Paletted? && |s.image.palette| > 0 && IndexAt(s.image, pos) >= |s.image.palette|
  {
    if !pos.In(s.rect) then Err(OutOfBounds)
    else match At(s.image, pos)
      case Some(c) => Ok(Some(c))
      case None => if s.image.Paletted? && |s.image.palette| == 0 then Ok(None) else Err(Fault)
  }

  /** getPixelIndex (chunk.go:75-89). */
  function PixelIndexAt(s: ChunkState, pos: Point): (r: Result<Byte>)
    requires s.Inv()
    ensures r.Ok? <==> pos.In(s.rect) && s.image.Paletted?
    ensures r.Err? ==> r.error == if pos.In(s.rect) then NotPaletted else OutOfBounds
    ensures r.Ok? && |s.image.palette| > 0 ==> (PixelAt(s, pos) ==
      if r.value < |s.image.palette| then Ok(Some(s.image.palette[r.value])) else Err(Fault))
  {
    if !pos.In(s.rect) then Err(OutOfBounds)
    else if !s.image.Paletted? then Err(NotPaletted)
    else Ok(IndexAt(s.image, pos))
  }

  /** setPixel (chunk.go:91-121): the image is written when Valid, the pixel is queued when Downloading. */
  function SetPixelStep(s: ChunkState, pos: Point, col: Color): Result<ChunkState>
    requires s.Inv()
  {
    if !pos.In(s.rect) then Err(OutOfBounds)
    else if s.valid && s.image.RectImage? then Err(IncompatibleImage)
    else
      var img := if s.valid then SetColor(s.image, pos, col) else s.image;
      var q := if s.downloading then s.queue + [QueueElement(pos, col)] else s.queue;
      Ok(s.(image := img, queue := q))
  }

  /** setPixelIndex (chunk.go:123-150): the image is written whatever the flags; the pixel, with its
      palette colour, is queued when Downloading. */
  function SetPixelIndexStep(s: ChunkState, pos: Point, index: Byte): Result<ChunkState>
    requires s.Inv()
  {
    if !pos.In(s.rect) then Err(OutOfBounds)
    else if !s.image.Paletted? then Err(NotPaletted)
    else if index >= |s.image.palette| then Err(PaletteIndex)
    else
      var q := if s.downloading then s.queue + [QueueElement(pos, s.image.palette[index])] else s.queue;
      Ok(s.(image := SetIndex(s.image, pos, index), queue := q))
  }

  /** The chunk-sized copy setImage draws: paletted with the source's palette for a paletted source,
      RGBA for any other (chunk.go:171-200). */
  function Redrawn(r: Rect, src: Image): (img: Image)
    requires r.IsCanon() && src.WellFormed()
    ensures img.WellFormed() && !img.RectImage? && img.rect == r
  {
    if src.Paletted? then DrawPaletted(r, src.palette, src) else DrawRGBA(r, src)
  }

  /** The image after the queued pixels are drawn onto img, in arrival order. */
  function Replay(img: Image, q: seq<QueueElement>): (r: Image)
    requires !img.RectImage? && img.WellFormed()
    ensures !r.RectImage? && r.WellFormed() && r.rect == img.rect && r.RGBA? == img.RGBA?
    ensures r.Paletted? ==> r.palette == img.palette
  {
    if q == [] then img
    else
      var last := q[|q| - 1];
      SetColor(Replay(img, q[..|q| - 1]), last.pos, last.color)
  }

  /** Replay written as the loop of setImage: the queued pixels drawn one by one in arrival order. */
  method ReplayQueue(d: Image, q: seq<QueueElement>) returns (img: Image)
    requires !d.RectImage? && d.WellFormed()
    ensures img == Replay(d, q)
  {
    img := d;
    var i := 0;
    while i < |q|
      invariant 0 <= i <= |q| && img == Replay(d, q[..i])
    {
      ReplaySnoc(d, q, i);
      img := SetColor(img, q[i].pos, q[i].color);
      i := i + 1;
    }
    assert q[..i] == q;
  }

  /** Replaying one more queued pixel draws it on top of the replay so far. */
  lemma ReplaySnoc(d: Image, q: seq<QueueElement>, i: nat)
    requires !d.RectImage? && d.WellFormed() && i < |q|
    ensures Replay(d, q[..i + 1]) == SetColor(Replay(d, q[..i]), q[i].pos, q[i].color)
  {
    assert q[..i + 1][..i] == q[..i];
  }

  /** The colour most recently queued for p, if any. */
  function LastWrite(q: seq<QueueElement>, p: Point): Option<Color> {
    if q == [] then None
    else if q[|q| - 1].pos == p then Some(q[|q| - 1].color)
    else LastWrite(q[..|q| - 1], p)
  }

  /** setImage (chunk.go:159-224). The chunk rectangle must lie in the source (checked first) and the
      chunk must be downloading; a source pixel without colour makes the draw panic (Fault). When the
      drawn copy equals the held image and nothing is queued, no image is returned. */
  function SetImageStep(s: ChunkState, src: Image): (r: (Result<Option<Image>>, ChunkState))
    requires s.rect.IsCanon() && src.WellFormed()
    ensures r.1.rect == s.rect
  {
    match SetImageCheck(s, src)
    case Some(e) => (Err(e), s)
    case None => (Ok(SetImageOutput(s, src)), s.(image := SetImageImage(s, src), queue := [], downloading := false, valid := true))
  }

  /** The error setImage stops with, if any, in the order the checks are made. */
  function SetImageCheck(s: ChunkState, src: Image): Option<Error>
    requires src.WellFormed()
  {
    if !s.rect.In(src.Bounds()) then Some(NotCovered)
    else if !s.downloading then Some(NotDownloading)
    else if !DefinedOn(src, s.rect) then Some(Fault)
    else None
  }

  /** The image a successful setImage leaves in the chunk: the redrawn copy with the queue replayed. */
  function SetImageImage(s: ChunkState, src: Image): Image
    requires s.rect.IsCanon() && src.WellFormed()
  {
    var d := Redrawn(s.rect, src);
    if s.image == d && s.queue == [] then s.image else Replay(d, s.queue)
  }

  /** The image a successful setImage returns: none when the copy equals the held image and nothing
      was queued. */
  function SetImageOutput(s: ChunkState, src: Image): Option<Image>
    requires s.rect.IsCanon() && src.WellFormed()
  {
    var d := Redrawn(s.rect, src);
    if s.image == d && s.queue == [] then None else Some(Replay(d, s.queue))
  }

  /** getImageCopy (chunk.go:226-240): the image with both flags. */
  function ImageCopy(s: ChunkState, onlyIfValid: bool): Result<(Image, bool, bool)> {
    if onlyIfValid && !s.valid then Err(NotValid)
    else if s.image.RectImage? then Err(IncompatibleImage)
    else Ok((s.image, s.valid, s.downloading))
  }

  /** invalidateImage (chunk.go:245-252). */
  function InvalidateStep(s: ChunkState): ChunkState {
    s.(valid := false)
  }

  /** revalidate (chunk.go:257-266). */
  function RevalidateStep(s: ChunkState): ChunkState {
    s.(queue := [], downloading := false, valid := true)
  }

  /** signalDownload (chunk.go:273-285). */
  function SignalDownloadStep(s: ChunkState): (bool, ChunkState) {
    if s.valid || s.downloading then (false, s)
    else (true, s.(queue := [], downloading := true))
  }

  /** getQueryState (chunk.go:299-316): the timer is only reset on the Keep path of a chunk that is not
      downloading. */
  function QueryStep(s: ChunkState, resetTime: bool, now: int): (QueryResult, ChunkState) {
    if s.lastQueryTime + ChunkDeleteTime < now then (Delete, s)
    else if !s.valid && !s.downloading then (Download, s)
    else (Keep, if !s.downloading && resetTime then s.(lastQueryTime := now) else s)
  }

  // ---------------------------------------------------------------------------------------------
  // Properties of the steps

  /** Every operation keeps the invariant, in particular that Valid and Downloading are exclusive. */
  lemma StepsKeepInv(s: ChunkState, pos: Point, col: Color, index: Byte, src: Image, resetTime: bool, now: int)
    requires s.Inv() && src.WellFormed()
    ensures SetPixelStep(s, pos, col).Ok? ==> SetPixelStep(s, pos, col).value.Inv()
    ensures SetPixelIndexStep(s, pos, index).Ok? ==> SetPixelIndexStep(s, pos, index).value.Inv()
    ensures InvalidateStep(s).Inv() && RevalidateStep(s).Inv() && SignalDownloadStep(s).1.Inv()
    ensures QueryStep(s, resetTime, now).1.Inv()
  {
  }

  /** setImage keeps the invariant too. */
  lemma SetImageKeepsInv(s: ChunkState, src: Image)
    requires s.Inv() && src.WellFormed()
    ensures SetImageStep(s, src).1.Inv()
  {
  }

  /** signalDownload succeeds exactly on an invalid chunk that is not downloading; a second call fails
      and changes nothing. */
  lemma SignalDownloadOnce(s: ChunkState)
    ensures SignalDownloadStep(s).0 <==> !s.valid && !s.downloading
    ensures !SignalDownloadStep(s).0 ==> SignalDownloadStep(s).1 == s
    ensures SignalDownloadStep(s).0 ==> SignalDownloadStep(s).1.downloading && SignalDownloadStep(s).1.queue == []
    ensures var t := SignalDownloadStep(s).1; SignalDownloadStep(t) == (false, t)
  {
  }

  /** After revalidate no download can be signalled; after invalidating a chunk that is not downloading
      one can. */
  lemma RevalidateInvalidateDownload(s: ChunkState)
    ensures !SignalDownloadStep(RevalidateStep(s)).0
    ensures !s.downloading ==> SignalDownloadStep(InvalidateStep(s)).0
    ensures RevalidateStep(s).valid && !RevalidateStep(s).downloading && RevalidateStep(s).queue == []
  {
  }

  /** setPixel on an invalid chunk that is not downloading changes nothing. */
  lemma SetPixelIdle(s: ChunkState, pos: Point, col: Color)
    requires s.Inv() && pos.In(s.rect) && !s.valid && !s.downloading
    ensures SetPixelStep(s, pos, col) == Ok(s)
  {
  }

  /** setPixel: the pixel is written exactly when the chunk is valid and queued exactly when it is
      downloading; no other pixel changes. */
  lemma {:induction false} SetPixelEffect(s: ChunkState, pos: Point, col: Color, q: Point)
    requires s.Inv() && SetPixelStep(s, pos, col).Ok?
    ensures pos.In(s.rect)
    ensures var t := SetPixelStep(s, pos, col).value;
      && t.rect == s.rect && t.valid == s.valid && t.downloading == s.downloading
      && t.lastQueryTime == s.lastQueryTime
      && t.queue == (if s.downloading then s.queue + [QueueElement(pos, col)] else s.queue)
      && At(t.image, q) == (if s.valid && q == pos then Stored(s.image, col) else At(s.image, q))
  {
    if s.valid {
      SetColorAt(s.image, pos, col, q);
    }
  }

  /** setPixelIndex: the stored index reads back and no other pixel changes; the palette colour is
      queued when downloading. */
  lemma {:induction false} SetPixelIndexEffect(s: ChunkState, pos: Point, index: Byte, q: Point)
    requires s.Inv() && SetPixelIndexStep(s, pos, index).Ok? && q.In(s.rect)
    ensures s.image.Paletted? && index < |s.image.palette|
    ensures var t := SetPixelIndexStep(s, pos, index).value;
      && t.Inv() && t.valid == s.valid && t.downloading == s.downloading
      && PixelIndexAt(t, q) == (if q == pos then Ok(index) else PixelIndexAt(s, q))
      && t.queue == (if s.downloading then s.queue + [QueueElement(pos, s.image.palette[index])] else s.queue)
  {
    SetIndexThenIndexAt(s.image, pos, q, index);
  }

  /** setImage fails without any change when the chunk is not inside the source (whatever the flags),
      or when no download was signalled. */
  lemma SetImageRejects(s: ChunkState, src: Image)
    requires s.Inv() && src.WellFormed()
    ensures !s.rect.In(src.Bounds()) ==> SetImageStep(s, src) == (Err(NotCovered), s)
    ensures s.rect.In(src.Bounds()) && !s.downloading ==> SetImageStep(s, src) == (Err(NotDownloading), s)
    ensures SetImageStep(s, src).0.Err? ==> SetImageStep(s, src).1 == s
  {
  }

  /** Only a paletted source can lack a colour, so only a paletted source can make setImage panic. */
  lemma OnlyPalettedFaults(src: Image, r: Rect)
    requires src.WellFormed() && !src.Paletted?
    ensures DefinedOn(src, r)
  {
  }

  /** Replaying a queue leaves each pixel with the colour last queued for it, or untouched. */
  lemma {:induction false} ReplayAt(img: Image, q: seq<QueueElement>, p: Point)
    requires !img.RectImage? && img.WellFormed() && p.In(img.rect)
    ensures At(Replay(img, q), p) == match LastWrite(q, p) case Some(c) => Stored(img, c) case None => At(img, p)
  {
    if q != [] {
      var front, last := q[..|q| - 1], q[|q| - 1];
      var mid := Replay(img, front);
      ReplayAt(img, front, p);
      assert Stored(mid, last.color) == Stored(img, last.color);
      if last.pos.In(mid.rect) {
        SetColorAt(mid, last.pos, last.color, p);
      } else {
        assert last.pos != p;
      }
    }
  }

  /** A successful setImage: the chunk is valid, not downloading, with an empty queue, and each of its
      pixels shows the colour last queued for it, or else the redrawn source's colour, which is the
      source's own unless the source is paletted with entries that are not 8-bit, and then within one
      unit of it per channel. An image is returned unless the copy equals the held image and nothing
      was queued, and it is the new image. */
  lemma {:induction false} SetImageResult(s: ChunkState, src: Image, p: Point)
    requires s.Inv() && src.WellFormed() && SetImageStep(s, src).0.Ok? && p.In(s.rect)
    ensures var (r, t) := SetImageStep(s, src);
      && t.valid && !t.downloading && t.queue == [] && t.rect == s.rect && t.Inv()
      && (r.value == None <==> s.image == Redrawn(s.rect, src) && s.queue == [])
      && (r.value != None ==> r.value == Some(t.image))
      && At(t.image, p) == match LastWrite(s.queue, p)
           case Some(c) => Stored(Redrawn(s.rect, src), c)
           case None => At(Redrawn(s.rect, src), p)
    ensures LastWrite(s.queue, p).None? ==>
      At(SetImageStep(s, src).1.image, p).Some? && At(src, p).Some? &&
      Close(At(SetImageStep(s, src).1.image, p).value, At(src, p).value)
    ensures LastWrite(s.queue, p).None? && (src.Paletted? ==> Palette8(src.palette)) ==>
      At(SetImageStep(s, src).1.image, p) == At(src, p)
  {
    var d := Redrawn(s.rect, src);
    assert s.rect.In(src.Bounds()) && !s.rect.Empty();
    DrawCopies(s.rect, src, p);
    ReplayAt(d, s.queue, p);
  }

  /** getImageCopy fails on an invalid chunk when asked for a valid one, and on a chunk that still holds
      its bare rectangle; otherwise it reports the image and both flags. */
  lemma ImageCopyResult(s: ChunkState, onlyIfValid: bool)
    ensures ImageCopy(s, onlyIfValid).Ok? <==> (!onlyIfValid || s.valid) && !s.image.RectImage?
    ensures ImageCopy(s, onlyIfValid).Ok? ==> ImageCopy(s, onlyIfValid).value == (s.image, s.valid, s.downloading)
  {
  }

  /** getQueryState: Delete exactly when the last query is more than five minutes old, Download for an
      idle chunk otherwise, else Keep; only Keep with resetTime on a chunk that is not downloading
      refreshes the timer, and nothing else changes. */
  lemma QueryResultCases(s: ChunkState, resetTime: bool, now: int)
    ensures var (res, t) := QueryStep(s, resetTime, now);
      && (res == Delete <==> s.lastQueryTime + ChunkDeleteTime < now)
      && (res == Download <==> !(s.lastQueryTime + ChunkDeleteTime < now) && !s.valid && !s.downloading)
      && res != Compress
      && t == s.(lastQueryTime := t.lastQueryTime)
      && (t.lastQueryTime == now || t.lastQueryTime == s.lastQueryTime)
      && (t.lastQueryTime != s.lastQueryTime ==> res == Keep && resetTime && !s.downloading)
  {
  }

  /** A chunk stuck downloading never refreshes its timer, so it is deleted once five minutes have
      passed; a refresh at time now keeps the chunk from deletion up to now plus five minutes. */
  lemma {:induction false} StuckDownloadExpires(s: ChunkState, resetTime: bool, now: int, later: int)
    ensures s.downloading ==> QueryStep(s, resetTime, now).1 == s
    ensures s.downloading && s.lastQueryTime + ChunkDeleteTime < later ==> QueryStep(s, resetTime, later).0 == Delete
    ensures var t := QueryStep(s, true, now).1;
      t.lastQueryTime == now && now <= later <= now + ChunkDeleteTime ==> QueryStep(t, resetTime, later).0 != Delete
  {
  }

  // ---------------------------------------------------------------------------------------------
  // The chunk object

  class Chunk {
    var rect: Rect
    var image: Image
    var queue: seq<QueueElement>
    var valid: bool
    var downloading: bool
    var lastQueryTime: int

    function State(): ChunkState
      reads this
    {
      ChunkState(rect, image, queue, valid, downloading, lastQueryTime)
    }

    predicate Valid()
      reads this
    {
      State().Inv()
    }

    /** newChunk. */
    constructor (r: Rect, now: int)
      ensures Valid() && State() == NewChunkState(r, now)
    {
      var c := r.Canon();
      rect, image, queue := c, RectImage(c), [];
      valid, downloading, lastQueryTime := false, false, now;
    }

    method SetPixel(pos: Point, col: Color) returns (err: Option<Error>)
      requires Valid()
      modifies this
      ensures Valid()
      ensures var t := SetPixelStep(old(State()), pos, col);
        if t.Ok? then err == None && State() == t.value else err == Some(t.error) && State() == old(State())
    {
      if !pos.In(rect) {
        return Some(OutOfBounds);
      }
      if valid {
        if image.RectImage? {
          return Some(IncompatibleImage);
        }
        image := SetColor(image, pos, col);
      }
      if downloading {
        queue := queue + [QueueElement(pos, col)];
      }
      return None;
    }

    method SetPixelIndex(pos: Point, index: Byte) returns (err: Option<Error>)
      requires Valid()
      modifies this
      ensures Valid()
      ensures var t := SetPixelIndexStep(old(State()), pos, index);
        if t.Ok? then err == None && State() == t.value else err == Some(t.error) && State() == old(State())
    {
      if !pos.In(rect) {
        return Some(OutOfBounds);
      }
      if !image.Paletted? {
        return Some(NotPaletted);
      }
      if index >= |image.palette| {
        return Some(PaletteIndex);
      }
      var palette := image.palette;
      image := SetIndex(image, pos, index);
      if downloading {
        queue := queue + [QueueElement(pos, palette[index])];
      }
      return None;
    }

    /** setImage, replaying the queue pixel by pixel. */
    method SetImage(src: Image) returns (r: Result<Option<Image>>)
      requires Valid() && src.WellFormed()
      modifies this
      ensures Valid() && (r, State()) == SetImageStep(old(State()), src)
    {
      if !rect.In(src.Bounds()) {
        return Err(NotCovered);
      }
      if !downloading {
        return Err(NotDownloading);
      }
      if !DefinedOn(src, rect) {
        return Err(Fault);
      }
      var d := Redrawn(rect, src);
      if image == d && |queue| == 0 {
        queue, downloading, valid := [], false, true;
        return Ok(None);
      }
      image := ReplayQueue(d, queue);
      queue, downloading, valid := [], false, true;
      var copy := Utility.CopyImage(image);
      r := Ok(Some(copy.value));
    }

    method GetImageCopy(onlyIfValid: bool) returns (r: Result<(Image, bool, bool)>)
      requires Valid()
      ensures r == ImageCopy(State(), onlyIfValid)
    {
      if onlyIfValid && !valid {
        return Err(NotValid);
      }
      var copy := Utility.CopyImage(image);
      if copy.Err? {
        return Err(copy.error);
      }
      return Ok((copy.value, valid, downloading));
    }

    method InvalidateImage()
      requires Valid()
      modifies this
      ensures Valid() && State() == InvalidateStep(old(State()))
    {
      valid := false;
    }

    method Revalidate()
      requires Valid()
      modifies this
      ensures Valid() && State() == RevalidateStep(old(State()))
    {
      queue, downloading, valid := [], false, true;
    }

    method SignalDownload() returns (ok: bool)
      requires Valid()
      modifies this
      ensures Valid() && (ok, State()) == SignalDownloadStep(old(State()))
    {
      if valid || downloading {
        return false;
      }
      queue, downloading := [], true;
      return true;
    }

    method GetQueryState(resetTime: bool, now: int) returns (res: QueryResult)
      requires Valid()
      modifies this
      ensures Valid() && (res, State()) == QueryStep(old(State()), resetTime, now)
    {
      if lastQueryTime + ChunkDeleteTime < now {
        return Delete;
      }
      if !valid && !downloading {
        return Download;
      }
      if !downloading && resetTime {
        lastQueryTime := now;
      }
      return Keep;
    }
  }
}
