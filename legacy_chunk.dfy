/** Modules/chunk.go: the earlier chunk, with a Valid flag only. Its image is always paletted with the
    chunk's palette and queued pixels are palette indices.

    As for the current chunk, the operations are steps on a ChunkState value, and the class Chunk is
    proved to take them. The class holds the image by pointer, as the source does: its pixel buffer is
    an array written in place, which is what lets a handed-out image share it. */
module LegacyChunks {
  import opened Geometry
  import opened Colors
  import opened Bytes
  import opened Images
  import opened Results
  import Arith

  /** pixelQueueElement. */
  datatype QueueElement = QueueElement(pos: Point, index: Byte)

  datatype ChunkState = ChunkState(rect: Rect, palette: seq<Color>, image: Image, queue: seq<QueueElement>, valid: bool)
  {
    /** The image is paletted with the chunk's palette, over the canonical rectangle, with stride Dx. */
    predicate Inv() {
      rect.IsCanon() && image.Paletted? && image.WellFormed() && image.rect == rect &&
      image.stride == rect.Dx() && |image.pix| == rect.Dx() * rect.Dy() && image.palette == palette
    }
  }

  /** newChunk (Modules/chunk.go:28-37). */
  function NewChunkState(rect: Rect, palette: seq<Color>): (s: ChunkState)
    requires rect.IsCanon()
    ensures s.Inv() && s.rect == rect && s.palette == palette && s.queue == [] && !s.valid
    ensures forall x: int, y: int | rect.min.x <= x < rect.max.x && rect.min.y <= y < rect.max.y ::
      IndexAt(s.image, Point(x, y)) == 0
  {
    var img := NewPaletted(rect, palette);
    assert forall x: int, y: int | rect.min.x <= x < rect.max.x && rect.min.y <= y < rect.max.y ::
      IndexAt(img, Point(x, y)) == 0 by {
      forall x: int, y: int | rect.min.x <= x < rect.max.x && rect.min.y <= y < rect.max.y {
        OffsetInBuffer(img, Point(x, y));
      }
    }
    ChunkState(rect, palette, img, [], false)
  }

  /** getPixel (Modules/chunk.go:39-48). An index outside a non-empty palette makes At panic. */
  function PixelAt(s: ChunkState, pos: Point): (c: Result<Option<Color>>)
    requires s.Inv()
    ensures !pos.In(s.rect) <==> c == Err(OutOfBounds)
    ensures c == Ok(None) <==> pos.In(s.rect) && s.palette == []
    ensures c.Ok? && c.value.Some? ==>
      (IndexAt(s.image, pos) as int) < |s.palette| && c.value.value == s.palette[IndexAt(s.image, pos)]
    ensures c == Err(Fault) <==> pos.In(s.rect) && s.palette != [] && (IndexAt(s.image, pos) as int) >= |s.palette|
  {
    if !pos.In(s.rect) then Err(OutOfBounds)
    else if s.palette == [] then Ok(None)
    else if IndexAt(s.image, pos) as int < |s.palette| then Ok(Some(s.palette[IndexAt(s.image, pos)]))
    else Err(Fault)
  }

  /** getPixelIndex (Modules/chunk.go:50-59). */
  function PixelIndexAt(s: ChunkState, pos: Point): (r: Result<Byte>)
    requires s.Inv()
    ensures r.Err? <==> !pos.In(s.rect)
    ensures r.Err? ==> r.error == OutOfBounds
    ensures r.Ok? ==> (PixelAt(s, pos) ==
      if s.palette == [] then Ok(None) else if r.value < |s.palette| then Ok(Some(s.palette[r.value])) else Err(Fault))
  {
    if !pos.In(s.rect) then Err(OutOfBounds) else Ok(IndexAt(s.image, pos))
  }

  /** setPixelIndex (Modules/chunk.go:65-87): no check of the index; a valid chunk writes its image,
      an invalid one queues the write. */
  function SetPixelIndexStep(s: ChunkState, pos: Point, index: Byte): Result<ChunkState>
    requires s.Inv()
  {
    if !pos.In(s.rect) then Err(OutOfBounds)
    else if s.valid then Ok(s.(image := SetIndex(s.image, pos, index)))
    else Ok(s.(queue := s.queue + [QueueElement(pos, index)]))
  }

  /** setPixel (Modules/chunk.go:61-63): the nearest palette index, cut to a byte as uint8 does. */
  function SetPixelStep(s: ChunkState, pos: Point, col: Color): Result<ChunkState>
    requires s.Inv()
  {
    SetPixelIndexStep(s, pos, NearestIndex(s.palette, col) % 256)
  }

  /** The image after the queued indices are stored in arrival order (SetColorIndex ignores a
      position outside the rectangle). */
  function ReplayIndices(img: Image, q: seq<QueueElement>): (r: Image)
    requires img.Paletted? && img.WellFormed()
    ensures r.Paletted? && r.WellFormed() && r.rect == img.rect && r.stride == img.stride
    ensures r.palette == img.palette && |r.pix| == |img.pix|
  {
    if q == [] then img
    else
      var last := q[|q| - 1];
      SetIndex(ReplayIndices(img, q[..|q| - 1]), last.pos, last.index)
  }

  /** The index most recently queued for p, if any. */
  function LastIndex(q: seq<QueueElement>, p: Point): Option<Byte> {
    if q == [] then None
    else if q[|q| - 1].pos == p then Some(q[|q| - 1].index)
    else LastIndex(q[..|q| - 1], p)
  }

  /** Every index a paletted image stores selects an entry of its palette; with no palette, there is
      no index at all. The chunk's buffer covers its rectangle exactly, so this is what it takes for
      every pixel of the chunk to read back as a colour. */
  predicate IndicesInPalette(img: Image) {
    img.Paletted? && forall k | 0 <= k < |img.pix| :: (img.pix[k] as int) < |img.palette|
  }

  /** setImage (Modules/chunk.go:95-111): the chunk rectangle must lie in the source. The Over draw
      reads both the source and the chunk's own image at every pixel of the rectangle, so a source
      pixel without colour, or a stored index outside the chunk's palette, makes it panic (Fault). */
  function SetImageStep(s: ChunkState, src: Image): Result<ChunkState>
    requires s.rect.IsCanon() && src.WellFormed()
  {
    if !s.rect.In(src.Bounds()) then Err(NotCovered)
    else if !DefinedOn(src, s.rect) || !IndicesInPalette(s.image) then Err(Fault)
    else Ok(s.(image := ReplayIndices(DrawPaletted(s.rect, s.palette, src), s.queue), queue := [], valid := true))
  }

  /** invalidateImage (Modules/chunk.go:134-142). */
  function InvalidateStep(s: ChunkState): ChunkState {
    s.(queue := [], valid := false)
  }

  // ---------------------------------------------------------------------------------------------
  // Properties of the steps

  /** Every step keeps the invariant. */
  lemma StepsKeepInv(s: ChunkState, pos: Point, index: Byte, col: Color)
    requires s.Inv()
    ensures SetPixelIndexStep(s, pos, index).Ok? ==> SetPixelIndexStep(s, pos, index).value.Inv()
    ensures SetPixelStep(s, pos, col).Ok? ==> SetPixelStep(s, pos, col).value.Inv()
    ensures InvalidateStep(s).Inv()
  { }

  /** setImage keeps the invariant, the rectangle and the palette. */
  lemma SetImageKeepsInv(s: ChunkState, src: Image)
    requires s.Inv() && src.WellFormed()
    ensures SetImageStep(s, src).Ok? ==>
      SetImageStep(s, src).value.Inv() && SetImageStep(s, src).value.rect == s.rect &&
      SetImageStep(s, src).value.palette == s.palette
  {
    assert DrawPaletted(s.rect, s.palette, src).stride == s.rect.Dx();
    assert |DrawPaletted(s.rect, s.palette, src).pix| == s.rect.Dx() * s.rect.Dy();
  }

  /** setPixelIndex fails exactly outside the rectangle. A valid chunk stores the index, which reads
      back, leaving the queue and every other pixel alone; an invalid chunk only queues the write. */
  lemma {:induction false} SetPixelIndexEffect(s: ChunkState, pos: Point, index: Byte, q: Point)
    requires s.Inv() && q.In(s.rect)
    ensures SetPixelIndexStep(s, pos, index).Err? <==> !pos.In(s.rect)
    ensures SetPixelIndexStep(s, pos, index).Err? ==> SetPixelIndexStep(s, pos, index).error == OutOfBounds
    ensures var t := SetPixelIndexStep(s, pos, index);
      t.Ok? && s.valid ==>
        t.value.queue == s.queue && t.value.valid &&
        IndexAt(t.value.image, q) == (if q == pos then index else IndexAt(s.image, q))
    ensures var t := SetPixelIndexStep(s, pos, index);
      t.Ok? && !s.valid ==>
        t.value.image == s.image && !t.value.valid && t.value.queue == s.queue + [QueueElement(pos, index)]
  {
    if pos.In(s.rect) {
      SetIndexThenIndexAt(s.image, pos, q, index);
    }
  }

  /** Replaying leaves each pixel of the rectangle with the index last queued for it, or untouched. */
  lemma {:induction false} ReplayIndicesAt(img: Image, q: seq<QueueElement>, p: Point)
    requires img.Paletted? && img.WellFormed() && p.In(img.rect)
    ensures IndexAt(ReplayIndices(img, q), p) == match LastIndex(q, p) case Some(i) => i case None => IndexAt(img, p)
  {
    if q != [] {
      var front, last := q[..|q| - 1], q[|q| - 1];
      var mid := ReplayIndices(img, front);
      ReplayIndicesAt(img, front, p);
      if last.pos.In(img.rect) {
        SetIndexThenIndexAt(mid, last.pos, p, last.index);
      } else {
        assert last.pos != p;
      }
    }
  }

  /** A successful setImage: each pixel of the chunk holds the index last queued for it, or else the
      palette index nearest to the source's colour; the queue is empty and the chunk valid. It fails
      exactly when the chunk is not inside the source, or the source lacks a colour on the chunk, or
      the chunk's image holds an index outside the palette, as at a pixel p whose stored index is. */
  lemma {:induction false} SetImageEffect(s: ChunkState, src: Image, p: Point)
    requires s.Inv() && src.WellFormed() && p.In(s.rect)
    ensures SetImageStep(s, src).Ok? <==> s.rect.In(src.Bounds()) && DefinedOn(src, s.rect) && IndicesInPalette(s.image)
    ensures !s.rect.In(src.Bounds()) ==> SetImageStep(s, src) == Err(NotCovered)
    ensures s.rect.In(src.Bounds()) && (IndexAt(s.image, p) as int) >= |s.palette| ==>
      SetImageStep(s, src) == Err(Fault)
    ensures var t := SetImageStep(s, src);
      t.Ok? ==>
        t.value.valid && t.value.queue == [] && t.value.rect == s.rect &&
        IndexAt(t.value.image, p) ==
          match LastIndex(s.queue, p) case Some(i) => i case None => NearestIndex(s.palette, ColorAt(src, p)) % 256
  {
    if (IndexAt(s.image, p) as int) >= |s.palette| {
      OffsetInBuffer(s.image, p);
      assert !IndicesInPalette(s.image) by {
        var k := s.image.PixOffset(p);
        assert (s.image.pix[k] as int) >= |s.image.palette|;
      }
    }
    ReplayIndicesAt(DrawPaletted(s.rect, s.palette, src), s.queue, p);
    DrawPalettedAt(s.rect, s.palette, src, p);
  }

  /** invalidateImage discards the queue: a later setImage replays none of the writes queued before it. */
  lemma {:induction false} InvalidateDiscards(s: ChunkState, src: Image, p: Point)
    requires s.Inv() && src.WellFormed() && p.In(s.rect) && SetImageStep(InvalidateStep(s), src).Ok?
    ensures IndexAt(SetImageStep(InvalidateStep(s), src).value.image, p) == NearestIndex(s.palette, ColorAt(src, p)) % 256
  {
    SetImageEffect(InvalidateStep(s), src, p);
  }

  // ---------------------------------------------------------------------------------------------
  // The chunk object

  /** An *image.Paletted as handed out: its pixel buffer is an array, which can be shared. */
  datatype PalettedRef = PalettedRef(rect: Rect, stride: int, pix: array<Byte>, palette: seq<Color>)

  class Chunk {
    var rect: Rect
    var palette: seq<Color>
    var pix: array<Byte>
    var queue: seq<QueueElement>
    var valid: bool

    /** The paletted image the chunk holds: the chunk's rectangle and palette, stride Dx. */
    function Image(): Image
      reads this, pix
    {
      Paletted(rect, rect.Dx(), pix[..], palette)
    }

    function State(): ChunkState
      reads this, pix
    {
      ChunkState(rect, palette, Image(), queue, valid)
    }

    predicate Valid()
      reads this
    {
      rect.IsCanon() && pix.Length == rect.Dx() * rect.Dy()
    }

    lemma StateInv()
      requires Valid()
      ensures State().Inv()
    {
      if rect.Dy() > 0 {
        Arith.MulSucc(rect.Dy() - 1, rect.Dx());
      }
    }

    /** newChunk. */
    constructor (r: Rect, p: seq<Color>)
      requires r.IsCanon()
      ensures Valid() && fresh(pix) && State() == NewChunkState(r, p)
    {
      Arith.MulNonneg(r.Dx(), r.Dy());
      var buf := new Byte[r.Dx() * r.Dy()](_ => 0);
      assert buf[..] == NewPaletted(r, p).pix;
      rect, palette, pix := r, p, buf;
      queue, valid := [], false;
    }

    method SetPixelIndex(pos: Point, index: Byte) returns (err: Option<Error>)
      requires Valid()
      modifies this, pix
      ensures Valid() && pix == old(pix)
      ensures var t := SetPixelIndexStep(old(State()), pos, index);
        if t.Ok? then err == None && State() == t.value else err == Some(t.error) && State() == old(State())
    {
      StateInv();
      if !pos.In(rect) {
        return Some(OutOfBounds);
      }
      if valid {
        var off := Image().PixOffset(pos);
        OffsetInBuffer(Image(), pos);
        pix[off] := index;
        return None;
      }
      queue := queue + [QueueElement(pos, index)];
      return None;
    }

    method SetPixel(pos: Point, col: Color) returns (err: Option<Error>)
      requires Valid()
      modifies this, pix
      ensures Valid() && pix == old(pix)
      ensures var t := SetPixelStep(old(State()), pos, col);
        if t.Ok? then err == None && State() == t.value else err == Some(t.error) && State() == old(State())
    {
      StateInv();
      err := SetPixelIndex(pos, NearestIndex(palette, col) % 256);
    }

    /** The state change of setImage: the pixels are overwritten in place from the source, then the
        queued indices are stored in order. */
    method Redraw(src: Image) returns (err: Option<Error>)
      requires Valid() && src.WellFormed()
      modifies this, pix
      ensures Valid() && pix == old(pix)
      ensures var t := SetImageStep(old(State()), src);
        if t.Ok? then err == None && State() == t.value else err == Some(t.error) && State() == old(State())
    {
      StateInv();
      if !rect.In(src.Bounds()) {
        return Some(NotCovered);
      }
      if !DefinedOn(src, rect) || !IndicesInPalette(Image()) {
        return Some(Fault);
      }
      var d := DrawPaletted(rect, palette, src);
      DrawInto(pix, rect, palette, src);
      assert Image() == d;
      ReplayInto(pix, d, queue);
      queue, valid := [], true;
      return None;
    }

    /** An image handed out that shows the chunk's current image. */
    predicate Shows(c: PalettedRef)
      reads this, pix, c.pix
    {
      c.rect == rect && c.stride == rect.Dx() && c.palette == palette && c.pix[..] == pix[..]
    }

    /** setImage with the copy it documents: the new pixels in a fresh buffer. */
    method SetImage(src: Image) returns (r: Result<PalettedRef>)
      requires Valid() && src.WellFormed()
      modifies this, pix
      ensures Valid() && pix == old(pix)
      ensures var t := SetImageStep(old(State()), src);
        if t.Ok? then r.Ok? && State() == t.value && fresh(r.value.pix) && Shows(r.value)
        else r == Err(t.error) && State() == old(State())
    {
      var err := Redraw(src);
      if err != None {
        return Err(err.value);
      }
      var copy := GetImageCopy();
      return Ok(copy);
    }

    /** setImage as written (Modules/chunk.go:113-117): dereferencing the pointer copies the image
        header only, and each copy call copies a slice onto itself, so the returned image shares the
        chunk's buffer. */
    method SetImageAsWritten(src: Image) returns (r: Result<PalettedRef>)
      requires Valid() && src.WellFormed()
      modifies this, pix
      ensures Valid() && pix == old(pix)
      ensures var t := SetImageStep(old(State()), src);
        if t.Ok? then r.Ok? && State() == t.value && r.value.pix == pix && Shows(r.value)
        else r == Err(t.error) && State() == old(State())
    {
      var err := Redraw(src);
      if err != None {
        return Err(err.value);
      }
      var copy := GetImageCopyAsWritten();
      return Ok(copy);
    }

    /** getImageCopy as its name promises: the pixels in a fresh buffer. */
    method GetImageCopy() returns (c: PalettedRef)
      requires Valid()
      ensures fresh(c.pix) && Shows(c)
    {
      var px := pix;
      var buf := new Byte[px.Length](i requires 0 <= i < px.Length reads px => px[i]);
      assert buf[..] == px[..];
      c := PalettedRef(rect, rect.Dx(), buf, palette);
    }

    /** getImageCopy as written (Modules/chunk.go:120-129): the returned image shares the buffer. */
    method GetImageCopyAsWritten() returns (c: PalettedRef)
      requires Valid()
      ensures c.pix == pix && Shows(c)
    {
      c := PalettedRef(rect, rect.Dx(), pix, palette);
    }

    method InvalidateImage()
      requires Valid()
      modifies this
      ensures Valid() && State() == InvalidateStep(old(State()))
    {
      queue, valid := [], false;
    }
  }

  /** draw.Draw onto a chunk's buffer, pixel by pixel in row-major order. */
  method DrawInto(a: array<Byte>, r: Rect, palette: seq<Color>, src: Image)
    requires r.IsCanon() && src.WellFormed() && a.Length == r.Dx() * r.Dy()
    modifies a
    ensures a[..] == DrawPaletted(r, palette, src).pix
  {
    var k, n := 0, a.Length;
    while k < n
      invariant 0 <= k <= n && a[..k] == IndexBytes(r, palette, src, k)
    {
      a[k] := IndexByteOf(r, palette, src, k);
      assert a[..k + 1] == a[..k] + [a[k]];
      k := k + 1;
    }
    assert a[..] == a[..n];
  }

  /** The replay loop of setImage: the queued indices stored into the buffer of d, in order. */
  method ReplayInto(a: array<Byte>, d: Image, q: seq<QueueElement>)
    requires d.Paletted? && d.WellFormed() && d.pix == a[..]
    modifies a
    ensures Paletted(d.rect, d.stride, a[..], d.palette) == ReplayIndices(d, q)
  {
    var i := 0;
    while i < |q|
      invariant 0 <= i <= |q| && Paletted(d.rect, d.stride, a[..], d.palette) == ReplayIndices(d, q[..i])
    {
      assert q[..i + 1][..i] == q[..i];
      var e := q[i];
      ghost var img := Paletted(d.rect, d.stride, a[..], d.palette);
      if e.pos.In(d.rect) {
        var off := d.PixOffset(e.pos);
        OffsetInBuffer(d, e.pos);
        assert img.PixOffset(e.pos) == off;
        a[off] := e.index;
      }
      i := i + 1;
    }
    assert q[..|q|] == q;
  }

  /** The shared buffer: a write to a valid chunk after getImageCopy changes the image the caller was
      handed. */
  method SharedCopyChanges(chunk: Chunk, pos: Point, index: Byte) returns (c: PalettedRef)
    requires chunk.Valid() && chunk.valid && pos.In(chunk.rect)
    requires IndexAt(chunk.Image(), pos) != index
    modifies chunk, chunk.pix
    ensures c.pix[..] != old(chunk.pix[..])
    ensures c.pix[..] == chunk.pix[..]
  {
    c := chunk.GetImageCopyAsWritten();
    ghost var before := chunk.State();
    chunk.StateInv();
    var _ := chunk.SetPixelIndex(pos, index);
    SetIndexThenIndexAt(before.image, pos, pos, index);
    assert IndexAt(chunk.Image(), pos) != IndexAt(before.image, pos);
  }

  /** With a fresh buffer, the handed-out image keeps the pixels it was copied with. */
  method FreshCopyKeeps(chunk: Chunk, pos: Point, index: Byte) returns (c: PalettedRef)
    requires chunk.Valid() && chunk.valid && pos.In(chunk.rect)
    modifies chunk, chunk.pix
    ensures c.pix[..] == old(chunk.pix[..])
  {
    c := chunk.GetImageCopy();
    var _ := chunk.SetPixelIndex(pos, index);
  }
}
