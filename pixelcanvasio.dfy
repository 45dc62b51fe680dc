/** pixelcanvas.io.go: the game's constants, the 0xC1 pixel-change packet of its websocket, the
    rounding of a chunk request to the bigchunk that holds it, and the unpacking of a bigchunk's
    4-bit pixels into a paletted image. The network, the goroutines and the download limiter are
    not part of this module. */
module PixelcanvasIO {
  import opened Bytes
  import opened Geometry
  import opened Colors
  import opened Results
  import opened Utility
  import Coordinates
  import Images
  import Canvases
  import Chunks
  import Arith

  /** The chunk size of the game. */
  const ChunkSize := Point(64, 64)

  /** A bigchunk is 15 × 15 chunks around a centre chunk, 7 on each side. */
  const CollectionRadius := 7
  const CollectionSize := Point(2 * CollectionRadius + 1, 2 * CollectionRadius + 1)

  /** The 16 colours of the game, as opaque 8-bit RGBA. */
  const Palette: seq<Color> := [
    FromRGBA8(255, 255, 255, 255), FromRGBA8(228, 228, 228, 255), FromRGBA8(136, 136, 136, 255),
    FromRGBA8(34, 34, 34, 255), FromRGBA8(255, 167, 209, 255), FromRGBA8(229, 0, 0, 255),
    FromRGBA8(229, 149, 0, 255), FromRGBA8(160, 106, 66, 255), FromRGBA8(229, 217, 0, 255),
    FromRGBA8(148, 224, 68, 255), FromRGBA8(2, 190, 1, 255), FromRGBA8(0, 211, 221, 255),
    FromRGBA8(0, 131, 199, 255), FromRGBA8(0, 0, 234, 255), FromRGBA8(207, 110, 228, 255),
    FromRGBA8(130, 0, 128, 255)]

  // ---------------------------------------------------------------------------------------
  // The 0xC1 packet (pixelcanvas.io.go:263-291)
  // ---------------------------------------------------------------------------------------

  const PixelChangeOpcode: Byte := 0xC1

  /** A pixel change: the chunk, the offset inside it, and the colour index. */
  datatype PixelChange = PixelChange(chunk: Point, offset: Point, colorIndex: Byte)

  /** The pixel the change is about. */
  function Position(p: PixelChange): Point {
    Point(p.chunk.x * ChunkSize.x + p.offset.x, p.chunk.y * ChunkSize.y + p.offset.y)
  }

  /** What a packet can carry: int16 chunk coordinates, 6-bit offsets and a 4-bit colour. */
  predicate Encodable(p: PixelChange) {
    FitsSigned(p.chunk.x, 2) && FitsSigned(p.chunk.y, 2) &&
    0 <= p.offset.x < 64 && 0 <= p.offset.y < 64 && p.colorIndex < 16
  }

  /**
   * The reaction to one websocket message: a 7-byte message with opcode 0xC1 is a pixel change
   * (int16 cx and cy and uint16 mixed, big-endian; colour in bits 0-3 of mixed, x offset in bits
   * 4-9, y offset in bits 10-15). Any other message is only logged, including an empty one.
   */
  function DecodeMessage(msg: seq<Byte>): (r: Option<PixelChange>)
    ensures r.Some? <==> |msg| == 7 && msg[0] == PixelChangeOpcode
    ensures r.Some? ==> Encodable(r.value)
  {
    if |msg| < 1 || msg[0] != PixelChangeOpcode || |msg| != 7 then None
    else
      var cx, cy, mixed := SignedBE(msg[1..3]), SignedBE(msg[3..5]), UnsignedBE(msg[5..7]);
      Some(PixelChange(Point(cx, cy), Point((mixed / 16) % 64, (mixed / 1024) % 64), mixed % 16))
  }

  /** The two bytes of a big-endian 16-bit field holding x modulo 2^16. */
  function Be16(x: int): (bs: seq<Byte>)
    ensures |bs| == 2
  {
    [(x / 256) % 256, x % 256]
  }

  lemma UnsignedBe16(x: int)
    ensures UnsignedBE(Be16(x)) == x % 0x1_0000
  {
    UnsignedBE2((x / 256) % 256, x % 256);
    Bytes.ModSplit(x, 256);
  }

  /** The mixed field of a change: colour in bits 0-3, x offset in bits 4-9, y offset in bits 10-15. */
  function Mixed(p: PixelChange): int {
    p.colorIndex + 16 * p.offset.x + 1024 * p.offset.y
  }

  /** The packet the server sends for a pixel change. */
  function EncodeMessage(p: PixelChange): (msg: seq<Byte>)
    ensures |msg| == 7 && msg[0] == PixelChangeOpcode
  {
    var x, y, m := Be16(p.chunk.x), Be16(p.chunk.y), Be16(Mixed(p));
    [PixelChangeOpcode, x[0], x[1], y[0], y[1], m[0], m[1]]
  }

  /** The three bit fields of the mixed word come back out of it. */
  lemma MixedFields(c: int, ox: int, oy: int)
    requires 0 <= c < 16 && 0 <= ox < 64 && 0 <= oy < 64
    ensures var m := c + 16 * ox + 1024 * oy;
      0 <= m < 0x1_0000 && m % 16 == c && (m / 16) % 64 == ox && (m / 1024) % 64 == oy
  {
    var m := c + 16 * ox + 1024 * oy;
    Arith.DivModUnique(m, 16, ox + 64 * oy, c);
    Arith.DivModUnique(ox + 64 * oy, 64, oy, ox);
    Arith.DivModUnique(m, 1024, oy, c + 16 * ox);
    Arith.DivModUnique(oy, 64, 0, oy);
  }

  /** A 16-bit word is the sum of its three bit fields. */
  lemma MixedSplit(m: int)
    requires 0 <= m < 0x1_0000
    ensures m == m % 16 + 16 * ((m / 16) % 64) + 1024 * ((m / 1024) % 64)
  {
    var q := m / 16;
    assert m == 16 * q + m % 16;
    Arith.DivModUnique(m, 1024, q / 64, 16 * (q % 64) + m % 16);
    Arith.DivModUnique(m / 1024, 64, 0, m / 1024);
  }

  /** Every change a packet can carry is decoded to itself. */
  lemma DecodeEncoded(p: PixelChange)
    requires Encodable(p)
    ensures DecodeMessage(EncodeMessage(p)) == Some(p)
  {
    var msg := EncodeMessage(p);
    var x, y, m := Be16(p.chunk.x), Be16(p.chunk.y), Be16(Mixed(p));
    assert msg[1..3] == x && msg[3..5] == y && msg[5..7] == m;
    SignedFromUnsigned(p.chunk.x);
    SignedFromUnsigned(p.chunk.y);
    MixedFields(p.colorIndex, p.offset.x, p.offset.y);
    UnsignedBe16(Mixed(p));
    Arith.DivModUnique(Mixed(p), 0x1_0000, 0, Mixed(p));
  }

  /** An int16 survives the big-endian field. */
  lemma SignedFromUnsigned(x: int)
    requires FitsSigned(x, 2)
    ensures SignedBE(Be16(x)) == x
  {
    UnsignedBe16(x);
    if x < 0 {
      Arith.DivModUnique(x, 0x1_0000, -1, x + 0x1_0000);
    } else {
      Arith.DivModUnique(x, 0x1_0000, 0, x);
    }
  }

  /** Every 7-byte 0xC1 packet is the encoding of what it decodes to: the format has no spare bits. */
  lemma EncodeDecoded(msg: seq<Byte>)
    requires |msg| == 7 && msg[0] == PixelChangeOpcode
    ensures EncodeMessage(DecodeMessage(msg).value) == msg
  {
    var p := DecodeMessage(msg).value;
    assert msg[1..3] == [msg[1], msg[2]] && msg[3..5] == [msg[3], msg[4]] && msg[5..7] == [msg[5], msg[6]];
    Be16OfRead(msg[1], msg[2]);
    Be16OfRead(msg[3], msg[4]);
    UnsignedBE2(msg[5], msg[6]);
    var hi: int, lo: int := msg[5], msg[6];
    var mixed := 256 * hi + lo;
    MixedSplit(mixed);
    assert Mixed(p) == mixed;
    Be16Bytes(msg[5], msg[6]);
  }

  /** The field for the value read from two bytes is those two bytes. */
  lemma Be16Bytes(hi: Byte, lo: Byte)
    ensures Be16(256 * hi + lo) == [hi, lo]
  {
    Arith.DivModUnique(256 * hi + lo, 256, hi, lo);
  }

  /** The field for the signed value read from two bytes is those two bytes. */
  lemma Be16OfRead(hi: Byte, lo: Byte)
    ensures Be16(SignedBE([hi, lo])) == [hi, lo]
  {
    UnsignedBE2(hi, lo);
    var u := 256 * hi + lo;
    Be16Bytes(hi, lo);
    if u >= 0x8000 {
      Arith.DivModUnique(u - 0x1_0000, 256, hi - 256, lo);
    }
  }

  /** The changed pixel lies in the chunk the packet names, and its colour is in the palette. */
  lemma ChangeInItsChunk(msg: seq<Byte>)
    requires DecodeMessage(msg).Some?
    ensures var p := DecodeMessage(msg).value;
      Coordinates.GetChunkCoord(ChunkSize, Position(p), Zero) == p.chunk && p.colorIndex < |Palette|
  {
    var p := DecodeMessage(msg).value;
    var c := Coordinates.GetChunkCoord(ChunkSize, Position(p), Zero);
    QuotientsUnique(Position(p).x, 64, c.x, p.chunk.x);
    QuotientsUnique(Position(p).y, 64, c.y, p.chunk.y);
  }

  /** The websocket loop's handling of one message: a pixel change is drawn with setPixelIndex, which
      sends its event and stores or queues the index in the pixel's chunk when the canvas has it. */
  method HandleMessage<L(==)>(can: Canvases.Canvas<L>, msg: seq<Byte>) returns (err: Option<Error>)
    requires can.Valid()
    modifies can
    ensures can.Valid() && can.chunkSize == old(can.chunkSize) && can.palette == old(can.palette)
    ensures can.listeners == old(can.listeners)
    ensures DecodeMessage(msg).None? ==> err == None && can.events == old(can.events) && can.chunks == old(can.chunks)
    ensures DecodeMessage(msg).Some? ==> var p := DecodeMessage(msg).value;
      can.events == old(can.events) + [Canvases.SetPixelEvent(Position(p), p.colorIndex)]
    ensures DecodeMessage(msg).Some? ==> var p := DecodeMessage(msg).value;
      var c := Coordinates.GetChunkCoord(can.chunkSize, Position(p), Zero);
      if c !in old(can.chunks) then err == Some(NotFound) && can.chunks == old(can.chunks)
      else var t := Chunks.SetPixelIndexStep(old(can.chunks)[c], Position(p), p.colorIndex);
        if t.Ok? then err == None && can.chunks == old(can.chunks)[c := t.value]
        else err == Some(t.error) && can.chunks == old(can.chunks)
  {
    var change := DecodeMessage(msg);
    if change.None? {
      return None;
    }
    err := can.SetPixelIndex(Position(change.value), change.value.colorIndex);
  }

  // ---------------------------------------------------------------------------------------
  // Rounding a chunk request to its bigchunk (pixelcanvas.io.go:119-127)
  // ---------------------------------------------------------------------------------------

  /**
   * The centre chunk of the bigchunk a chunk with minimum corner min is downloaded with: the
   * minimum shifted by 7 chunks, floored to a multiple of the bigchunk's pixel size, in chunks.
   */
  function BigchunkCenter(min: Point): (cc: Point)
  {
    var offset := ChunkSize.Mul(CollectionRadius);
    var k := Coordinates.GetChunkCoord(Coordinates.GetPixelSize(CollectionSize, ChunkSize), min.Add(offset), Zero);
    Point(k.x * CollectionSize.x, k.y * CollectionSize.y)
  }

  /** The pixel rectangle of the 15 × 15 chunks around cc. */
  function BigchunkRect(cc: Point): (r: Rect)
    ensures r == Rect(Point(64 * (cc.x - 7), 64 * (cc.y - 7)), Point(64 * (cc.x + 8), 64 * (cc.y + 8)))
  {
    Coordinates.GetPixelRectangle(Rect(cc.Add(Point(-CollectionRadius, -CollectionRadius)),
      cc.Add(Point(CollectionRadius + 1, CollectionRadius + 1))), ChunkSize, Zero)
  }

  /**
   * The centre is a multiple of 15 chunks on each axis, the chunk holding min is at most 7
   * chunks away from it, and so that chunk's rectangle lies in the bigchunk's rectangle.
   */
  lemma BigchunkHolds(min: Point)
    ensures var cc := BigchunkCenter(min); var c := Coordinates.GetChunkCoord(ChunkSize, min, Zero);
      cc.x % 15 == 0 && cc.y % 15 == 0 &&
      cc.x - 7 <= c.x <= cc.x + 7 && cc.y - 7 <= c.y <= cc.y + 7 &&
      var r := BigchunkRect(cc);
      r.min.x <= 64 * c.x && 64 * c.x + 64 <= r.max.x && r.min.y <= 64 * c.y && 64 * c.y + 64 <= r.max.y
  {
    var k := Coordinates.GetChunkCoord(Point(960, 960), min.Add(Point(448, 448)), Zero);
    assert BigchunkCenter(min) == Point(15 * k.x, 15 * k.y);
  }

  // ---------------------------------------------------------------------------------------
  // Unpacking a bigchunk (pixelcanvas.io.go:152-183)
  // ---------------------------------------------------------------------------------------

  /** 64 · 64 · 15 · 15 / 2: two pixels per byte. */
  const ExpectedLen := 460800

  /** The bigchunk image is 960 × 960 pixels, one byte each, row by row. */
  const Width := 960

  /**
   * Where byte k of the payload goes: the buffer offset of its even pixel. Bytes run over the
   * 15 × 15 chunks row by row, then over the 64 rows of a chunk, then over its 32 column pairs.
   */
  function PixOf(k: int): int {
    (k / 30720) * 61440 + ((k / 32) % 64) * 960 + ((k / 2048) % 15) * 64 + (k % 32) * 2
  }

  /** The payload byte a buffer offset gets its pixel from. */
  function ByteOf(q: int): int {
    var y, x := q / 960, q % 960;
    (y / 64) * 30720 + (x / 64) * 2048 + (y % 64) * 32 + (x % 64) / 2
  }

  /** The pixel pair of byte k is inside the buffer, starts at an even offset, and leads back to k. */
  lemma PixOfByte(k: int)
    requires 0 <= k < ExpectedLen
    ensures 0 <= PixOf(k) && PixOf(k) + 1 < Width * Width && PixOf(k) % 2 == 0
    ensures ByteOf(PixOf(k)) == k && ByteOf(PixOf(k) + 1) == k
  {
    var a, h := k / 32, k % 32;
    var b, jy := a / 64, a % 64;
    var iy, ix := b / 15, b % 15;
    assert k == iy * 30720 + ix * 2048 + jy * 32 + h;
    var q := (iy * 64 + jy) * 960 + ix * 64 + 2 * h;
    PixAt(k, iy, ix, jy, h);
    ByteOfAt(q, iy, ix, jy, h, 0);
    ByteOfAt(q + 1, iy, ix, jy, h, 1);
  }

  /** Every pixel of the buffer belongs to one payload byte: the even or the odd pixel of its pair. */
  lemma ByteOfPix(q: int)
    requires 0 <= q < Width * Width
    ensures 0 <= ByteOf(q) < ExpectedLen && PixOf(ByteOf(q)) + q % 2 == q
  {
    var y, x := q / 960, q % 960;
    var iy, jy := y / 64, y % 64;
    var ix, c := x / 64, x % 64;
    var h, odd := c / 2, c % 2;
    assert q == (iy * 64 + jy) * 960 + ix * 64 + 2 * h + odd;
    ByteOfAt(q, iy, ix, jy, h, odd);
    PixAt(ByteOf(q), iy, ix, jy, h);
    Arith.DivModUnique(q, 2, (iy * 64 + jy) * 480 + ix * 32 + h, odd);
  }

  /** The payload byte of the pixel the loops reach at chunk (ix, iy), row jy, column 2h + odd. */
  lemma ByteOfAt(q: int, iy: int, ix: int, jy: int, h: int, odd: int)
    requires 0 <= iy < 15 && 0 <= ix < 15 && 0 <= jy < 64 && 0 <= h < 32 && 0 <= odd < 2
    requires q == (iy * 64 + jy) * 960 + ix * 64 + 2 * h + odd
    ensures ByteOf(q) == iy * 30720 + ix * 2048 + jy * 32 + h
  {
    var y, x := iy * 64 + jy, ix * 64 + 2 * h + odd;
    Arith.DivModUnique(y * 960 + x, 960, y, x);
    Arith.DivModUnique(y, 64, iy, jy);
    Arith.DivModUnique(x, 64, ix, 2 * h + odd);
    Arith.DivModUnique(2 * h + odd, 2, h, odd);
  }

  /** The two 4-bit colour indices of payload byte k are in the buffer: the high nibble first. */
  predicate Placed(pix: seq<Byte>, raw: seq<Byte>, k: int)
    requires |pix| == Width * Width && 0 <= k < |raw| == ExpectedLen
  {
    PixOfByte(k);
    pix[PixOf(k)] == raw[k] / 16 && pix[PixOf(k) + 1] == raw[k] % 16
  }

  /** The colour index pixel q of the bigchunk gets from the payload. */
  function Nibble(raw: seq<Byte>, q: int): Byte
    requires |raw| == ExpectedLen && 0 <= q < Width * Width
  {
    ByteOfPix(q);
    if q % 2 == 0 then raw[ByteOf(q)] / 16 else raw[ByteOf(q)] % 16
  }

  /** Once every byte is placed, every pixel holds its nibble. */
  lemma AllPlaced(pix: seq<Byte>, raw: seq<Byte>)
    requires |pix| == Width * Width && |raw| == ExpectedLen
    requires forall k | 0 <= k < ExpectedLen :: Placed(pix, raw, k)
    ensures forall q | 0 <= q < Width * Width :: pix[q] == Nibble(raw, q)
  {
    forall q | 0 <= q < Width * Width
      ensures pix[q] == Nibble(raw, q)
    {
      ByteOfPix(q);
      assert Placed(pix, raw, ByteOf(q));
    }
  }

  /** The two SetColorIndex calls for payload byte i: pixel at and its right neighbour. */
  method PutPair(pix: array<Byte>, raw: seq<Byte>, i: int, at: int)
    requires pix.Length == Width * Width && |raw| == ExpectedLen && 0 <= i < ExpectedLen && at == PixOf(i)
    requires forall k | 0 <= k < i :: Placed(pix[..], raw, k)
    modifies pix
    ensures forall k | 0 <= k < i + 1 :: Placed(pix[..], raw, k)
  {
    PixOfByte(i);
    ghost var before := pix[..];
    pix[at] := raw[i] / 16;
    pix[at + 1] := raw[i] % 16;
    forall k | 0 <= k < i
      ensures Placed(pix[..], raw, k)
    {
      PixOfByte(k);
      assert Placed(before, raw, k);
      assert PixOf(k) != at && PixOf(k) + 1 != at + 1;
    }
  }

  /**
   * The download of a bigchunk around cc, from the received payload: a payload of the wrong
   * length is refused; otherwise a paletted image over the bigchunk's rectangle is filled two
   * pixels per byte, in the order of the four loops.
   */
  method UnpackBigchunk(cc: Point, raw: seq<Byte>) returns (r: Option<Images.Image>)
    ensures r.None? <==> |raw| != ExpectedLen
    ensures r.Some? ==> (r.value.Paletted? && r.value.rect == BigchunkRect(cc) && r.value.stride == Width &&
      r.value.palette == Palette && r.value.WellFormed() && |r.value.pix| == Width * Width)
    ensures r.Some? ==> forall q | 0 <= q < Width * Width :: r.value.pix[q] == Nibble(raw, q)
  {
    if |raw| != ExpectedLen {
      return None;
    }
    var ca := BigchunkRect(cc);
    var pix := new Byte[Width * Width];
    var i := 0;
    for iy := 0 to 15
      invariant i == iy * 30720
      invariant forall k | 0 <= k < i :: Placed(pix[..], raw, k)
    {
      for ix := 0 to 15
        invariant i == iy * 30720 + ix * 2048
        invariant forall k | 0 <= k < i :: Placed(pix[..], raw, k)
      {
        var c := Point(cc.x + ix - CollectionRadius, cc.y + iy - CollectionRadius);
        for jy := 0 to 64
          invariant i == iy * 30720 + ix * 2048 + jy * 32
          invariant forall k | 0 <= k < i :: Placed(pix[..], raw, k)
        {
          var jx := 0;
          while jx < 64
            invariant 0 <= jx <= 64 && jx % 2 == 0
            invariant i == iy * 30720 + ix * 2048 + jy * 32 + jx / 2
            invariant forall k | 0 <= k < i :: Placed(pix[..], raw, k)
          {
            var p := Point(c.x * 64 + jx, c.y * 64 + jy);
            PixAt(i, iy, ix, jy, jx / 2);
            PutPair(pix, raw, i, (p.y - ca.min.y) * Width + (p.x - ca.min.x));
            i := i + 1;
            jx := jx + 2;
          }
        }
      }
    }
    AllPlaced(pix[..], raw);
    var img := Images.Paletted(ca, Width, pix[..], Palette);
    assert img.WellFormed();
    return Some(img);
  }

  /** The offset the loops compute for byte i is PixOf(i). */
  lemma PixAt(k: int, iy: int, ix: int, jy: int, h: int)
    requires 0 <= iy < 15 && 0 <= ix < 15 && 0 <= jy < 64 && 0 <= h < 32
    requires k == iy * 30720 + ix * 2048 + jy * 32 + h
    ensures PixOf(k) == (iy * 64 + jy) * 960 + ix * 64 + 2 * h
    ensures PixOf(k) % 2 == 0
  {
    Arith.DivModUnique((iy * 64 + jy) * 960 + ix * 64 + 2 * h, 2, (iy * 64 + jy) * 480 + ix * 32 + h, 0);
    Arith.DivModUnique(k, 32, iy * 960 + ix * 64 + jy, h);
    Arith.DivModUnique(k, 2048, iy * 15 + ix, jy * 32 + h);
    Arith.DivModUnique(k, 30720, iy, ix * 2048 + jy * 32 + h);
    Arith.DivModUnique(iy * 960 + ix * 64 + jy, 64, iy * 15 + ix, jy);
    Arith.DivModUnique(iy * 15 + ix, 15, iy, ix);
  }

  /** Through Images.IndexAt: the pixel p of the bigchunk has the colour index its payload byte holds for it. */
  lemma BigchunkIndexAt(cc: Point, raw: seq<Byte>, img: Images.Image, p: Point)
    requires |raw| == ExpectedLen
    requires img.Paletted? && img.rect == BigchunkRect(cc) && img.stride == Width && img.WellFormed()
    requires |img.pix| == Width * Width && forall q | 0 <= q < Width * Width :: img.pix[q] == Nibble(raw, q)
    requires p.In(img.rect)
    ensures Images.IndexAt(img, p) == Nibble(raw, (p.y - img.rect.min.y) * Width + (p.x - img.rect.min.x))
  {
    Images.OffsetInBuffer(img, p);
  }
}
