/** The three kinds of image the core stores: a bare rectangle, a paletted image and an RGBA image,
    laid out as Go's image package lays them out (rectangle, stride, pixel bytes). */
module Images {
  import opened Geometry
  import opened Colors
  import opened Bytes
  import opened Results
  import Arith

  datatype Image =
    | RectImage(r: Rect)                                                  // an *image.Rectangle used as an image
    | Paletted(rect: Rect, stride: int, pix: seq<Byte>, palette: seq<Color>)  // *image.Paletted
    | RGBA(rect: Rect, stride: int, pix: seq<Byte>)                        // *image.RGBA
  {
    function Bounds(): Rect { if RectImage? then r else rect }

    /** Bytes per pixel of the buffer. */
    function Bpp(): nat { if RGBA? then 4 else 1 }

    /** The bytes n pixels take in the buffer: n * Bpp(). */
    function Span(n: int): (b: int)
      ensures b == n * Bpp()
    {
      if RGBA? then 4 * n else n
    }

    /** PixOffset: index of the first byte of pixel p. */
    function PixOffset(p: Point): int
      requires !RectImage?
    {
      (p.y - rect.min.y) * stride + Span(p.x - rect.min.x)
    }

    /** Every pixel of the rectangle has its bytes inside the buffer. */
    predicate WellFormed() {
      RectImage? ||
      (rect.IsCanon() && stride >= Span(rect.Dx()) &&
       (rect.Dy() == 0 || |pix| >= (rect.Dy() - 1) * stride + Span(rect.Dx())))
    }
  }

  lemma OffsetInBuffer(img: Image, p: Point)
    requires img.WellFormed() && !img.RectImage? && p.In(img.rect)
    ensures 0 <= img.PixOffset(p) && img.PixOffset(p) + img.Bpp() <= |img.pix|
  {
    var dy, dx := p.y - img.rect.min.y, p.x - img.rect.min.x;
    Arith.MulLeRight(dy, img.rect.Dy() - 1, img.stride);
    Arith.MulNonneg(dy, img.stride);
  }

  /** A zeroed buffer of n bytes, as make([]uint8, n) gives. */
  function Zeros(n: nat): (z: seq<Byte>)
    ensures |z| == n && forall i | 0 <= i < n :: z[i] == 0
  {
    if n == 0 then [] else Zeros(n - 1) + [0]
  }

  /** image.NewRGBA: a zeroed buffer of Dx*Dy pixels and stride 4*Dx. */
  function NewRGBA(r: Rect): (img: Image)
    requires r.IsCanon()
    ensures img.RGBA? && img.WellFormed() && img.rect == r && img.stride == 4 * r.Dx()
    ensures |img.pix| == 4 * r.Dx() * r.Dy()
  {
    Arith.MulNonneg(4 * r.Dx(), r.Dy());
    var img := RGBA(r, 4 * r.Dx(), Zeros(4 * r.Dx() * r.Dy()));
    assert r.Dy() == 0 || |img.pix| >= (r.Dy() - 1) * img.stride + 4 * r.Dx();
    img
  }

  /** image.NewPaletted: a zeroed buffer of Dx*Dy indices and stride Dx. */
  function NewPaletted(r: Rect, palette: seq<Color>): (img: Image)
    requires r.IsCanon()
    ensures img.Paletted? && img.WellFormed() && img.rect == r && img.stride == r.Dx()
    ensures img.palette == palette && |img.pix| == r.Dx() * r.Dy()
  {
    Arith.MulNonneg(r.Dx(), r.Dy());
    var img := Paletted(r, r.Dx(), Zeros(r.Dx() * r.Dy()), palette);
    assert r.Dy() == 0 || |img.pix| >= (r.Dy() - 1) * img.stride + r.Dx();
    img
  }

  /** Image.At. None stands for the nil colour of a paletted image without palette, and for the
      panic of indexing the palette with a stored index outside it. */
  function At(img: Image, p: Point): Option<Color>
    requires img.WellFormed()
  {
    match img
    case RectImage(r) => Some(if p.In(r) then Opaque else Transparent)
    case RGBA(rect, _, pix) =>
      if !p.In(rect) then Some(Transparent)
      else
        OffsetInBuffer(img, p);
        var i := img.PixOffset(p);
        Some(FromRGBA8(pix[i], pix[i + 1], pix[i + 2], pix[i + 3]))
    case Paletted(rect, _, pix, palette) =>
      if |palette| == 0 then None
      else if !p.In(rect) then Some(palette[0])
      else
        OffsetInBuffer(img, p);
        PaletteEntry(palette, pix[img.PixOffset(p)])
  }

  /** Palette[index], None (a panic) when the index is outside the palette. */
  function PaletteEntry(palette: seq<Color>, index: Byte): Option<Color> {
    if index < |palette| then Some(palette[index]) else None
  }

  /** Paletted.ColorIndexAt: the stored index, 0 outside the rectangle. */
  function IndexAt(img: Image, p: Point): Byte
    requires img.Paletted? && img.WellFormed()
  {
    if !p.In(img.rect) then 0
    else
      OffsetInBuffer(img, p);
      img.pix[img.PixOffset(p)]
  }

  /** Paletted.SetColorIndex: stores the index of a pixel inside the rectangle; outside, nothing. */
  function SetIndex(img: Image, p: Point, index: Byte): (img': Image)
    requires img.Paletted? && img.WellFormed()
    ensures img'.Paletted? && img'.WellFormed()
    ensures img'.rect == img.rect && img'.stride == img.stride && img'.palette == img.palette
    ensures |img'.pix| == |img.pix|
  {
    if !p.In(img.rect) then img
    else
      OffsetInBuffer(img, p);
      Paletted(img.rect, img.stride, img.pix[img.PixOffset(p) := index], img.palette)
  }

  /** Image.Set for the two settable kinds: RGBA stores the high bytes of the channels, Paletted the
      nearest palette index (truncated to a byte as uint8 does). */
  function SetColor(img: Image, p: Point, c: Color): (img': Image)
    requires !img.RectImage? && img.WellFormed()
    ensures img'.WellFormed() && img'.Bounds() == img.Bounds()
    ensures img'.RGBA? == img.RGBA? && img'.Paletted? == img.Paletted?
    ensures img'.stride == img.stride && |img'.pix| == |img.pix|
    ensures img.Paletted? ==> img'.palette == img.palette
  {
    if !p.In(img.rect) then img
    else
      OffsetInBuffer(img, p);
      var i := img.PixOffset(p);
      match img
      case RGBA(rect, stride, pix) =>
        RGBA(rect, stride, pix[i := High(c.r)][i + 1 := High(c.g)][i + 2 := High(c.b)][i + 3 := High(c.a)])
      case Paletted(rect, stride, pix, palette) =>
        Paletted(rect, stride, pix[i := (NearestIndex(palette, c) % 256)], palette)
  }

  /** A colour index written into a paletted image reads back. */
  lemma {:induction false} SetIndexThenIndexAt(img: Image, p: Point, q: Point, index: Byte)
    requires img.Paletted? && img.WellFormed() && p.In(img.rect) && q.In(img.rect)
    ensures IndexAt(SetIndex(img, p, index), q) == if q == p then index else IndexAt(img, q)
  {
    OffsetInBuffer(img, p);
    OffsetInBuffer(img, q);
    if q != p {
      OffsetDistinct(img, p, q);
    }
  }

  /** Distinct pixels of a well-formed image have disjoint byte ranges. */
  lemma OffsetDistinct(img: Image, p: Point, q: Point)
    requires img.WellFormed() && !img.RectImage? && p.In(img.rect) && q.In(img.rect) && p != q
    ensures img.PixOffset(p) + img.Bpp() <= img.PixOffset(q) || img.PixOffset(q) + img.Bpp() <= img.PixOffset(p)
  {
    var b, s, w := img.Bpp(), img.stride, img.rect.Dx();
    var px, py := p.x - img.rect.min.x, p.y - img.rect.min.y;
    var qx, qy := q.x - img.rect.min.x, q.y - img.rect.min.y;
    if py == qy {
      if px < qx { Arith.MulLeRight(px + 1, qx, b); } else { Arith.MulLeRight(qx + 1, px, b); }
    } else if py < qy {
      RowsDisjoint(py, qy, px, qx, s, b, w);
    } else {
      RowsDisjoint(qy, py, qx, px, s, b, w);
    }
  }

  lemma RowsDisjoint(py: int, qy: int, px: int, qx: int, s: int, b: int, w: int)
    requires 0 <= py < qy && 0 <= px < w && 0 <= qx && 0 <= b && b * w <= s
    ensures py * s + px * b + b <= qy * s + qx * b
  {
    Arith.MulLeRight(px + 1, w, b);
    assert (px + 1) * b == px * b + b;
    Arith.MulLeRight(py + 1, qy, s);
    assert (py + 1) * s == py * s + s;
    Arith.MulNonneg(qx, b);
  }

  /** What At reports after Set stores c in a pixel of img: the quantised colour for RGBA, the nearest
      palette entry (index truncated to a byte) for Paletted, None when that index is not in the palette. */
  function Stored(img: Image, c: Color): Option<Color>
    requires !img.RectImage?
  {
    if img.RGBA? then Some(Quantize(c))
    else PaletteEntry(img.palette, (NearestIndex(img.palette, c) % 256))
  }

  /** Set changes the colour of the one pixel it writes and of no other. */
  lemma SetColorAt(img: Image, p: Point, c: Color, q: Point)
    requires !img.RectImage? && img.WellFormed() && p.In(img.rect)
    ensures At(SetColor(img, p, c), q) == if q == p then Stored(img, c) else At(img, q)
  {
    if q == p { SetColorSame(img, p, c); } else { SetColorOther(img, p, c, q); }
  }



  lemma SetColorSame(img: Image, p: Point, c: Color)
    requires !img.RectImage? && img.WellFormed() && p.In(img.rect)
    ensures At(SetColor(img, p, c), p) == Stored(img, c)
  {
    if img.RGBA? { SetColorSameRGBA(img, p, c); } else { SetColorSamePaletted(img, p, c); }
  }

  lemma SetColorSameRGBA(img: Image, p: Point, c: Color)
    requires img.RGBA? && img.WellFormed() && p.In(img.rect)
    ensures At(SetColor(img, p, c), p) == Some(Quantize(c))
  {
    OffsetInBuffer(img, p);
    var i := img.PixOffset(p);
    var pix' := img.pix[i := High(c.r)][i + 1 := High(c.g)][i + 2 := High(c.b)][i + 3 := High(c.a)];
    assert SetColor(img, p, c) == RGBA(img.rect, img.stride, pix');
  }

  lemma SetColorSamePaletted(img: Image, p: Point, c: Color)
    requires img.Paletted? && img.WellFormed() && p.In(img.rect)
    ensures At(SetColor(img, p, c), p) == Stored(img, c)
  {
    OffsetInBuffer(img, p);
    var i := img.PixOffset(p);
    var k := (NearestIndex(img.palette, c) % 256);
    assert SetColor(img, p, c) == Paletted(img.rect, img.stride, img.pix[i := k], img.palette);
    if img.palette == [] { assert PaletteEntry(img.palette, k) == None; }
  }

  lemma SetColorOther(img: Image, p: Point, c: Color, q: Point)
    requires !img.RectImage? && img.WellFormed() && p.In(img.rect) && q != p
    ensures At(SetColor(img, p, c), q) == At(img, q)
  {
    if q.In(img.rect) {
      OffsetInBuffer(img, p);
      OffsetInBuffer(img, q);
      OffsetDistinct(img, p, q);
      if img.RGBA? { SetColorOtherRGBA(img, p, c, q); } else { SetColorOtherPaletted(img, p, c, q); }
    }
  }

  lemma SetColorOtherRGBA(img: Image, p: Point, c: Color, q: Point)
    requires img.RGBA? && img.WellFormed() && p.In(img.rect) && q.In(img.rect)
    requires 0 <= img.PixOffset(p) && img.PixOffset(p) + 4 <= |img.pix|
    requires 0 <= img.PixOffset(q) && img.PixOffset(q) + 4 <= |img.pix|
    requires img.PixOffset(p) + 4 <= img.PixOffset(q) || img.PixOffset(q) + 4 <= img.PixOffset(p)
    ensures At(SetColor(img, p, c), q) == At(img, q)
  {
    var i, o := img.PixOffset(p), img.PixOffset(q);
    var s := img.pix;
    SetColorRGBAIs(img, p, c);
    Update4Elsewhere(s, i, High(c.r), High(c.g), High(c.b), High(c.a), o);
    Update4Elsewhere(s, i, High(c.r), High(c.g), High(c.b), High(c.a), o + 1);
    Update4Elsewhere(s, i, High(c.r), High(c.g), High(c.b), High(c.a), o + 2);
    Update4Elsewhere(s, i, High(c.r), High(c.g), High(c.b), High(c.a), o + 3);
    SameBytesSameColor(img, q, s[i := High(c.r)][i + 1 := High(c.g)][i + 2 := High(c.b)][i + 3 := High(c.a)]);
  }

  /** An RGBA buffer that agrees on the four bytes of q shows the same colour at q. */
  lemma SameBytesSameColor(img: Image, q: Point, pix': seq<Byte>)
    requires img.RGBA? && img.WellFormed() && q.In(img.rect) && |pix'| == |img.pix|
    requires 0 <= img.PixOffset(q) && img.PixOffset(q) + 4 <= |img.pix|
    requires pix'[img.PixOffset(q)] == img.pix[img.PixOffset(q)]
    requires pix'[img.PixOffset(q) + 1] == img.pix[img.PixOffset(q) + 1]
    requires pix'[img.PixOffset(q) + 2] == img.pix[img.PixOffset(q) + 2]
    requires pix'[img.PixOffset(q) + 3] == img.pix[img.PixOffset(q) + 3]
    ensures At(RGBA(img.rect, img.stride, pix'), q) == At(img, q)
  {
  }

  lemma SetColorRGBAIs(img: Image, p: Point, c: Color)
    requires img.RGBA? && img.WellFormed() && p.In(img.rect)
    requires 0 <= img.PixOffset(p) && img.PixOffset(p) + 4 <= |img.pix|
    ensures var i := img.PixOffset(p);
      SetColor(img, p, c) ==
        RGBA(img.rect, img.stride, img.pix[i := High(c.r)][i + 1 := High(c.g)][i + 2 := High(c.b)][i + 3 := High(c.a)])
  {
  }

  lemma Update4Elsewhere(s: seq<Byte>, i: int, a: Byte, b: Byte, c: Byte, d: Byte, o: int)
    requires 0 <= i && i + 4 <= |s| && 0 <= o < |s| && (o < i || i + 4 <= o)
    ensures s[i := a][i + 1 := b][i + 2 := c][i + 3 := d][o] == s[o]
  {
  }

  lemma SetColorOtherPaletted(img: Image, p: Point, c: Color, q: Point)
    requires img.Paletted? && img.WellFormed() && p.In(img.rect) && q.In(img.rect)
    requires 0 <= img.PixOffset(p) < |img.pix| && 0 <= img.PixOffset(q) < |img.pix|
    requires img.PixOffset(p) != img.PixOffset(q)
    ensures At(SetColor(img, p, c), q) == At(img, q)
  {
    var i := img.PixOffset(p);
    var k := NearestIndex(img.palette, c) % 256;
    assert SetColor(img, p, c) == Paletted(img.rect, img.stride, img.pix[i := k], img.palette);
  }

  /** The colour draw.Draw reads from src at p; a pixel without a colour (None) makes Draw panic. */
  function ColorAt(src: Image, p: Point): Color
    requires src.WellFormed()
  {
    match At(src, p)
    case Some(c) => c
    case None => Transparent
  }

  /** Every pixel of r has a colour in src. */
  predicate DefinedOn(src: Image, r: Rect)
    requires src.WellFormed()
  {
    forall x: int, y: int | r.min.x <= x < r.max.x && r.min.y <= y < r.max.y :: At(src, Point(x, y)).Some?
  }

  /** Pixel number k of r in row-major order. */
  function PixelOf(r: Rect, k: int): Point
    requires r.Dx() > 0
  {
    Point(r.min.x + k % r.Dx(), r.min.y + k / r.Dx())
  }

  /** Byte j (R, G, B, A) of an RGBA pixel that stores c. */
  function ChannelByte(c: Color, j: int): Byte {
    if j == 0 then High(c.r) else if j == 1 then High(c.g) else if j == 2 then High(c.b) else High(c.a)
  }

  /** Byte i of the RGBA copy of src over r: channel i % 4 of pixel i / 4. */
  function RGBAByteOf(r: Rect, src: Image, i: int): Byte
    requires src.WellFormed()
  {
    if r.Dx() <= 0 then 0 else ChannelByte(ColorAt(src, PixelOf(r, i / 4)), i % 4)
  }

  /** The first k bytes of the RGBA copy, one byte after the other. */
  function RGBABytes(r: Rect, src: Image, k: nat): (b: seq<Byte>)
    requires src.WellFormed()
    ensures |b| == k
  {
    if k == 0 then [] else RGBABytes(r, src, k - 1) + [RGBAByteOf(r, src, k - 1)]
  }

  lemma {:induction false} RGBABytesAt(r: Rect, src: Image, k: nat, i: int)
    requires src.WellFormed() && 0 <= i < k
    ensures RGBABytes(r, src, k)[i] == RGBAByteOf(r, src, i)
  {
    if i < k - 1 {
      RGBABytesAt(r, src, k - 1, i);
    }
  }

  /** Byte i of the paletted copy of src over r: the nearest palette index of pixel i. */
  function IndexByteOf(r: Rect, palette: seq<Color>, src: Image, i: int): Byte
    requires src.WellFormed()
  {
    if r.Dx() <= 0 then 0 else NearestIndex(palette, ColorAt(src, PixelOf(r, i))) % 256
  }

  /** The first k bytes of the paletted copy, one byte after the other. */
  function IndexBytes(r: Rect, palette: seq<Color>, src: Image, k: nat): (b: seq<Byte>)
    requires src.WellFormed()
    ensures |b| == k
  {
    if k == 0 then [] else IndexBytes(r, palette, src, k - 1) + [IndexByteOf(r, palette, src, k - 1)]
  }

  lemma {:induction false} IndexBytesAt(r: Rect, palette: seq<Color>, src: Image, k: nat, i: int)
    requires src.WellFormed() && 0 <= i < k
    ensures IndexBytes(r, palette, src, k)[i] == IndexByteOf(r, palette, src, i)
  {
    if i < k - 1 {
      IndexBytesAt(r, palette, src, k - 1, i);
    }
  }

  /** draw.Draw(NewRGBA(r), r, src, r.Min, Over) as a per-pixel copy: every pixel of r stores src's colour. */
  function DrawRGBA(r: Rect, src: Image): (img: Image)
    requires r.IsCanon() && src.WellFormed()
    ensures img.RGBA? && img.WellFormed() && img.rect == r
  {
    Arith.MulNonneg(r.Dx(), r.Dy());
    var img := RGBA(r, 4 * r.Dx(), RGBABytes(r, src, 4 * (r.Dx() * r.Dy())));
    assert r.Dy() == 0 || |img.pix| >= (r.Dy() - 1) * img.stride + 4 * r.Dx() by {
      if r.Dy() > 0 { Arith.MulSucc(r.Dy() - 1, 4 * r.Dx()); }
    }
    img
  }

  /** draw.Draw(NewPaletted(r, palette), r, src, r.Min, Over) as a per-pixel copy: every pixel of r
      stores the nearest palette index of src's colour. */
  function DrawPaletted(r: Rect, palette: seq<Color>, src: Image): (img: Image)
    requires r.IsCanon() && src.WellFormed()
    ensures img.Paletted? && img.WellFormed() && img.rect == r && img.palette == palette
  {
    Arith.MulNonneg(r.Dx(), r.Dy());
    var img := Paletted(r, r.Dx(), IndexBytes(r, palette, src, r.Dx() * r.Dy()), palette);
    assert r.Dy() == 0 || |img.pix| >= (r.Dy() - 1) * img.stride + r.Dx() by {
      if r.Dy() > 0 { Arith.MulSucc(r.Dy() - 1, r.Dx()); }
    }
    img
  }

  /** The row-major number of a pixel of r, and that PixelOf inverts it. */
  lemma PixelNumber(r: Rect, p: Point) returns (k: int)
    requires r.IsCanon() && p.In(r)
    ensures r.Dx() > 0 && 0 <= k < r.Dx() * r.Dy() && PixelOf(r, k) == p
    ensures k == (p.y - r.min.y) * r.Dx() + (p.x - r.min.x)
  {
    var dx, dy := p.x - r.min.x, p.y - r.min.y;
    k := dy * r.Dx() + dx;
    Arith.DivModUnique(k, r.Dx(), dy, dx);
    Arith.MulLeRight(dy + 1, r.Dy(), r.Dx());
    Arith.MulSucc(dy, r.Dx());
    Arith.MulNonneg(dy, r.Dx());
  }

  /** Each pixel of the drawn RGBA image reads back as src's colour, quantised. */
  lemma DrawRGBAAt(r: Rect, src: Image, p: Point)
    requires r.IsCanon() && src.WellFormed() && p.In(r)
    ensures At(DrawRGBA(r, src), p) == Some(Quantize(ColorAt(src, p)))
  {
    var img := DrawRGBA(r, src);
    var k := PixelNumber(r, p);
    var o := img.PixOffset(p);
    assert o == 4 * k by {
      Arith.MulScale4(p.y - r.min.y, r.Dx());
    }
    var c := ColorAt(src, p);
    DrawRGBAByte(r, src, k, 0);
    DrawRGBAByte(r, src, k, 1);
    DrawRGBAByte(r, src, k, 2);
    DrawRGBAByte(r, src, k, 3);
    OffsetInBuffer(img, p);
    assert At(img, p) == Some(FromRGBA8(img.pix[o], img.pix[o + 1], img.pix[o + 2], img.pix[o + 3]));
  }

  lemma DrawRGBAByte(r: Rect, src: Image, k: int, j: int)
    requires r.IsCanon() && src.WellFormed() && r.Dx() > 0 && 0 <= k < r.Dx() * r.Dy() && 0 <= j < 4
    ensures 4 * k + j < |DrawRGBA(r, src).pix|
    ensures DrawRGBA(r, src).pix[4 * k + j] == ChannelByte(ColorAt(src, PixelOf(r, k)), j)
  {
    Arith.DivModUnique(4 * k + j, 4, k, j);
    RGBABytesAt(r, src, 4 * (r.Dx() * r.Dy()), 4 * k + j);
  }

  /** Each pixel of the drawn paletted image holds the nearest index of src's colour. */
  lemma DrawPalettedAt(r: Rect, palette: seq<Color>, src: Image, p: Point)
    requires r.IsCanon() && src.WellFormed() && p.In(r)
    ensures IndexAt(DrawPaletted(r, palette, src), p) == (NearestIndex(palette, ColorAt(src, p)) % 256)
    ensures At(DrawPaletted(r, palette, src), p) == Stored(DrawPaletted(r, palette, src), ColorAt(src, p))
  {
    var img := DrawPaletted(r, palette, src);
    assert IndexAt(img, p) == (NearestIndex(palette, ColorAt(src, p)) % 256) by {
      var k := PixelNumber(r, p);
      assert img.PixOffset(p) == k;
      DrawPalettedByte(r, palette, src, k);
    }
    AtIsPaletteEntry(img, p);
  }

  /** Inside the rectangle a paletted image shows the palette entry of its stored index. */
  lemma AtIsPaletteEntry(img: Image, p: Point)
    requires img.Paletted? && img.WellFormed() && p.In(img.rect)
    ensures At(img, p) == PaletteEntry(img.palette, IndexAt(img, p))
  {
  }

  lemma DrawPalettedByte(r: Rect, palette: seq<Color>, src: Image, k: int)
    requires r.IsCanon() && src.WellFormed() && r.Dx() > 0 && 0 <= k < r.Dx() * r.Dy()
    ensures k < |DrawPaletted(r, palette, src).pix|
    ensures DrawPaletted(r, palette, src).pix[k] == (NearestIndex(palette, ColorAt(src, PixelOf(r, k))) % 256)
  {
    IndexBytesAt(r, palette, src, r.Dx() * r.Dy(), k);
  }

  /** Drawing src into a chunk-sized image reproduces src's colours there when they are 8-bit RGBA or
      a rectangle's opaque white. A paletted image drawn into its own palette keeps each colour to
      within one unit per channel, and unchanged when the palette is 8-bit. */
  lemma DrawCopies(r: Rect, src: Image, p: Point)
    requires r.IsCanon() && src.WellFormed() && p.In(r) && p.In(src.Bounds()) && DefinedOn(src, r)
    ensures src.Paletted? ==>
      At(DrawPaletted(r, src.palette, src), p).Some? &&
      Close(At(DrawPaletted(r, src.palette, src), p).value, At(src, p).value)
    ensures src.Paletted? && Palette8(src.palette) ==> At(DrawPaletted(r, src.palette, src), p) == At(src, p)
    ensures !src.Paletted? ==> At(DrawRGBA(r, src), p) == At(src, p)
  {
    assert At(src, Point(p.x, p.y)).Some?;
    if src.Paletted? {
      DrawCopiesPaletted(r, src, p);
    } else {
      DrawRGBAAt(r, src, p);
      if src.RGBA? {
        OffsetInBuffer(src, p);
        var o := src.PixOffset(p);
        QuantizeKeeps8Bit(src.pix[o], src.pix[o + 1], src.pix[o + 2], src.pix[o + 3]);
      } else {
        QuantizeKeeps8Bit(0xFF, 0xFF, 0xFF, 0xFF);
      }
    }
  }

  lemma DrawCopiesPaletted(r: Rect, src: Image, p: Point)
    requires r.IsCanon() && src.Paletted? && src.WellFormed() && p.In(r) && p.In(src.rect) && At(src, p).Some?
    ensures At(DrawPaletted(r, src.palette, src), p).Some?
    ensures Close(At(DrawPaletted(r, src.palette, src), p).value, At(src, p).value)
    ensures Palette8(src.palette) ==> At(DrawPaletted(r, src.palette, src), p) == At(src, p)
  {
    var pal := src.palette;
    var i := IndexAt(src, p);
    AtIsPaletteEntry(src, p);
    assert i < |pal| && At(src, p) == Some(pal[i]);
    assert ColorAt(src, p) == pal[i];
    var n := NearestIndex(pal, pal[i]);
    NearestIndexExact(pal, pal[i], i);
    assert n <= i < 256 && n % 256 == n;
    DrawPalettedAt(r, pal, src, p);
    assert At(DrawPaletted(r, pal, src), p) == Some(pal[n]);
  }
}
