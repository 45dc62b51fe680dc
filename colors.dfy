/** Colours as Go's color.Color.RGBA() reports them, and nearest-colour palette lookup. */
module Colors {
  import opened Bytes
  import Arith

  /** A 16-bit colour channel. */
  type Channel = x: int | 0 <= x < 0x1_0000

  /** A colour, identified with the 16-bit alpha-premultiplied channels its RGBA() method returns. */
  datatype Color = Color(r: Channel, g: Channel, b: Channel, a: Channel)

  /** color.Opaque (alpha16 0xFFFF) and color.Transparent. */
  const Opaque := Color(0xFFFF, 0xFFFF, 0xFFFF, 0xFFFF)
  const Transparent := Color(0, 0, 0, 0)

  /** Expands an 8-bit channel the way color.RGBA.RGBA() does: v | v << 8. */
  function Expand(v: Byte): (w: Channel)
    ensures High(w) == v && w % 256 == v
  {
    v * 257
  }

  /** color.RGBA{r, g, b, a} (already premultiplied). */
  function FromRGBA8(r: Byte, g: Byte, b: Byte, a: Byte): Color {
    Color(Expand(r), Expand(g), Expand(b), Expand(a))
  }

  /** uint8(ch >> 8): the high byte of a 16-bit channel. */
  function High(ch: Channel): Byte { ch / 256 }

  /** color.RGBAModel.Convert of an already premultiplied colour: what an RGBA pixel keeps of c. */
  function Quantize(c: Color): Color {
    FromRGBA8(High(c.r), High(c.g), High(c.b), High(c.a))
  }

  /** Colours that come from 8-bit channels survive quantisation unchanged. */
  lemma QuantizeKeeps8Bit(r: Byte, g: Byte, b: Byte, a: Byte)
    ensures Quantize(FromRGBA8(r, g, b, a)) == FromRGBA8(r, g, b, a)
  {
  }

  /** sqDiff: the squared difference of two channels shifted right by two, as color.Palette.Index
      computes it; the shift keeps the sum of four such terms within uint32. */
  function SqDiff(x: Channel, y: Channel): (s: nat)
    ensures s <= 0x3FFF_8000
    ensures s == 0 <==> -1 <= x - y <= 1
  {
    var d: nat := if x < y then y - x else x - y;
    Arith.SquareBound(d);
    d * d / 4
  }

  /** Distance between two colours over all four channels: the sum of the channels' sqDiff. It stays
      below the 1<<32 - 1 that Palette.Index starts its search with, so the first entry is always
      taken as the best so far. */
  function Distance(c: Color, d: Color): (s: nat)
    ensures s < 0xFFFF_FFFF
  {
    SqDiff(c.r, d.r) + SqDiff(c.g, d.g) + SqDiff(c.b, d.b) + SqDiff(c.a, d.a)
  }

  /** Every channel of c is within one unit of the same channel of d. */
  predicate Close(c: Color, d: Color) {
    -1 <= c.r - d.r <= 1 && -1 <= c.g - d.g <= 1 && -1 <= c.b - d.b <= 1 && -1 <= c.a - d.a <= 1
  }

  /** A colour whose channels all come from 8-bit values, as every color.RGBA does. */
  predicate Is8Bit(c: Color) {
    c == Quantize(c)
  }

  /** Every entry of the palette is an 8-bit colour. */
  predicate Palette8(p: seq<Color>) {
    forall i | 0 <= i < |p| :: Is8Bit(p[i])
  }

  /** The distance is zero exactly when the colours are close, since each term is floored. */
  lemma DistanceZero(c: Color, d: Color)
    ensures Distance(c, d) == 0 <==> Close(c, d)
  {
  }

  /** Two 8-bit channels within one unit of each other are equal: they are multiples of 257. */
  lemma CloseExpanded(u: Byte, v: Byte)
    requires -1 <= Expand(u) - Expand(v) <= 1
    ensures u == v
  {
  }

  /** Two 8-bit colours that are close are equal. */
  lemma {:induction false} CloseEqual8(c: Color, d: Color)
    requires Is8Bit(c) && Is8Bit(d) && Close(c, d)
    ensures c == d
  {
    CloseExpanded(High(c.r), High(d.r));
    CloseExpanded(High(c.g), High(d.g));
    CloseExpanded(High(c.b), High(d.b));
    CloseExpanded(High(c.a), High(d.a));
  }

  /** color.Palette.Index: the index of the first palette entry closest to c; 0 for an empty palette. */
  function NearestIndex(p: seq<Color>, c: Color): (k: nat)
    ensures p == [] ==> k == 0
    ensures p != [] ==> k < |p|
  {
    if |p| <= 1 then 0
    else
      var k := NearestIndex(p[..|p| - 1], c);
      if Distance(p[|p| - 1], c) < Distance(p[k], c) then |p| - 1 else k
  }

  /** NearestIndex finds an entry no farther from c than any other, and the first such entry. */
  lemma {:induction false} NearestIndexIsNearest(p: seq<Color>, c: Color)
    ensures forall j :: 0 <= j < |p| ==> Distance(p[NearestIndex(p, c)], c) <= Distance(p[j], c)
    ensures forall j :: 0 <= j < NearestIndex(p, c) ==> Distance(p[NearestIndex(p, c)], c) < Distance(p[j], c)
  {
    if |p| > 1 {
      var q := p[..|p| - 1];
      NearestIndexIsNearest(q, c);
      var k := NearestIndex(q, c);
      assert forall j :: 0 <= j < |q| ==> q[j] == p[j];
    }
  }

  /** A colour that is in the palette is matched at distance zero, at or before any index that holds
      it: the entry found is within one unit of it on every channel, and is the colour itself when the
      colour and the palette are 8-bit. */
  lemma {:induction false} NearestIndexExact(p: seq<Color>, c: Color, i: nat)
    requires i < |p| && p[i] == c
    ensures NearestIndex(p, c) <= i
    ensures Close(p[NearestIndex(p, c)], c)
    ensures Palette8(p) ==> p[NearestIndex(p, c)] == c
  {
    NearestIndexIsNearest(p, c);
    var k := NearestIndex(p, c);
    DistanceZero(p[k], c);
    DistanceZero(p[i], c);
    if Palette8(p) {
      assert Is8Bit(p[k]) && Is8Bit(p[i]);
      CloseEqual8(p[k], c);
    }
  }

  /** The shift makes the match inexact: an entry one unit away is chosen ahead of the colour itself. */
  lemma NearestIndexInexact()
    ensures var p := [Color(1, 0, 0, 0xFFFF), Color(0, 0, 0, 0xFFFF)];
      NearestIndex(p, p[1]) == 0 && p[0] != p[1]
  {
  }
}
