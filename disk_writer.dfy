/**
 * The recording writer of canvasdiskwriter.go: a canvas listener that appends one
 * little-endian record per canvas event to a (decompressed) .pixrec stream.
 */
module DiskWriters {
  import opened Bytes
  import opened Geometry
  import opened Colors
  import opened Results
  import Images
  import Canvases

  // ---------------------------------------------------------------------------------------
  // The short-name sanitiser (canvasdiskwriter.go:50-51): every maximal run of characters
  // outside [a-zA-Z0-9.-] becomes one '_'.
  // ---------------------------------------------------------------------------------------

  /** The characters the pattern [^a-zA-Z0-9\-\.] does not match. */
  predicate Kept(c: char) {
    'a' <= c <= 'z' || 'A' <= c <= 'Z' || '0' <= c <= '9' || c == '-' || c == '.'
  }

  /** The input after its leading run of replaced characters. */
  function SkipRun(s: string): (r: string)
    ensures |r| <= |s| && (|r| > 0 ==> Kept(r[0]))
    ensures r == s[|s| - |r|..]
  {
    if |s| == 0 || Kept(s[0]) then s else SkipRun(s[1..])
  }

  /** regexp "[^a-zA-Z0-9\-\.]+" ReplaceAllString with "_". */
  function Sanitize(s: string): (r: string)
    decreases |s|
  {
    if |s| == 0 then []
    else if Kept(s[0]) then [s[0]] + Sanitize(s[1..])
    else "_" + Sanitize(SkipRun(s[1..]))
  }

  /** A sanitised name: only kept characters and '_', and never two replacements in a row. */
  predicate Clean(r: string) {
    (forall i | 0 <= i < |r| :: Kept(r[i]) || r[i] == '_') &&
    (forall i | 0 <= i < |r| - 1 :: !Kept(r[i]) ==> Kept(r[i + 1]))
  }

  /** Prefixing a kept character, or a '_' before a kept character, keeps a name clean. */
  lemma CleanCons(c: char, r: string)
    requires Clean(r) && (Kept(c) || (c == '_' && (|r| > 0 ==> Kept(r[0]))))
    ensures Clean([c] + r)
  {
    var t := [c] + r;
    forall i | 0 <= i < |t| - 1 && !Kept(t[i])
      ensures Kept(t[i + 1])
    {
      if i > 0 {
        assert t[i] == r[i - 1] && t[i + 1] == r[i];
      }
    }
  }

  /** A clean name stays clean without its first character. */
  lemma CleanTail(r: string)
    requires Clean(r) && |r| > 0
    ensures Clean(r[1..])
  {
    forall i | 0 <= i < |r[1..]| - 1 && !Kept(r[1..][i])
      ensures Kept(r[1..][i + 1])
    {
      assert r[1..][i] == r[i + 1];
    }
  }

  /** What the sanitiser produces is clean, and starts with a kept character iff the input does. */
  lemma {:induction false} SanitizeClean(s: string)
    ensures Clean(Sanitize(s))
    ensures |Sanitize(s)| > 0 <==> |s| > 0
    ensures |s| > 0 ==> (Kept(Sanitize(s)[0]) <==> Kept(s[0]))
    decreases |s|
  {
    if |s| > 0 {
      if Kept(s[0]) {
        SanitizeClean(s[1..]);
        CleanCons(s[0], Sanitize(s[1..]));
      } else {
        var t := SkipRun(s[1..]);
        SanitizeClean(t);
        // After a '_' the sanitiser continues at a kept character, or at the end.
        CleanCons('_', Sanitize(t));
      }
    }
  }

  /** A clean name is left unchanged. */
  lemma {:induction false} SanitizeFixes(r: string)
    requires Clean(r)
    ensures Sanitize(r) == r
    decreases |r|
  {
    if |r| > 0 {
      CleanTail(r);
      SanitizeFixes(r[1..]);
      if !Kept(r[0]) {
        assert r[0] == '_';
        if |r| > 1 {
          assert Kept(r[1]);
        }
        assert SkipRun(r[1..]) == r[1..];
      }
    }
  }

  /** Sanitising twice is sanitising once. */
  lemma SanitizeIdempotent(s: string)
    ensures Sanitize(Sanitize(s)) == Sanitize(s)
  {
    SanitizeClean(s);
    SanitizeFixes(Sanitize(s));
  }

  /** The characters of the pattern's complement, in order: what the sanitiser never touches. */
  function KeptOf(s: string): (r: string)
    ensures forall i | 0 <= i < |r| :: Kept(r[i])
  {
    if |s| == 0 then [] else (if Kept(s[0]) then [s[0]] else []) + KeptOf(s[1..])
  }

  lemma {:induction false} KeptOfSkipRun(s: string)
    ensures KeptOf(SkipRun(s)) == KeptOf(s)
  {
    if |s| > 0 && !Kept(s[0]) {
      KeptOfSkipRun(s[1..]);
    }
  }

  /** Every kept character survives, in its order, and nothing but the replacements is added. */
  lemma {:induction false} SanitizeKeepsKept(s: string)
    ensures KeptOf(Sanitize(s)) == KeptOf(s)
    decreases |s|
  {
    if |s| > 0 {
      if Kept(s[0]) {
        SanitizeKeepsKept(s[1..]);
        KeptOfCons(s[0], Sanitize(s[1..]));
      } else {
        var t := SkipRun(s[1..]);
        SanitizeKeepsKept(t);
        KeptOfSkipRun(s[1..]);
        KeptOfCons('_', Sanitize(t));
      }
    }
  }

  lemma KeptOfCons(c: char, r: string)
    ensures KeptOf([c] + r) == (if Kept(c) then [c] else []) + KeptOf(r)
  {
    assert ([c] + r)[1..] == r;
  }

  // ---------------------------------------------------------------------------------------
  // Record layouts. The int32 / uint16 / uint32 conversions of the source wrap around; Put
  // keeps the value modulo 256^n, which is that conversion.
  // ---------------------------------------------------------------------------------------

  /** Go's int64: the type of time.Now().UnixNano(). */
  type Int64 = x: int | -0x8000_0000_0000_0000 <= x < 0x8000_0000_0000_0000

  /** 'P','R','E','C' read as a little-endian uint32. */
  const Magic: nat := 1128616528

  /** The file format version the writer records. */
  const Version: nat := 1

  /** Record type bytes. */
  const SetPixelType: Byte := 10
  const InvalidateRectType: Byte := 20
  const InvalidateAllType: Byte := 21
  const RevalidateRectType: Byte := 22
  const SetImageType: Byte := 30

  /** The file header (canvasdiskwriter.go:75-87): magic, version, time, chunk size, reserved. */
  function Header(time: Int64, chunkSize: Point): (bs: seq<Byte>)
    ensures |bs| == 24
    ensures bs[..4] == [80, 82, 69, 67]   // "PREC"
  {
    assert Put(Magic, 4) == [80, 82, 69, 67];
    Put(Magic, 4) + (Put(Version, 2) + (Put(time, 8) + (Put(chunkSize.x, 4) + (Put(chunkSize.y, 4) + Put(0, 2)))))
  }

  /** handleSetPixel (canvasdiskwriter.go:118-133): the high byte of each 16-bit channel; alpha is dropped. */
  function SetPixelRecord(time: Int64, pos: Point, c: Color): (bs: seq<Byte>)
    ensures |bs| == 20 && bs[0] == SetPixelType
  {
    [SetPixelType] + (Put(time, 8) + (Put(pos.x, 4) + (Put(pos.y, 4) + [High(c.r), High(c.g), High(c.b)])))
  }

  /** MinX, MinY, MaxX, MaxY as int32. */
  function RectFields(r: Rect): (bs: seq<Byte>)
    ensures |bs| == 16
  {
    Put(r.min.x, 4) + (Put(r.min.y, 4) + (Put(r.max.x, 4) + Put(r.max.y, 4)))
  }

  /** The layout shared by handleInvalidateRect and handleRevalidateRect: the corners as given, not canonicalised. */
  function RectRecord(kind: Byte, time: Int64, r: Rect): (bs: seq<Byte>)
    ensures |bs| == 25 && bs[0] == kind
  {
    [kind] + (Put(time, 8) + RectFields(r))
  }

  /** handleInvalidateAll (canvasdiskwriter.go:173-179): fields go out in declaration order, type first. */
  function InvalidateAllRecord(time: Int64): (bs: seq<Byte>)
    ensures |bs| == 9 && bs[0] == InvalidateAllType
  {
    [InvalidateAllType] + Put(time, 8)
  }

  /**
   * handleSetImage (canvasdiskwriter.go:236-260): position, uint16 width and height, the uint32
   * payload size, then the payload. rgb stands for imageToRGBArray(img), which is not part of this model.
   */
  function SetImageRecord(time: Int64, bounds: Rect, rgb: seq<Byte>): (bs: seq<Byte>)
    ensures |bs| == 25 + |rgb| && bs[0] == SetImageType
  {
    [SetImageType] + (Put(time, 8) + (Put(bounds.min.x, 4) + (Put(bounds.min.y, 4) +
      (Put(bounds.Dx(), 2) + (Put(bounds.Dy(), 2) + (Put(|rgb|, 4) + rgb))))))
  }

  /** The 21 bytes of a SetImage record before its size field. */
  function SetImageHead(time: Int64, bounds: Rect): (bs: seq<Byte>)
    ensures |bs| == 21
  {
    [SetImageType] + (Put(time, 8) + (Put(bounds.min.x, 4) + (Put(bounds.min.y, 4) +
      (Put(bounds.Dx(), 2) + Put(bounds.Dy(), 2)))))
  }

  /**
   * A SetImage record is its head, the size field, then exactly the payload; the size field
   * holds the payload length whenever that fits a uint32.
   */
  lemma SetImageSizeField(time: Int64, bounds: Rect, rgb: seq<Byte>)
    ensures SetImageRecord(time, bounds, rgb) == SetImageHead(time, bounds) + (Put(|rgb|, 4) + rgb)
    ensures SetImageRecord(time, bounds, rgb)[25..] == rgb
    ensures |rgb| < Pow256(4) ==> Unsigned(SetImageRecord(time, bounds, rgb)[21..][..4]) == |rgb|
  {
    var head := SetImageHead(time, bounds);
    var t := Put(|rgb|, 4) + rgb;
    var wh := Put(bounds.Dx(), 2) + Put(bounds.Dy(), 2);
    Assoc(Put(bounds.Dx(), 2), Put(bounds.Dy(), 2), t);
    Assoc(Put(bounds.min.y, 4), wh, t);
    Assoc(Put(bounds.min.x, 4), Put(bounds.min.y, 4) + wh, t);
    Assoc(Put(time, 8), Put(bounds.min.x, 4) + (Put(bounds.min.y, 4) + wh), t);
    Assoc([SetImageType], Put(time, 8) + (Put(bounds.min.x, 4) + (Put(bounds.min.y, 4) + wh)), t);
    Split(head, Put(|rgb|, 4) + rgb);
    Split(Put(|rgb|, 4), rgb);
    if |rgb| < Pow256(4) {
      UnsignedRoundTrip(|rgb|, 4);
    }
  }

  // ---------------------------------------------------------------------------------------
  // The writer object.
  // ---------------------------------------------------------------------------------------

  /**
   * canvasDiskWriter: out is everything written to the compressed stream so far (compression
   * and the file are not modelled); closed is the Closed field.
   */
  class DiskWriter {
    var closed: bool
    var out: seq<Byte>
    /** The directory name the recording goes to: the sanitised short name. */
    var name: string
    var canvas: Canvases.Canvas<DiskWriter>

    /** newCanvasDiskWriter (canvasdiskwriter.go:45-97): header written, then subscribed to the canvas. */
    constructor (can: Canvases.Canvas<DiskWriter>, shortName: string, time: Int64)
      modifies can
      ensures !closed && out == Header(time, can.chunkSize) && name == Sanitize(shortName) && canvas == can
      ensures can.listeners == old(can.listeners) + {this}
      ensures can.chunks == old(can.chunks) && can.chunkSize == old(can.chunkSize) && can.events == old(can.events)
    {
      closed := false;
      out := Header(time, can.chunkSize);
      name := Sanitize(shortName);
      canvas := can;
      new;
      can.Subscribe(this);
    }

    /** Appends bs unless the writer is closed, which is an error that writes nothing. */
    method Emit(bs: seq<Byte>) returns (err: Option<Error>)
      modifies this
      ensures err == (if old(closed) then Some(Closed) else None)
      ensures out == if old(closed) then old(out) else old(out) + bs
      ensures closed == old(closed) && name == old(name) && canvas == old(canvas)
    {
      if closed {
        return Some(Closed);
      }
      out := out + bs;
      return None;
    }

    /** handleSetPixel (canvasdiskwriter.go:111-139). */
    method HandleSetPixel(time: Int64, pos: Point, c: Color) returns (err: Option<Error>)
      modifies this
      ensures err == (if old(closed) then Some(Closed) else None)
      ensures out == if old(closed) then old(out) else old(out) + SetPixelRecord(time, pos, c)
      ensures closed == old(closed) && name == old(name) && canvas == old(canvas)
    {
      err := Emit(SetPixelRecord(time, pos, c));
    }

    /** handleInvalidateRect (canvasdiskwriter.go:141-164). */
    method HandleInvalidateRect(time: Int64, r: Rect) returns (err: Option<Error>)
      modifies this
      ensures err == (if old(closed) then Some(Closed) else None)
      ensures out == if old(closed) then old(out) else old(out) + RectRecord(InvalidateRectType, time, r)
      ensures closed == old(closed) && name == old(name) && canvas == old(canvas)
    {
      err := Emit(RectRecord(InvalidateRectType, time, r));
    }

    /** handleInvalidateAll (canvasdiskwriter.go:166-184). */
    method HandleInvalidateAll(time: Int64) returns (err: Option<Error>)
      modifies this
      ensures err == (if old(closed) then Some(Closed) else None)
      ensures out == if old(closed) then old(out) else old(out) + InvalidateAllRecord(time)
      ensures closed == old(closed) && name == old(name) && canvas == old(canvas)
    {
      err := Emit(InvalidateAllRecord(time));
    }

    /** handleRevalidateRect (canvasdiskwriter.go:186-209). */
    method HandleRevalidateRect(time: Int64, r: Rect) returns (err: Option<Error>)
      modifies this
      ensures err == (if old(closed) then Some(Closed) else None)
      ensures out == if old(closed) then old(out) else old(out) + RectRecord(RevalidateRectType, time, r)
      ensures closed == old(closed) && name == old(name) && canvas == old(canvas)
    {
      err := Emit(RectRecord(RevalidateRectType, time, r));
    }

    /** handleSignalDownload (canvasdiskwriter.go:211-222): nothing is recorded. */
    method HandleSignalDownload(r: Rect) returns (err: Option<Error>)
      ensures err == (if closed then Some(Closed) else None)
    {
      err := if closed then Some(Closed) else None;
    }

    /** handleSetImage (canvasdiskwriter.go:224-262): an image not in sync with the game is not recorded. */
    method HandleSetImage(time: Int64, img: Images.Image, valid: bool, rgb: seq<Byte>) returns (err: Option<Error>)
      modifies this
      ensures err == (if old(closed) then Some(Closed) else None)
      ensures out == if old(closed) || !valid then old(out) else old(out) + SetImageRecord(time, img.Bounds(), rgb)
      ensures closed == old(closed) && name == old(name) && canvas == old(canvas)
    {
      if closed {
        return Some(Closed);
      }
      if !valid {
        return None;
      }
      err := Emit(SetImageRecord(time, img.Bounds(), rgb));
    }

    /** handleChunksChange (canvasdiskwriter.go:264-274): nothing is recorded. */
    method HandleChunksChange(create: seq<Rect>, remove: seq<Rect>) returns (err: Option<Error>)
      ensures err == (if closed then Some(Closed) else None)
    {
      err := if closed then Some(Closed) else None;
    }

    /**
     * Close (canvasdiskwriter.go:276-286): unsubscribes, records one InvalidateAll (unless already
     * closed), then sets Closed so that every later handler fails.
     */
    method Close(time: Int64)
      modifies this, canvas
      ensures closed && name == old(name) && canvas == old(canvas)
      ensures out == if old(closed) then old(out) else old(out) + InvalidateAllRecord(time)
      ensures canvas.listeners == old(canvas.listeners) - {this}
      ensures canvas.chunks == old(canvas.chunks) && canvas.events == old(canvas.events)
    {
      canvas.Unsubscribe(this);
      var _ := HandleInvalidateAll(time);
      closed := true;
    }
  }
}
