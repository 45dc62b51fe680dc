/**
 * The replay side of the recording format (canvasdiskreader.go): header and record decoding
 * of a decompressed .pixrec stream, the list of recordings of a directory, the choice of the
 * recording that covers a point in time, the one-slot seek buffer and the replay loop's gating.
 */
module DiskReaders {
  import opened Bytes
  import opened Geometry
  import opened Colors
  import opened Results
  import W = DiskWriters

  // ---------------------------------------------------------------------------------------
  // Header (canvasdiskreader.go:287-315)
  // ---------------------------------------------------------------------------------------

  /** What canvasDiskReaderParseHeader returns: start time, chunk size and chunk origin. */
  datatype HeaderInfo = HeaderInfo(time: int, chunkSize: Point, origin: Point)

  /** The header struct the reader expects: 54 bytes, origin included, six reserved uint32. */
  const HeaderSize := 54

  /** "PREC" */
  const MagicBytes: seq<Byte> := [80, 82, 69, 67]

  function ParseHeader(bs: seq<Byte>): (r: Result<HeaderInfo>)
    ensures r.Ok? ==> HeaderFits(r.value)
  {
    if |bs| < HeaderSize then Err(ShortRead)
    else
      var magic, s1 := bs[..4], bs[4..];
      var version, s2 := Unsigned(s1[..2]), s1[2..];
      var time, s3 := Signed(s2[..8]), s2[8..];
      var width, s4 := Unsigned(s3[..4]), s3[4..];
      var height, s5 := Unsigned(s4[..4]), s4[4..];
      var originX, s6 := Signed(s5[..4]), s5[4..];
      var originY := Signed(s6[..4]);
      if magic != MagicBytes then Err(FormatError)
      else if version > 1 then Err(VersionTooNew)
      else Ok(HeaderInfo(time, Point(width, height), Point(originX, originY)))
  }

  /** The values the header's int64, uint32 and int32 fields can hold. */
  predicate HeaderFits(h: HeaderInfo) {
    FitsSigned(h.time, 8) && 0 <= h.chunkSize.x < Pow256(4) && 0 <= h.chunkSize.y < Pow256(4) &&
    FitsSigned(h.origin.x, 4) && FitsSigned(h.origin.y, 4)
  }

  /** The header a reader-format file starts with; an independent statement of the struct's layout. */
  function HeaderBytes(version: nat, h: HeaderInfo): (bs: seq<Byte>)
    ensures |bs| == HeaderSize
  {
    MagicBytes + (Put(version, 2) + (Put(h.time, 8) + (Put(h.chunkSize.x, 4) + (Put(h.chunkSize.y, 4) +
      (Put(h.origin.x, 4) + (Put(h.origin.y, 4) + Put(0, 24)))))))
  }

  /** The header checks, in their order: fewer than 54 bytes is a short read, then wrong magic
      bytes are a format error, then a version above 1 is refused. */
  lemma ParseHeaderRefuses(bs: seq<Byte>)
    ensures |bs| < HeaderSize ==> ParseHeader(bs) == Err(ShortRead)
    ensures |bs| >= HeaderSize && bs[..4] != MagicBytes ==> ParseHeader(bs) == Err(FormatError)
    ensures |bs| >= HeaderSize && bs[..4] == MagicBytes && Unsigned(bs[4..6]) > 1 ==>
      ParseHeader(bs) == Err(VersionTooNew)
  {
    if |bs| >= HeaderSize {
      assert bs[4..][..2] == bs[4..6];
    }
  }

  /** Every field of a header in range reads back, whatever follows it; versions above 1 are refused. */
  lemma HeaderRoundTrip(version: nat, h: HeaderInfo, rest: seq<Byte>)
    requires version < 0x1_0000 && HeaderFits(h)
    ensures ParseHeader(HeaderBytes(version, h) + rest) == if version <= 1 then Ok(h) else Err(VersionTooNew)
  {
    var s6 := Put(h.origin.y, 4) + (Put(0, 24) + rest);
    var s5 := Put(h.origin.x, 4) + s6;
    var s4 := Put(h.chunkSize.y, 4) + s5;
    var s3 := Put(h.chunkSize.x, 4) + s4;
    var s2 := Put(h.time, 8) + s3;
    var s1 := Put(version, 2) + s2;
    var z := Put(0, 24);
    Assoc(Put(h.origin.y, 4), z, rest);
    Assoc(Put(h.origin.x, 4), Put(h.origin.y, 4) + z, rest);
    Assoc(Put(h.chunkSize.y, 4), Put(h.origin.x, 4) + (Put(h.origin.y, 4) + z), rest);
    Assoc(Put(h.chunkSize.x, 4), Put(h.chunkSize.y, 4) + (Put(h.origin.x, 4) + (Put(h.origin.y, 4) + z)), rest);
    Assoc(Put(h.time, 8), Put(h.chunkSize.x, 4) + (Put(h.chunkSize.y, 4) + (Put(h.origin.x, 4) +
      (Put(h.origin.y, 4) + z))), rest);
    Assoc(Put(version, 2), Put(h.time, 8) + (Put(h.chunkSize.x, 4) + (Put(h.chunkSize.y, 4) +
      (Put(h.origin.x, 4) + (Put(h.origin.y, 4) + z)))), rest);
    Assoc(MagicBytes, Put(version, 2) + (Put(h.time, 8) + (Put(h.chunkSize.x, 4) + (Put(h.chunkSize.y, 4) +
      (Put(h.origin.x, 4) + (Put(h.origin.y, 4) + z))))), rest);
    Split(MagicBytes, s1);
    Split(Put(version, 2), s2);
    Split(Put(h.time, 8), s3);
    Split(Put(h.chunkSize.x, 4), s4);
    Split(Put(h.chunkSize.y, 4), s5);
    Split(Put(h.origin.x, 4), s6);
    Split(Put(h.origin.y, 4), Put(0, 24) + rest);
    UnsignedRoundTrip(version, 2);
    SignedRoundTrip(h.time, 8);
    UnsignedRoundTrip(h.chunkSize.x, 4);
    UnsignedRoundTrip(h.chunkSize.y, 4);
    SignedRoundTrip(h.origin.x, 4);
    SignedRoundTrip(h.origin.y, 4);
  }

  /** The writer's 24-byte header alone is too short for the reader. */
  lemma WriterHeaderTooShort(time: W.Int64, size: Point)
    ensures ParseHeader(W.Header(time, size)) == Err(ShortRead)
  {
  }

  /**
   * Followed by at least 30 more bytes, the writer's header passes the reader's checks with the
   * writer's time and chunk size (the origin is read from the reserved field and the first bytes
   * of the first record).
   */
  lemma WriterHeaderCompat(time: W.Int64, size: Point, rest: seq<Byte>)
    requires |rest| >= 30 && 0 <= size.x < Pow256(4) && 0 <= size.y < Pow256(4)
    ensures ParseHeader(W.Header(time, size) + rest).Ok?
    ensures ParseHeader(W.Header(time, size) + rest).value.time == time
    ensures ParseHeader(W.Header(time, size) + rest).value.chunkSize == size
  {
    var s4 := Put(size.y, 4) + (Put(0, 2) + rest);
    var s2 := Put(time, 8) + (Put(size.x, 4) + s4);
    var z := Put(0, 2);
    Assoc(Put(size.y, 4), z, rest);
    Assoc(Put(size.x, 4), Put(size.y, 4) + z, rest);
    Assoc(Put(time, 8), Put(size.x, 4) + (Put(size.y, 4) + z), rest);
    Assoc(Put(W.Version, 2), Put(time, 8) + (Put(size.x, 4) + (Put(size.y, 4) + z)), rest);
    Assoc(Put(W.Magic, 4), Put(W.Version, 2) + (Put(time, 8) + (Put(size.x, 4) + (Put(size.y, 4) + z))), rest);
    WriterHeaderFields(Put(W.Magic, 4) + (Put(W.Version, 2) + s2), time, size, rest);
  }

  lemma WriterHeaderFields(bs: seq<Byte>, time: W.Int64, size: Point, rest: seq<Byte>)
    requires |rest| >= 30 && 0 <= size.x < Pow256(4) && 0 <= size.y < Pow256(4)
    requires bs == Put(W.Magic, 4) + (Put(W.Version, 2) + (Put(time, 8) + (Put(size.x, 4) +
      (Put(size.y, 4) + (Put(0, 2) + rest)))))
    ensures ParseHeader(bs).Ok? && ParseHeader(bs).value.time == time && ParseHeader(bs).value.chunkSize == size
  {
    var s5 := Put(0, 2) + rest;
    var s4 := Put(size.y, 4) + s5;
    var s3 := Put(size.x, 4) + s4;
    var s2 := Put(time, 8) + s3;
    var s1 := Put(W.Version, 2) + s2;
    assert Put(W.Magic, 4) == MagicBytes;
    Split(Put(W.Magic, 4), s1);
    Split(Put(W.Version, 2), s2);
    Split(Put(time, 8), s3);
    Split(Put(size.x, 4), s4);
    Split(Put(size.y, 4), s5);
    UnsignedRoundTrip(W.Version, 2);
    SignedRoundTrip(time, 8);
    UnsignedRoundTrip(size.x, 4);
    UnsignedRoundTrip(size.y, 4);
  }

  // ---------------------------------------------------------------------------------------
  // Records (canvasdiskreader.go:176-267)
  // ---------------------------------------------------------------------------------------

  /** A decoded record: the canvas call it replays, with the record's time. */
  datatype Record =
    | SetPixelRec(time: int, pos: Point, color: Color)
    | InvalidateRectRec(time: int, rect: Rect)
    | InvalidateAllRec(time: int)
    | RevalidateRectRec(time: int, rect: Rect)
    | SetImageRec(time: int, at: Point, payload: seq<Byte>)   // the still encoded image

  datatype Decoded = Decoded(rec: Record, rest: seq<Byte>)

  /** The four int32 corners of a rectangle record, through image.Rect (which canonicalises). */
  function RectOf(body: seq<Byte>): Rect
    requires |body| >= 16
  {
    var minX, c1 := Signed(body[..4]), body[4..];
    var minY, c2 := Signed(c1[..4]), c1[4..];
    var maxX, c3 := Signed(c2[..4]), c2[4..];
    MakeRect(minX, minY, maxX, Signed(c3[..4]))
  }

  /** A SetPixel record's fields after its time: int32 X and Y, then R, G, B. */
  function SetPixelBody(t: int, body: seq<Byte>): (r: Result<Decoded>)
    ensures r.Ok? ==> |r.value.rest| < |body| && r.value.rest == body[|body| - |r.value.rest|..]
  {
    if |body| < 11 then Err(ShortRead)
    else
      var x, b1 := Signed(body[..4]), body[4..];
      var y, b2 := Signed(b1[..4]), b1[4..];
      Ok(Decoded(SetPixelRec(t, Point(x, y), FromRGBA8(b2[0], b2[1], b2[2], 255)), b2[3..]))
  }

  /** A SetImage record's fields after its time: int32 X and Y, uint32 size, then the payload. */
  function SetImageBody(t: int, body: seq<Byte>): (r: Result<Decoded>)
    ensures r.Ok? ==> |r.value.rest| < |body| && r.value.rest == body[|body| - |r.value.rest|..]
  {
    if |body| < 12 then Err(ShortRead)
    else
      var x, b1 := Signed(body[..4]), body[4..];
      var y, b2 := Signed(b1[..4]), b1[4..];
      var size, b3 := Unsigned(b2[..4]), b2[4..];
      if |b3| < size then Err(ShortRead)
      else Ok(Decoded(SetImageRec(t, Point(x, y), b3[..size]), b3[size..]))
  }

  /**
   * One record: the type byte and the int64 time are read first, then the type's fields. A
   * stream that ends inside a field is a ShortRead, an unknown type byte an UnknownRecord; both
   * end the replay of the file.
   */
  function DecodeRecord(bs: seq<Byte>): (r: Result<Decoded>)
    ensures r.Ok? ==> |r.value.rest| < |bs| && r.value.rest == bs[|bs| - |r.value.rest|..]
    ensures r.Ok? ==> FitsSigned(r.value.rec.time, 8)
    ensures |bs| < 9 ==> r == Err(ShortRead)
  {
    if |bs| < 9 then Err(ShortRead)
    else
      var kind, s := bs[0], bs[1..];
      var t, body := Signed(s[..8]), s[8..];
      if kind == W.SetPixelType then SetPixelBody(t, body)
      else if kind == W.InvalidateRectType then
        if |body| < 16 then Err(ShortRead) else Ok(Decoded(InvalidateRectRec(t, RectOf(body)), body[16..]))
      else if kind == W.InvalidateAllType then
        Ok(Decoded(InvalidateAllRec(t), body))
      else if kind == W.RevalidateRectType then
        if |body| < 16 then Err(ShortRead) else Ok(Decoded(RevalidateRectRec(t, RectOf(body)), body[16..]))
      else if kind == W.SetImageType then SetImageBody(t, body)
      else Err(UnknownRecord)
  }

  /** The type byte and the time, read off a record whose remaining fields are body. */
  lemma RecordPrefix(kind: Byte, time: W.Int64, fields: seq<Byte>, rest: seq<Byte>)
    ensures ([kind] + (Put(time, 8) + fields)) + rest == [kind] + (Put(time, 8) + (fields + rest))
    ensures ([kind] + (Put(time, 8) + (fields + rest)))[0] == kind
    ensures ([kind] + (Put(time, 8) + (fields + rest)))[1..][..8] == Put(time, 8)
    ensures ([kind] + (Put(time, 8) + (fields + rest)))[1..][8..] == fields + rest
    ensures Signed(Put(time, 8)) == time
  {
    Assoc([kind], Put(time, 8) + fields, rest);
    Assoc(Put(time, 8), fields, rest);
    Split([kind], Put(time, 8) + (fields + rest));
    Split(Put(time, 8), fields + rest);
    SignedRoundTrip(time, 8);
  }

  /** A SetPixel record reads back with its time and position; the colour comes back opaque, 8 bits per channel. */
  lemma SetPixelRoundTrip(time: W.Int64, pos: Point, c: Color, rest: seq<Byte>)
    requires FitsSigned(pos.x, 4) && FitsSigned(pos.y, 4)
    ensures DecodeRecord(W.SetPixelRecord(time, pos, c) + rest) ==
      Ok(Decoded(SetPixelRec(time, pos, FromRGBA8(High(c.r), High(c.g), High(c.b), 255)), rest))
  {
    var rgb := [High(c.r), High(c.g), High(c.b)];
    var fields := Put(pos.x, 4) + (Put(pos.y, 4) + rgb);
    RecordPrefix(W.SetPixelType, time, fields, rest);
    Assoc(Put(pos.y, 4), rgb, rest);
    Assoc(Put(pos.x, 4), Put(pos.y, 4) + rgb, rest);
    SetPixelFields(time, pos, rgb, rest);
  }

  lemma SetPixelFields(time: int, pos: Point, rgb: seq<Byte>, rest: seq<Byte>)
    requires FitsSigned(pos.x, 4) && FitsSigned(pos.y, 4) && |rgb| == 3
    ensures SetPixelBody(time, Put(pos.x, 4) + (Put(pos.y, 4) + (rgb + rest))) ==
      Ok(Decoded(SetPixelRec(time, pos, FromRGBA8(rgb[0], rgb[1], rgb[2], 255)), rest))
  {
    var b2 := rgb + rest;
    var b1 := Put(pos.y, 4) + b2;
    Split(Put(pos.x, 4), b1);
    Split(Put(pos.y, 4), b2);
    Split(rgb, rest);
    SignedRoundTrip(pos.x, 4);
    SignedRoundTrip(pos.y, 4);
  }

  /** An opaque colour with 8-bit channels survives a SetPixel record unchanged. */
  lemma SetPixelKeepsOpaque8(time: W.Int64, pos: Point, r: Byte, g: Byte, b: Byte, rest: seq<Byte>)
    requires FitsSigned(pos.x, 4) && FitsSigned(pos.y, 4)
    ensures DecodeRecord(W.SetPixelRecord(time, pos, FromRGBA8(r, g, b, 255)) + rest) ==
      Ok(Decoded(SetPixelRec(time, pos, FromRGBA8(r, g, b, 255)), rest))
  {
    SetPixelRoundTrip(time, pos, FromRGBA8(r, g, b, 255), rest);
  }

  predicate RectFits(r: Rect) {
    FitsSigned(r.min.x, 4) && FitsSigned(r.min.y, 4) && FitsSigned(r.max.x, 4) && FitsSigned(r.max.y, 4)
  }

  lemma RectFieldsRoundTrip(r: Rect, rest: seq<Byte>)
    requires RectFits(r)
    ensures |W.RectFields(r) + rest| >= 16 && (W.RectFields(r) + rest)[16..] == rest
    ensures RectOf(W.RectFields(r) + rest) == r.Canon()
  {
    var c3 := Put(r.max.y, 4) + rest;
    var c2 := Put(r.max.x, 4) + c3;
    var c1 := Put(r.min.y, 4) + c2;
    assert W.RectFields(r) + rest == Put(r.min.x, 4) + c1;
    Split(W.RectFields(r), rest);
    Split(Put(r.min.x, 4), c1);
    Split(Put(r.min.y, 4), c2);
    Split(Put(r.max.x, 4), c3);
    Split(Put(r.max.y, 4), rest);
    SignedRoundTrip(r.min.x, 4);
    SignedRoundTrip(r.min.y, 4);
    SignedRoundTrip(r.max.x, 4);
    SignedRoundTrip(r.max.y, 4);
  }

  /** InvalidateRect and RevalidateRect records read back as the canonical rectangle, with their time. */
  lemma RectRoundTrip(kind: Byte, time: W.Int64, r: Rect, rest: seq<Byte>)
    requires kind == W.InvalidateRectType || kind == W.RevalidateRectType
    requires RectFits(r)
    ensures DecodeRecord(W.RectRecord(kind, time, r) + rest) ==
      Ok(Decoded(if kind == W.InvalidateRectType then InvalidateRectRec(time, r.Canon())
                 else RevalidateRectRec(time, r.Canon()), rest))
  {
    RecordPrefix(kind, time, W.RectFields(r), rest);
    RectFieldsRoundTrip(r, rest);
  }

  /** An InvalidateAll record reads back with its time. */
  lemma InvalidateAllRoundTrip(time: W.Int64, rest: seq<Byte>)
    ensures DecodeRecord(W.InvalidateAllRecord(time) + rest) == Ok(Decoded(InvalidateAllRec(time), rest))
  {
    Assoc([W.InvalidateAllType], Put(time, 8), rest);
    Split([W.InvalidateAllType], Put(time, 8) + rest);
    Split(Put(time, 8), rest);
    SignedRoundTrip(time, 8);
  }

  /**
   * The reader's SetImage layout: int32 X and Y, a uint32 size, then exactly that many payload
   * bytes (no width or height fields).
   */
  lemma SetImageLayout(time: W.Int64, x: int, y: int, size: seq<Byte>, tail: seq<Byte>, n: nat)
    requires FitsSigned(x, 4) && FitsSigned(y, 4) && |size| == 4 && Unsigned(size) == n
    ensures DecodeRecord([W.SetImageType] + (Put(time, 8) + (Put(x, 4) + (Put(y, 4) + (size + tail))))) ==
        if |tail| < n then Err(ShortRead) else Ok(Decoded(SetImageRec(time, Point(x, y), tail[..n]), tail[n..]))
  {
    var body := Put(x, 4) + (Put(y, 4) + (size + tail));
    Split([W.SetImageType], Put(time, 8) + body);
    Split(Put(time, 8), body);
    SignedRoundTrip(time, 8);
    SetImageFields(time, x, y, size, tail);
  }

  lemma SetImageFields(time: int, x: int, y: int, size: seq<Byte>, tail: seq<Byte>)
    requires FitsSigned(x, 4) && FitsSigned(y, 4) && |size| == 4
    ensures var n := Unsigned(size);
      SetImageBody(time, Put(x, 4) + (Put(y, 4) + (size + tail))) ==
        if |tail| < n then Err(ShortRead) else Ok(Decoded(SetImageRec(time, Point(x, y), tail[..n]), tail[n..]))
  {
    var b2 := size + tail;
    var b1 := Put(y, 4) + b2;
    Split(Put(x, 4), b1);
    Split(Put(y, 4), b2);
    Split(size, tail);
    SignedRoundTrip(x, 4);
    SignedRoundTrip(y, 4);
  }

  /**
   * The writer's SetImage record does not read back: the reader takes the uint16 width and
   * height for its uint32 size field, so it expects W + 65536·H payload bytes, and the payload
   * it takes starts with the writer's own size field.
   */
  lemma SetImageMisread(time: W.Int64, b: Rect, rgb: seq<Byte>, rest: seq<Byte>)
    requires FitsSigned(b.min.x, 4) && FitsSigned(b.min.y, 4)
    ensures var want := b.Dx() % 0x1_0000 + 0x1_0000 * (b.Dy() % 0x1_0000);
      var tail := Put(|rgb|, 4) + (rgb + rest);
      DecodeRecord(W.SetImageRecord(time, b, rgb) + rest) ==
        if |tail| < want then Err(ShortRead) else Ok(Decoded(SetImageRec(time, b.min, tail[..want]), tail[want..]))
  {
    SetImageRegroup(time, b, rgb, rest);
    SizeFieldIsWidthHeight(b.Dx(), b.Dy());
    SetImageLayout(time, b.min.x, b.min.y, Put(b.Dx(), 2) + Put(b.Dy(), 2), Put(|rgb|, 4) + (rgb + rest),
      b.Dx() % 0x1_0000 + 0x1_0000 * (b.Dy() % 0x1_0000));
  }

  /** A SetImage record followed by more bytes, grouped as the reader takes it apart: its width and
      height fields as one size field, then what follows them. */
  lemma SetImageRegroup(time: W.Int64, b: Rect, rgb: seq<Byte>, rest: seq<Byte>)
    ensures W.SetImageRecord(time, b, rgb) + rest == [W.SetImageType] + (Put(time, 8) + (Put(b.min.x, 4) +
      (Put(b.min.y, 4) + ((Put(b.Dx(), 2) + Put(b.Dy(), 2)) + (Put(|rgb|, 4) + (rgb + rest))))))
  {
    var tail := Put(|rgb|, 4) + (rgb + rest);
    var x6 := Put(|rgb|, 4) + rgb;
    var x5 := Put(b.Dy(), 2) + x6;
    var x4 := Put(b.Dx(), 2) + x5;
    var x3 := Put(b.min.y, 4) + x4;
    var x2 := Put(b.min.x, 4) + x3;
    var x1 := Put(time, 8) + x2;
    Assoc(Put(|rgb|, 4), rgb, rest);
    Assoc(Put(b.Dy(), 2), x6, rest);
    Assoc(Put(b.Dx(), 2), x5, rest);
    Assoc(Put(b.Dx(), 2), Put(b.Dy(), 2), tail);
    Assoc(Put(b.min.y, 4), x4, rest);
    Assoc(Put(b.min.x, 4), x3, rest);
    Assoc(Put(time, 8), x2, rest);
    Assoc([W.SetImageType], x1, rest);
  }

  /** Two uint16 fields read as one uint32: the first is the low half. */
  lemma SizeFieldIsWidthHeight(w: int, h: int)
    ensures Unsigned(Put(w, 2) + Put(h, 2)) == w % 0x1_0000 + 0x1_0000 * (h % 0x1_0000)
  {
    var bs := Put(w, 2) + Put(h, 2);
    assert bs[1..][1..] == Put(h, 2);
    UnsignedPut(w, 2);
    UnsignedPut(h, 2);
    assert Put(w, 2)[1..][1..] == [];
  }

  // ---------------------------------------------------------------------------------------
  // Streams of records
  // ---------------------------------------------------------------------------------------

  /**
   * The records of a stream up to its first read error; at the end of a stream binary.Read
   * reports io.EOF, so every stream ends in one.
   */
  function DecodeStream(bs: seq<Byte>): (rs: seq<Record>)
    decreases |bs|
  {
    match DecodeRecord(bs)
    case Err(_) => []
    case Ok(d) => [d.rec] + DecodeStream(d.rest)
  }

  /** The records both revisions agree on: everything but SetImage, with fields the writer can hold. */
  predicate Portable(r: Record) {
    FitsSigned(r.time, 8) &&
    match r
    case SetPixelRec(_, pos, c) =>
      FitsSigned(pos.x, 4) && FitsSigned(pos.y, 4) && c == FromRGBA8(High(c.r), High(c.g), High(c.b), 255)
    case InvalidateRectRec(_, rect) => RectFits(rect) && rect.IsCanon()
    case InvalidateAllRec(_) => true
    case RevalidateRectRec(_, rect) => RectFits(rect) && rect.IsCanon()
    case SetImageRec(_, _, _) => false
  }

  /** The bytes the writer's handler for the same canvas event appends. */
  function Encode(r: Record): (bs: seq<Byte>)
    requires Portable(r)
  {
    Pow256Values();
    match r
    case SetPixelRec(t, pos, c) => W.SetPixelRecord(t, pos, c)
    case InvalidateRectRec(t, rect) => W.RectRecord(W.InvalidateRectType, t, rect)
    case InvalidateAllRec(t) => W.InvalidateAllRecord(t)
    case RevalidateRectRec(t, rect) => W.RectRecord(W.RevalidateRectType, t, rect)
  }

  function EncodeAll(rs: seq<Record>): (bs: seq<Byte>)
    requires forall i | 0 <= i < |rs| :: Portable(rs[i])
  {
    if |rs| == 0 then [] else Encode(rs[0]) + EncodeAll(rs[1..])
  }

  /** One portable record, followed by anything, reads back as itself. */
  lemma DecodeEncoded(r: Record, rest: seq<Byte>)
    requires Portable(r)
    ensures DecodeRecord(Encode(r) + rest) == Ok(Decoded(r, rest))
  {
    Pow256Values();
    match r
    case SetPixelRec(t, pos, c) => SetPixelRoundTrip(t, pos, c, rest);
    case InvalidateRectRec(t, rect) =>
      RectRoundTrip(W.InvalidateRectType, t, rect, rest);
      CanonIdempotent(rect);
    case InvalidateAllRec(t) => InvalidateAllRoundTrip(t, rest);
    case RevalidateRectRec(t, rect) =>
      RectRoundTrip(W.RevalidateRectType, t, rect, rest);
      CanonIdempotent(rect);
  }

  /** A stream the writer produced from portable events replays exactly those events, in order. */
  lemma {:induction false} StreamRoundTrip(rs: seq<Record>)
    requires forall i | 0 <= i < |rs| :: Portable(rs[i])
    ensures DecodeStream(EncodeAll(rs)) == rs
  {
    if |rs| > 0 {
      DecodeEncoded(rs[0], EncodeAll(rs[1..]));
      StreamRoundTrip(rs[1..]);
    }
  }

  // ---------------------------------------------------------------------------------------
  // Recording selection (canvasdiskreader.go:87-104)
  // ---------------------------------------------------------------------------------------

  /** canvasDiskReaderRecording; times are nanoseconds since the epoch. */
  datatype Recording = Recording(fileName: string, startTime: int, endTime: int)

  /** StartTime <= t < EndTime. */
  predicate Covers(rec: Recording, t: int) {
    rec.startTime <= t < rec.endTime
  }

  /** The first recording that covers t; None means the loop waits for another target time. */
  function SelectRecording(recs: seq<Recording>, t: int): (r: Option<nat>)
    ensures r.Some? ==> r.value < |recs| && Covers(recs[r.value], t)
    ensures r.Some? ==> forall j | 0 <= j < r.value :: !Covers(recs[j], t)
    ensures r.None? ==> forall j | 0 <= j < |recs| :: !Covers(recs[j], t)
  {
    if |recs| == 0 then None
    else if Covers(recs[0], t) then Some(0)
    else match SelectRecording(recs[1..], t)
      case None => None
      case Some(k) => Some(k + 1)
  }

  // ---------------------------------------------------------------------------------------
  // Replay of one file (canvasdiskreader.go:141-188)
  // ---------------------------------------------------------------------------------------

  /**
   * What a receive on the seek buffer yields at one turn of the replay loop: nothing pending,
   * a new target time, or the closed channel.
   */
  datatype Signal = Idle | Target(t: int) | Shutdown

  /** Why the replay of a file stops: close the goroutine, select another file, wait, or end of stream. */
  datatype Exit = Quit | Reselect | Blocked | EndOfFile

  /** The records handed to the canvas, why the replay stopped, and the final curTime. */
  datatype Replayed = Replayed(played: seq<Record>, exit: Exit, cur: int)

  /**
   * The replay loop over the records of one file, driven by one scripted signal per turn. A
   * target before curTime or after the file's end leaves the file; a target in between becomes
   * curTime and one record is read. With nothing pending, a record is read unless curTime is
   * still before replayTime (the last record's time), in which case the loop waits: the turns
   * it waits are the Idle signals it consumes, and when the script runs out it stays Blocked.
   */
  function Replay(recs: seq<Record>, end: int, cur: int, replay: int, script: seq<Signal>): (r: Replayed)
    ensures |r.played| <= |recs| && r.played == recs[..|r.played|]
    ensures r.exit != Reselect ==> cur <= r.cur && (cur <= end ==> r.cur <= end)
    decreases |script| + |recs|
  {
    var seek := |script| > 0 && script[0].Target?;
    if |script| > 0 && script[0].Shutdown? then Replayed([], Quit, cur)
    else if seek && (script[0].t < cur || script[0].t > end) then Replayed([], Reselect, script[0].t)
    else if !seek && cur < replay then
      if |script| == 0 then Replayed([], Blocked, cur) else Replay(recs, end, cur, replay, script[1..])
    else
      var cur' := if seek then script[0].t else cur;
      var rest := if |script| > 0 then script[1..] else [];
      if |recs| == 0 then Replayed([], EndOfFile, cur')
      else
        var r := Replay(recs[1..], end, cur', recs[0].time, rest);
        Replayed([recs[0]] + r.played, r.exit, r.cur)
  }

  /** The records read while no new target arrives: each one only once curTime has reached the previous one. */
  function Played(recs: seq<Record>, cur: int, replay: int): (p: seq<Record>)
  {
    if cur < replay || |recs| == 0 then [] else [recs[0]] + Played(recs[1..], cur, recs[0].time)
  }

  /**
   * The gating rule: without new targets the replay plays a prefix of the file in which every
   * record but the last has a time that curTime has reached, and it stops early only at a
   * record whose predecessor lies after curTime.
   */
  lemma {:induction false} PlayedUpTo(recs: seq<Record>, cur: int, replay: int)
    ensures var p := Played(recs, cur, replay);
      |p| <= |recs| && p == recs[..|p|] &&
      (|p| > 0 ==> replay <= cur) &&
      (forall k | 0 <= k < |p| - 1 :: p[k].time <= cur) &&
      (|p| < |recs| ==> (if |p| == 0 then replay else p[|p| - 1].time) > cur)
  {
    if !(cur < replay || |recs| == 0) {
      PlayedUpTo(recs[1..], cur, recs[0].time);
      var q := Played(recs[1..], cur, recs[0].time);
      var p := Played(recs, cur, replay);
      assert p == [recs[0]] + q;
      forall k | 0 <= k < |p| - 1
        ensures p[k].time <= cur
      {
        if k > 0 {
          assert p[k] == q[k - 1];
        }
      }
    }
  }

  /** With only Idle signals the replay is the gated prefix, keeps curTime, and ends Blocked or at the end of the file. */
  lemma {:induction false} ReplayIdle(recs: seq<Record>, end: int, cur: int, replay: int, script: seq<Signal>)
    requires forall k | 0 <= k < |script| :: script[k] == Idle
    ensures Replay(recs, end, cur, replay, script).played == Played(recs, cur, replay)
    ensures Replay(recs, end, cur, replay, script).cur == cur
    ensures Replay(recs, end, cur, replay, script).exit in {Blocked, EndOfFile}
    decreases |script| + |recs|
  {
    if cur < replay {
      if |script| > 0 {
        ReplayIdle(recs, end, cur, replay, script[1..]);
      }
    } else if |recs| > 0 {
      ReplayIdle(recs[1..], end, cur, recs[0].time, if |script| > 0 then script[1..] else []);
    }
  }

  /** A loop state's outcome, with the records already handed to the canvas in front. */
  function After(played: seq<Record>, r: Replayed): Replayed {
    Replayed(played + r.played, r.exit, r.cur)
  }

  /** A turn with nothing pending while curTime is still before replayTime only consumes the signal. */
  lemma ReplayWaits(recs: seq<Record>, end: int, cur: int, replay: int, script: seq<Signal>)
    requires |script| > 0 && script[0] == Idle && cur < replay
    ensures Replay(recs, end, cur, replay, script) == Replay(recs, end, cur, replay, script[1..])
  {
  }

  /** A turn that reads a record hands it to the canvas and continues with the rest of the file. */
  lemma ReplayReads(recs: seq<Record>, end: int, cur: int, replay: int, script: seq<Signal>, cur': int, rest: seq<Signal>)
    requires |recs| > 0
    requires |script| == 0 ==> replay <= cur && cur' == cur && rest == []
    requires |script| > 0 ==> rest == script[1..] && match script[0]
      case Idle => replay <= cur && cur' == cur
      case Target(t) => cur <= t <= end && cur' == t
      case Shutdown => false
    ensures Replay(recs, end, cur, replay, script) == After([recs[0]], Replay(recs[1..], end, cur', recs[0].time, rest))
  {
  }

  /** One turn of the replay loop that waits: the Idle signal at s is consumed. */
  lemma WaitTurn(played: seq<Record>, recs: seq<Record>, i: nat, end: int, cur: int, replay: int, script: seq<Signal>, s: nat)
    requires i <= |recs| && s < |script| && script[s] == Idle && cur < replay
    ensures After(played, Replay(recs[i..], end, cur, replay, script[s..])) ==
      After(played, Replay(recs[i..], end, cur, replay, script[s + 1..]))
  {
    ReplayWaits(recs[i..], end, cur, replay, script[s..]);
    assert script[s..][1..] == script[s + 1..];
  }

  /** One turn of the replay loop that reads record i, moving curTime to cur' and the script to s'. */
  lemma ReadTurn(played: seq<Record>, recs: seq<Record>, i: nat, end: int, cur: int, replay: int, script: seq<Signal>, s: nat, cur': int, s': nat)
    requires i < |recs| && s <= |script|
    requires s == |script| ==> replay <= cur && cur' == cur && s' == s
    requires s < |script| ==> s' == s + 1 && match script[s]
      case Idle => replay <= cur && cur' == cur
      case Target(t) => cur <= t <= end && cur' == t
      case Shutdown => false
    ensures After(played, Replay(recs[i..], end, cur, replay, script[s..])) ==
      After(played + [recs[i]], Replay(recs[i + 1..], end, cur', recs[i].time, script[s'..]))
  {
    assert s < |script| ==> script[s..][1..] == script[s'..];
    assert s == |script| ==> script[s..] == [] && script[s'..] == [];
    ReplayReads(recs[i..], end, cur, replay, script[s..], cur', script[s'..]);
    assert recs[i..][1..] == recs[i + 1..];
    var tail := Replay(recs[i + 1..], end, cur', recs[i].time, script[s'..]);
    assert played + ([recs[i]] + tail.played) == (played + [recs[i]]) + tail.played;
  }

  /** The replay loop of canvasdiskreader.go:141-268 over already decoded records. */
  method ReplayFile(recs: seq<Record>, end: int, cur0: int, replay0: int, script: seq<Signal>) returns (r: Replayed)
    ensures r == Replay(recs, end, cur0, replay0, script)
  {
    var i, s, cur, replay, played := 0, 0, cur0, replay0, [];
    while true
      invariant 0 <= i <= |recs| && 0 <= s <= |script|
      invariant Replay(recs, end, cur0, replay0, script) == After(played, Replay(recs[i..], end, cur, replay, script[s..]))
      decreases |script| - s + |recs| - i
    {
      var seek := s < |script| && script[s].Target?;
      if s < |script| && script[s].Shutdown? {
        return Replayed(played, Quit, cur);
      }
      if seek && (script[s].t < cur || script[s].t > end) {
        return Replayed(played, Reselect, script[s].t);
      }
      if !seek && cur < replay {
        if s == |script| {
          return Replayed(played, Blocked, cur);
        }
        WaitTurn(played, recs, i, end, cur, replay, script, s);
        s := s + 1;
      } else {
        var cur' := if seek then script[s].t else cur;
        var s' := if s < |script| then s + 1 else s;
        if i == |recs| {
          return Replayed(played, EndOfFile, cur');
        }
        ReadTurn(played, recs, i, end, cur, replay, script, s, cur', s');
        played, replay, i, s, cur := played + [recs[i]], recs[i].time, i + 1, s', cur';
      }
    }
  }

  // ---------------------------------------------------------------------------------------
  // The recordings directory (canvasdiskreader.go:333-403)
  // ---------------------------------------------------------------------------------------

  /** filepath.Ext with '/' as separator: the suffix from the last '.' of the last path element, or "". */
  function Ext(path: string): string
  {
    if |path| == 0 || path[|path| - 1] == '/' then ""
    else if path[|path| - 1] == '.' then "."
    else
      var e := Ext(path[..|path| - 1]);
      if e == "" then "" else e + [path[|path| - 1]]
  }

  /** The extension is a suffix of the path and, unless empty, starts with '.'. */
  lemma {:induction false} ExtShape(path: string)
    ensures |Ext(path)| <= |path| && Ext(path) == path[|path| - |Ext(path)|..]
    ensures |Ext(path)| > 0 ==> Ext(path)[0] == '.'
  {
    if |path| > 0 && path[|path| - 1] != '/' && path[|path| - 1] != '.' {
      var p' := path[..|path| - 1];
      ExtShape(p');
      if Ext(p') != "" {
        assert path[|path| - |Ext(path)|..] == p'[|p'| - |Ext(p')|..] + [path[|path| - 1]];
      }
    }
  }

  /** An extension: a '.' followed by characters that are neither '.' nor '/'. */
  predicate IsExtension(w: string) {
    |w| >= 1 && w[0] == '.' && forall k | 1 <= k < |w| :: w[k] != '.' && w[k] != '/'
  }

  const RecordingExt := ".pixrec"

  /** A path has extension w exactly when it ends with w. */
  lemma {:induction false} ExtIsSuffix(path: string, w: string)
    requires IsExtension(w)
    ensures Ext(path) == w <==> |path| >= |w| && path[|path| - |w|..] == w
    decreases |w|
  {
    if |path| > 0 && |w| > 1 {
      var p', w' := path[..|path| - 1], w[..|w| - 1];
      ExtIsSuffix(p', w');
      if |path| >= |w| {
        assert path[|path| - |w|..] == path[|path| - |w|..|path| - 1] + [path[|path| - 1]];
        assert p'[|p'| - |w'|..] == path[|path| - |w|..|path| - 1];
      }
      assert w == w' + [w[|w| - 1]];
    }
  }

  /** One entry of the recordings directory; None stands for a file that cannot be opened or decompressed. */
  datatype FileEntry = FileEntry(name: string, content: Option<seq<Byte>>)

  /** The names the recordings directory listing keeps. */
  predicate IsRecordingName(name: string) {
    Ext(name) == RecordingExt
  }

  /** The entries with extension ".pixrec", in directory order. */
  function RecordingFiles(files: seq<FileEntry>): (fs: seq<FileEntry>)
    ensures |fs| <= |files|
  {
    if |files| == 0 then []
    else
      var fs := RecordingFiles(files[..|files| - 1]);
      if IsRecordingName(files[|files| - 1].name) then fs + [files[|files| - 1]] else fs
  }

  /** The kept entries are exactly the entries with extension ".pixrec". */
  lemma {:induction false} RecordingFilesExt(files: seq<FileEntry>)
    ensures forall f :: f in RecordingFiles(files) <==> f in files && Ext(f.name) == RecordingExt
  {
    if |files| > 0 {
      var init, last := files[..|files| - 1], files[|files| - 1];
      RecordingFilesExt(init);
      assert files == init + [last];
    }
  }

  /** The header of an entry, if it can be read. */
  function FileHeader(f: FileEntry): (h: Option<HeaderInfo>)
    ensures h.Some? <==> f.content.Some? && ParseHeader(f.content.value).Ok?
    ensures h.Some? ==> ParseHeader(f.content.value) == Ok(h.value)
  {
    match f.content
    case None => None
    case Some(bs) => match ParseHeader(bs) case Ok(h) => Some(h) case Err(_) => None
  }

  /** A file as the listing sees it: its name and its header, if readable. */
  datatype Scanned = Scanned(name: string, header: Option<HeaderInfo>)

  function ScanAll(fs: seq<FileEntry>): (ss: seq<Scanned>)
    ensures |ss| == |fs|
    ensures forall k | 0 <= k < |fs| :: ss[k] == Scanned(fs[k].name, FileHeader(fs[k]))
  {
    if |fs| == 0 then [] else ScanAll(fs[..|fs| - 1]) + [Scanned(fs[|fs| - 1].name, FileHeader(fs[|fs| - 1]))]
  }

  /** The state of refreshRecordings' loop: the reader's chunk size and origin, the list so far, and a panic. */
  datatype Listing = Listing(size: Point, origin: Point, recs: seq<Recording>, fault: bool)

  /** The zero size: the reader has not adopted a chunk size yet. */
  const NoSize := Point(0, 0)

  /** A header the listing accepts, once an unset size and origin have been adopted from it. */
  predicate Accepts(size: Point, origin: Point, h: HeaderInfo) {
    size == NoSize || (h.chunkSize == size && h.origin == origin)
  }

  /**
   * One turn of the loop as written: the i-th file is read; an unreadable file is skipped; an
   * unset size is adopted; a mismatching file is skipped; otherwise recs[i-1] gets the new start
   * time as its end time and the new recording is appended with end time now. The index i counts
   * the files, so once a file was skipped recs[i-1] is out of range and Go panics.
   */
  function StepAsWritten(st: Listing, i: nat, f: Scanned, now: int): (st': Listing)
  {
    if st.fault || f.header.None? then st
    else
      var h := f.header.value;
      var size := if st.size == NoSize then h.chunkSize else st.size;
      var origin := if st.size == NoSize then h.origin else st.origin;
      if size != h.chunkSize || origin != h.origin then Listing(size, origin, st.recs, false)
      else if i > 0 && i - 1 >= |st.recs| then Listing(size, origin, st.recs, true)
      else
        var recs := if i > 0 then st.recs[i - 1 := st.recs[i - 1].(endTime := h.time)] else st.recs;
        Listing(size, origin, recs + [Recording(f.name, h.time, now)], false)
  }

  /** The loop of canvasdiskreader.go:352-400 as written, over the files fs. */
  function ScanFilesAsWritten(st: Listing, fs: seq<Scanned>, now: int): (st': Listing)
  {
    if |fs| == 0 then st
    else StepAsWritten(ScanFilesAsWritten(st, fs[..|fs| - 1], now), |fs| - 1, fs[|fs| - 1], now)
  }

  /** The end time of the last recording becomes t. */
  function CloseLast(recs: seq<Recording>, t: int): (rs: seq<Recording>)
    ensures |rs| == |recs|
  {
    if |recs| == 0 then recs else recs[|recs| - 1 := recs[|recs| - 1].(endTime := t)]
  }

  /** One turn as intended: the end time of the last recording listed so far is set. */
  function Step(st: Listing, f: Scanned, now: int): (st': Listing)
    ensures |st.recs| <= |st'.recs| <= |st.recs| + 1 && st'.fault == st.fault
    ensures |st'.recs| == |st.recs| + 1 <==> !st.fault && f.header.Some? && Accepts(st.size, st.origin, f.header.value)
  {
    if st.fault || f.header.None? then st
    else
      var h := f.header.value;
      var size := if st.size == NoSize then h.chunkSize else st.size;
      var origin := if st.size == NoSize then h.origin else st.origin;
      if size != h.chunkSize || origin != h.origin then Listing(size, origin, st.recs, false)
      else Listing(size, origin, CloseLast(st.recs, h.time) + [Recording(f.name, h.time, now)], false)
  }

  /** The list built from the files fs, as intended. */
  function ScanFiles(st: Listing, fs: seq<Scanned>, now: int): (st': Listing)
    ensures |st'.recs| <= |st.recs| + |fs| && st'.fault == st.fault
  {
    if |fs| == 0 then st else Step(ScanFiles(st, fs[..|fs| - 1], now), fs[|fs| - 1], now)
  }

  /** The recordings tile time: each ends where the next starts, and the last one ends now. */
  predicate Chained(recs: seq<Recording>, now: int) {
    (forall k | 0 <= k < |recs| - 1 :: recs[k].endTime == recs[k + 1].startTime) &&
    (|recs| > 0 ==> recs[|recs| - 1].endTime == now)
  }

  lemma StepChained(st: Listing, f: Scanned, now: int)
    requires Chained(st.recs, now)
    ensures Chained(Step(st, f, now).recs, now)
  {
    var st' := Step(st, f, now);
    var n := |st.recs|;
    if |st'.recs| > n {
      var h := f.header.value;
      assert st'.recs == CloseLast(st.recs, h.time) + [Recording(f.name, h.time, now)];
      forall k | 0 <= k < n
        ensures st'.recs[k].startTime == st.recs[k].startTime
        ensures k < n - 1 ==> st'.recs[k] == st.recs[k]
      {
      }
      forall k | 0 <= k < n
        ensures st'.recs[k].endTime == st'.recs[k + 1].startTime
      {
        if k < n - 1 {
          assert st.recs[k].endTime == st.recs[k + 1].startTime;
        }
      }
    }
  }

  /** Listing a directory from an empty list gives recordings that tile time up to now. */
  lemma {:induction false} ScanFilesChained(st: Listing, fs: seq<Scanned>, now: int)
    requires Chained(st.recs, now)
    ensures Chained(ScanFiles(st, fs, now).recs, now)
  {
    if |fs| > 0 {
      ScanFilesChained(st, fs[..|fs| - 1], now);
      StepChained(ScanFiles(st, fs[..|fs| - 1], now), fs[|fs| - 1], now);
    }
  }

  /** The file name and start time of a recording: what the patching of end times leaves alone. */
  datatype Start = Start(fileName: string, startTime: int)

  function Starts(recs: seq<Recording>): (ss: seq<Start>)
    ensures |ss| == |recs|
    ensures forall k | 0 <= k < |recs| :: ss[k] == Start(recs[k].fileName, recs[k].startTime)
  {
    if |recs| == 0 then [] else Starts(recs[..|recs| - 1]) + [Start(recs[|recs| - 1].fileName, recs[|recs| - 1].startTime)]
  }

  /** Reference definition: the readable files whose header has the given chunk size and origin. */
  function Matching(fs: seq<Scanned>, size: Point, origin: Point): (ss: seq<Start>)
    ensures |ss| <= |fs|
  {
    if |fs| == 0 then []
    else
      var ss := Matching(fs[..|fs| - 1], size, origin);
      var f := fs[|fs| - 1];
      if f.header.Some? && f.header.value.chunkSize == size && f.header.value.origin == origin
      then ss + [Start(f.name, f.header.value.time)] else ss
  }

  /** Closing the last recording keeps every file name and start time. */
  lemma StartsCloseLast(recs: seq<Recording>, t: int)
    ensures Starts(CloseLast(recs, t)) == Starts(recs)
  {
  }

  /**
   * Once a chunk size is set it never changes, and the listed recordings are exactly the
   * readable files with that chunk size and origin, in directory order.
   */
  lemma {:induction false} ScanFilesMatching(st: Listing, fs: seq<Scanned>, now: int)
    requires st.size != NoSize && !st.fault
    ensures ScanFiles(st, fs, now).size == st.size && ScanFiles(st, fs, now).origin == st.origin
    ensures Starts(ScanFiles(st, fs, now).recs) == Starts(st.recs) + Matching(fs, st.size, st.origin)
  {
    if |fs| > 0 {
      var init, f := fs[..|fs| - 1], fs[|fs| - 1];
      ScanFilesMatching(st, init, now);
      var pre := ScanFiles(st, init, now);
      var post := Step(pre, f, now);
      assert ScanFiles(st, fs, now) == post;
      if f.header.Some? && f.header.value.chunkSize == st.size && f.header.value.origin == st.origin {
        var h := f.header.value;
        var x := Start(f.name, h.time);
        StartsCloseLast(pre.recs, h.time);
        var recs := CloseLast(pre.recs, h.time) + [Recording(f.name, h.time, now)];
        assert post.recs == recs;
        assert Starts(recs) == Starts(pre.recs) + [x] by {
          assert recs[..|recs| - 1] == CloseLast(pre.recs, h.time);
        }
        assert Matching(fs, st.size, st.origin) == Matching(init, st.size, st.origin) + [x];
        SeqAssoc(Starts(st.recs), Matching(init, st.size, st.origin), [x]);
      } else {
        assert post.recs == pre.recs;
        assert Matching(fs, st.size, st.origin) == Matching(init, st.size, st.origin);
      }
    }
  }

  lemma SeqAssoc<T>(a: seq<T>, b: seq<T>, c: seq<T>)
    ensures (a + b) + c == a + (b + c)
  {
  }

  /** The fold from the back is also a fold from the front. */
  lemma {:induction false} ScanFilesFront(st: Listing, fs: seq<Scanned>, now: int)
    requires |fs| > 0
    ensures ScanFiles(st, fs, now) == ScanFiles(Step(st, fs[0], now), fs[1..], now)
  {
    if |fs| > 1 {
      var init := fs[..|fs| - 1];
      ScanFilesFront(st, init, now);
      assert init[1..] == fs[1..][..|fs[1..]| - 1];
    }
  }

  /**
   * The first readable header with a non-zero chunk size fixes the size and origin for good; the
   * recordings are that file followed by the later files that match it.
   */
  lemma ScanFilesAdopts(fs: seq<Scanned>, now: int)
    requires |fs| > 0 && fs[0].header.Some? && fs[0].header.value.chunkSize != NoSize
    ensures var st := ScanFiles(Listing(NoSize, NoSize, [], false), fs, now); var h := fs[0].header.value;
      st.size == h.chunkSize && st.origin == h.origin &&
      Starts(st.recs) == [Start(fs[0].name, h.time)] + Matching(fs[1..], h.chunkSize, h.origin)
  {
    var st0 := Listing(NoSize, NoSize, [], false);
    var h := fs[0].header.value;
    ScanFilesFront(st0, fs, now);
    var st1 := Step(st0, fs[0], now);
    assert CloseLast(st0.recs, h.time) == [];
    assert st1 == Listing(h.chunkSize, h.origin, [Recording(fs[0].name, h.time, now)], false);
    ScanFilesMatching(st1, fs[1..], now);
    assert Starts(st1.recs) == [Start(fs[0].name, h.time)];
  }

  /** Where the loop as written does not panic it builds the intended list. */
  lemma {:induction false} AsWrittenAgrees(st: Listing, fs: seq<Scanned>, now: int)
    requires st.recs == [] && !st.fault
    ensures !ScanFilesAsWritten(st, fs, now).fault ==> ScanFilesAsWritten(st, fs, now) == ScanFiles(st, fs, now)
  {
    if |fs| > 0 {
      AsWrittenAgrees(st, fs[..|fs| - 1], now);
    }
  }

  /** An unreadable recording followed by a readable one makes the loop as written index recs[0] of an empty list. */
  lemma SkippedFilePanics(now: int)
    ensures var fs := [Scanned("a.pixrec", None), Scanned("b.pixrec", Some(HeaderInfo(0, Point(64, 64), Point(0, 0))))];
      ScanFilesAsWritten(Listing(NoSize, NoSize, [], false), fs, now).fault &&
      ScanFiles(Listing(NoSize, NoSize, [], false), fs, now).recs == [Recording("b.pixrec", 0, now)]
  {
    var fs := [Scanned("a.pixrec", None), Scanned("b.pixrec", Some(HeaderInfo(0, Point(64, 64), Point(0, 0))))];
    var st0 := Listing(NoSize, NoSize, [], false);
    assert fs[..1] == [fs[0]] && fs[..1][..0] == [];
    assert ScanFilesAsWritten(st0, fs[..1], now) == StepAsWritten(st0, 0, fs[0], now) == st0;
    assert ScanFiles(st0, fs[..1], now) == Step(st0, fs[0], now) == st0;
  }

  /** The loop of canvasdiskreader.go:341-347 that keeps the ".pixrec" entries. */
  method FilterRecordingFiles(files: seq<FileEntry>) returns (fs: seq<FileEntry>)
    ensures fs == RecordingFiles(files)
  {
    fs := [];
    for i := 0 to |files|
      invariant fs == RecordingFiles(files[..i])
    {
      var keep := IsRecordingName(files[i].name);
      assert RecordingFiles(files[..i + 1]) == if keep then fs + [files[i]] else fs by {
        assert files[..i + 1][..i] == files[..i];
      }
      if keep {
        fs := fs + [files[i]];
      }
    }
    assert files[..|files|] == files;
  }

  /** One turn of the loop of canvasdiskreader.go:352-400, as intended. */
  method ListOne(size: Point, origin: Point, recs: seq<Recording>, f: FileEntry, now: int)
    returns (size': Point, origin': Point, recs': seq<Recording>)
    ensures Listing(size', origin', recs', false) == Step(Listing(size, origin, recs, false), Scanned(f.name, FileHeader(f)), now)
  {
    size', origin', recs' := size, origin, recs;
    var header := FileHeader(f);
    if header.Some? {
      var h := header.value;
      if size' == NoSize {
        size', origin' := h.chunkSize, h.origin;
      }
      if size' == h.chunkSize && origin' == h.origin {
        recs' := CloseLast(recs', h.time) + [Recording(f.name, h.time, now)];
      }
    }
  }

  /** The loop of canvasdiskreader.go:352-400, as intended, from a reader with the given chunk size and origin. */
  method ListRecordings(size: Point, origin: Point, fs: seq<FileEntry>, now: int)
    returns (size': Point, origin': Point, recs: seq<Recording>)
    ensures Listing(size', origin', recs, false) == ScanFiles(Listing(size, origin, [], false), ScanAll(fs), now)
  {
    size', origin', recs := size, origin, [];
    for i := 0 to |fs|
      invariant Listing(size', origin', recs, false) == ScanFiles(Listing(size, origin, [], false), ScanAll(fs[..i]), now)
    {
      assert ScanAll(fs[..i + 1]) == ScanAll(fs[..i]) + [Scanned(fs[i].name, FileHeader(fs[i]))] by {
        assert fs[..i + 1][..i] == fs[..i];
      }
      size', origin', recs := ListOne(size', origin', recs, fs[i], now);
    }
    assert fs[..|fs|] == fs;
  }

  /**
   * The checks on opening the selected file for replay (canvasdiskreader.go:110-135): the file
   * must open, its header must parse, and it must have the canvas' chunk size and origin.
   */
  function OpenForReplay(f: FileEntry, size: Point, origin: Point): (r: Result<HeaderInfo>)
    ensures r.Ok? <==> FileHeader(f).Some? && FileHeader(f).value.chunkSize == size && FileHeader(f).value.origin == origin
    ensures r.Ok? ==> FileHeader(f) == Some(r.value)
    ensures f.content.None? ==> r == Err(NotFound)
    ensures f.content.Some? && ParseHeader(f.content.value).Err? ==> r == ParseHeader(f.content.value)
  {
    match f.content
    case None => Err(NotFound)
    case Some(bs) =>
      match ParseHeader(bs)
      case Err(e) => Err(e)
      case Ok(h) => if h.chunkSize != size || h.origin != origin then Err(Mismatch) else Ok(h)
  }

  /** Every file the listing matched to a chunk size and origin passes the checks on opening it for replay. */
  lemma MatchedFilesOpen(fs: seq<FileEntry>, size: Point, origin: Point, k: nat)
    requires k < |fs|
    requires FileHeader(fs[k]).Some? && Accepts(size, origin, FileHeader(fs[k]).value) && size != NoSize
    ensures OpenForReplay(fs[k], size, origin).Ok?
    ensures OpenForReplay(fs[k], size, origin).value.time == FileHeader(fs[k]).value.time
  {
  }

  // ---------------------------------------------------------------------------------------
  // The reader (canvasdiskreader.go:38-73, 317-403, 421-429)
  // ---------------------------------------------------------------------------------------

  /**
   * canvasDiskReader without its canvas and goroutine: the chunk size and origin adopted from
   * the recordings, the list of recordings, and TimeChan, a channel with room for one time,
   * as a slot plus a closed flag.
   */
  class DiskReader {
    var shortName: string
    var chunkSize: Point
    var chunkOrigin: Point
    var recordings: seq<Recording>
    var timeSlot: Option<int>
    var timeChanClosed: bool

    constructor(shortName: string)
      ensures this.shortName == shortName && chunkSize == NoSize && chunkOrigin == NoSize
      ensures recordings == [] && timeSlot == None && !timeChanClosed
    {
      this.shortName := shortName;
      chunkSize, chunkOrigin := NoSize, NoSize;
      recordings, timeSlot, timeChanClosed := [], None, false;
    }

    /**
     * refreshRecordings over the directory listing (None: it cannot be read): the ".pixrec"
     * entries are read in order and listed as the corrected loop does; the chunk size and
     * origin adopted on the way stay in the reader.
     */
    method RefreshRecordings(dir: Option<seq<FileEntry>>, now: int) returns (r: Result<seq<Recording>>)
      modifies this
      ensures dir.None? ==> r == Err(NotFound) && chunkSize == old(chunkSize) && chunkOrigin == old(chunkOrigin)
      ensures dir.Some? ==>
        var st := ScanFiles(Listing(old(chunkSize), old(chunkOrigin), [], false), ScanAll(RecordingFiles(dir.value)), now);
        r == Ok(st.recs) && chunkSize == st.size && chunkOrigin == st.origin
      ensures shortName == old(shortName) && recordings == old(recordings)
      ensures timeSlot == old(timeSlot) && timeChanClosed == old(timeChanClosed)
    {
      if dir.None? {
        return Err(NotFound);
      }
      var fs := FilterRecordingFiles(dir.value);
      var recs;
      chunkSize, chunkOrigin, recs := ListRecordings(chunkSize, chunkOrigin, fs, now);
      return Ok(recs);
    }

    /** setReplayTime: the slot ends up holding exactly t, whatever it held; sending on the closed channel panics. */
    method SetReplayTime(t: int) returns (err: Option<Error>)
      modifies this
      ensures err == if old(timeChanClosed) then Some(Fault) else None
      ensures timeSlot == if old(timeChanClosed) then old(timeSlot) else Some(t)
      ensures shortName == old(shortName) && chunkSize == old(chunkSize) && chunkOrigin == old(chunkOrigin)
      ensures recordings == old(recordings) && timeChanClosed == old(timeChanClosed)
    {
      if timeChanClosed {
        return Some(Fault);
      }
      if timeSlot.Some? {
        timeSlot := None;
      }
      timeSlot := Some(t);
      return None;
    }

    /**
     * The replay goroutine's non-blocking receive on TimeChan: the pending time, else the end of
     * the closed channel, else nothing. This is what the Signal of each turn of Replay stands for.
     */
    method TakeTime() returns (s: Signal)
      modifies this
      ensures s == (if old(timeSlot).Some? then Target(old(timeSlot).value) else if timeChanClosed then Shutdown else Idle)
      ensures timeSlot == None
      ensures shortName == old(shortName) && chunkSize == old(chunkSize) && chunkOrigin == old(chunkOrigin)
      ensures recordings == old(recordings) && timeChanClosed == old(timeChanClosed)
    {
      if timeSlot.Some? {
        s := Target(timeSlot.value);
        timeSlot := None;
      } else if timeChanClosed {
        s := Shutdown;
      } else {
        s := Idle;
      }
    }

    /** Close: closing TimeChan ends the replay goroutine; closing it a second time panics. */
    method Close() returns (err: Option<Error>)
      modifies this
      ensures err == if old(timeChanClosed) then Some(Fault) else None
      ensures timeChanClosed
      ensures shortName == old(shortName) && chunkSize == old(chunkSize) && chunkOrigin == old(chunkOrigin)
      ensures recordings == old(recordings) && timeSlot == old(timeSlot)
    {
      if timeChanClosed {
        return Some(Fault);
      }
      timeChanClosed := true;
      return None;
    }
  }

  /**
   * newCanvasDiskReader: lists the recordings, fails when the directory cannot be read or holds
   * no recording, and otherwise queues the start time of the first recording for the replay.
   */
  method NewDiskReader(shortName: string, dir: Option<seq<FileEntry>>, now: int) returns (r: Result<DiskReader>)
    ensures r.Err? <==> (dir.None? ||
      ScanFiles(Listing(NoSize, NoSize, [], false), ScanAll(RecordingFiles(dir.value)), now).recs == [])
    ensures r.Err? ==> r == Err(NotFound)
    ensures r.Ok? ==> var st := ScanFiles(Listing(NoSize, NoSize, [], false), ScanAll(RecordingFiles(dir.value)), now);
      fresh(r.value) && r.value.shortName == shortName && r.value.recordings == st.recs &&
      r.value.chunkSize == st.size && r.value.chunkOrigin == st.origin &&
      r.value.timeSlot == Some(st.recs[0].startTime) && !r.value.timeChanClosed
  {
    var cdr := new DiskReader(shortName);
    var recs := cdr.RefreshRecordings(dir, now);
    if recs.Err? || |recs.value| == 0 {
      return Err(NotFound);
    }
    cdr.recordings := recs.value;
    var _ := cdr.SetReplayTime(recs.value[0].startTime);
    return Ok(cdr);
  }
}
