/** utility.go: floor and ceiling division, palette and image comparison, image copies and the
    RGBA to BGRA conversion used for display. */
module Utility {
  import opened Geometry
  import opened Colors
  import opened Bytes
  import opened Images
  import opened Results
  import Arith

  // ---------------------------------------------------------------------------------------------
  // Go integer division

  function Abs(x: int): nat { if x < 0 then -x else x }

  /** Go's `a / b`: the quotient truncated toward zero. */
  function GoDiv(a: int, b: int): int
    requires b != 0
  {
    if (a < 0) == (b < 0) then Abs(a) / Abs(b) else -(Abs(a) / Abs(b))
  }

  /** Go's `a % b`: the remainder that goes with GoDiv; it has the sign of a. */
  function GoRem(a: int, b: int): int
    requires b != 0
  {
    a - b * GoDiv(a, b)
  }

  /** `(a ^ b) < 0`: in two's complement the XOR has its sign bit set exactly when the signs differ. */
  predicate SignsDiffer(a: int, b: int) { (a < 0) != (b < 0) }

  lemma {:induction false} GoDivRem(a: int, b: int)
    requires b != 0
    ensures a == b * GoDiv(a, b) + GoRem(a, b)
    ensures Abs(GoRem(a, b)) < Abs(b)
    ensures GoRem(a, b) == 0 || ((GoRem(a, b) < 0) == (a < 0))
  {
    var x: int, y: int := Abs(a), Abs(b);
    var q: int, r: int := x / y, x % y;
    assert x == y * q + r && 0 <= r < y;
    // b * GoDiv(a, b) is y*q with the sign of a, so the remainder is r with the sign of a.
    SignedProduct(b, GoDiv(a, b), y, q, a < 0);
  }

  /** b*g for b = ±y and g = ±q, the signs of b and g agreeing unless neg. */
  lemma SignedProduct(b: int, g: int, y: int, q: int, neg: bool)
    requires y == (if b < 0 then -b else b)
    requires g == (if neg == (b < 0) then q else -q)
    ensures b * g == if neg then -(y * q) else y * q
  {
    Arith.MulNegLeft(y, q);
  }

  /** divideFloor (utility.go:63-71). */
  function DivideFloor(a: int, b: int): int
    requires b != 0
  {
    var temp := GoDiv(a, b);
    if SignsDiffer(a, b) && GoRem(a, b) != 0 then temp - 1 else temp
  }

  /** divideCeil (utility.go:74-82). */
  function DivideCeil(a: int, b: int): int
    requires b != 0
  {
    var temp := GoDiv(a, b);
    if !SignsDiffer(a, b) && GoRem(a, b) != 0 then temp + 1 else temp
  }

  /** q is the greatest integer not above a/b (stated without division: multiply through by b). */
  predicate IsFloorQuotient(a: int, b: int, q: int) {
    if b > 0 then q * b <= a < q * b + b else q * b >= a > q * b + b
  }

  /** q is the least integer not below a/b. */
  predicate IsCeilQuotient(a: int, b: int, q: int) {
    if b > 0 then q * b - b < a <= q * b else q * b - b > a >= q * b
  }

  lemma {:induction false} DivideFloorIsFloor(a: int, b: int)
    requires b != 0
    ensures IsFloorQuotient(a, b, DivideFloor(a, b))
  {
    GoDivRem(a, b);
    var t, r := GoDiv(a, b), GoRem(a, b);
    if SignsDiffer(a, b) && r != 0 {
      assert (t - 1) * b == t * b - b;
    }
  }

  lemma {:induction false} DivideCeilIsCeil(a: int, b: int)
    requires b != 0
    ensures IsCeilQuotient(a, b, DivideCeil(a, b))
  {
    GoDivRem(a, b);
    var t, r := GoDiv(a, b), GoRem(a, b);
    if !SignsDiffer(a, b) && r != 0 {
      assert (t + 1) * b == t * b + b;
    }
  }

  /** The characterisations pin the quotient down: there is only one floor and one ceiling. */
  lemma {:induction false} QuotientsUnique(a: int, b: int, q: int, q': int)
    requires b != 0
    ensures IsFloorQuotient(a, b, q) && IsFloorQuotient(a, b, q') ==> q == q'
    ensures IsCeilQuotient(a, b, q) && IsCeilQuotient(a, b, q') ==> q == q'
  {
    if q < q' {
      Arith.MulLeRight(q + 1, q', if b > 0 then b else -b);
      assert (q + 1) * b == q * b + b;
      assert q' * b - b == (q' - 1) * b;
      if b < 0 {
        assert (q + 1) * -b <= q' * -b;
      }
    } else if q' < q {
      Arith.MulLeRight(q' + 1, q, if b > 0 then b else -b);
      assert (q' + 1) * b == q' * b + b;
      assert q * b - b == (q - 1) * b;
    }
  }

  /** Floor and ceiling are mirror images: divideFloor(a, b) == -divideCeil(-a, b). */
  lemma {:induction false} FloorIsNegatedCeil(a: int, b: int)
    requires b != 0
    ensures DivideFloor(a, b) == -DivideCeil(-a, b)
  {
    DivideFloorIsFloor(a, b);
    DivideCeilIsCeil(-a, b);
    var f, c := DivideFloor(a, b), DivideCeil(-a, b);
    NegatedCeilIsFloor(a, b, c);
    QuotientsUnique(a, b, f, -c);
  }

  /** Negating a ceiling quotient of -a gives a floor quotient of a. */
  lemma NegatedCeilIsFloor(a: int, b: int, c: int)
    requires b != 0 && IsCeilQuotient(-a, b, c)
    ensures IsFloorQuotient(a, b, -c)
  {
    assert (-c) * b == -(c * b);
  }

  /** The ceiling exceeds the floor by one exactly when b does not divide a. */
  lemma {:induction false} CeilMinusFloor(a: int, b: int)
    requires b != 0
    ensures DivideCeil(a, b) - DivideFloor(a, b) == if DivideFloor(a, b) * b == a then 0 else 1
  {
    DivideFloorIsFloor(a, b);
    DivideCeilIsCeil(a, b);
    var f, c := DivideFloor(a, b), DivideCeil(a, b);
    if f * b == a {
      assert IsCeilQuotient(a, b, f) by { assert f * b - b == a - b; }
      QuotientsUnique(a, b, f, c);
    } else {
      assert IsCeilQuotient(a, b, f + 1) by { assert (f + 1) * b == f * b + b; }
      QuotientsUnique(a, b, f + 1, c);
    }
  }

  /** A table row follows from the characterisation: the wanted value is the quotient. */
  lemma FloorRow(a: int, b: int, want: int)
    requires b != 0 && IsFloorQuotient(a, b, want)
    ensures DivideFloor(a, b) == want
  {
    DivideFloorIsFloor(a, b);
    QuotientsUnique(a, b, want, DivideFloor(a, b));
  }

  lemma CeilRow(a: int, b: int, want: int)
    requires b != 0 && IsCeilQuotient(a, b, want)
    ensures DivideCeil(a, b) == want
  {
    DivideCeilIsCeil(a, b);
    QuotientsUnique(a, b, want, DivideCeil(a, b));
  }

  /** The rows of the divideFloor table with a positive divisor (utility_test.go:25-39). */
  lemma DivideFloorTablePositive()
    ensures DivideFloor(-10, 1) == -10 && DivideFloor(-1, 1) == -1 && DivideFloor(0, 1) == 0 && DivideFloor(1, 1) == 1 && DivideFloor(10, 1) == 10
    ensures DivideFloor(-10, 2) == -5 && DivideFloor(-1, 2) == -1 && DivideFloor(0, 2) == 0 && DivideFloor(1, 2) == 0 && DivideFloor(10, 2) == 5
    ensures DivideFloor(-10, 3) == -4 && DivideFloor(-1, 3) == -1 && DivideFloor(0, 3) == 0 && DivideFloor(1, 3) == 0 && DivideFloor(10, 3) == 3
  {
    FloorRow(-10, 1, -10); FloorRow(-1, 1, -1); FloorRow(0, 1, 0); FloorRow(1, 1, 1); FloorRow(10, 1, 10);
    FloorRow(-10, 2, -5); FloorRow(-1, 2, -1); FloorRow(0, 2, 0); FloorRow(1, 2, 0); FloorRow(10, 2, 5);
    FloorRow(-10, 3, -4); FloorRow(-1, 3, -1); FloorRow(0, 3, 0); FloorRow(1, 3, 0); FloorRow(10, 3, 3);
  }

  /** The rows of the divideFloor table with a negative divisor (utility_test.go:40-54). */
  lemma DivideFloorTableNegative()
    ensures DivideFloor(-10, -1) == 10 && DivideFloor(-1, -1) == 1 && DivideFloor(0, -1) == 0 && DivideFloor(1, -1) == -1 && DivideFloor(10, -1) == -10
    ensures DivideFloor(-10, -2) == 5 && DivideFloor(-1, -2) == 0 && DivideFloor(0, -2) == 0 && DivideFloor(1, -2) == -1 && DivideFloor(10, -2) == -5
    ensures DivideFloor(-10, -3) == 3 && DivideFloor(-1, -3) == 0 && DivideFloor(0, -3) == 0 && DivideFloor(1, -3) == -1 && DivideFloor(10, -3) == -4
  {
    FloorRow(-10, -1, 10); FloorRow(-1, -1, 1); FloorRow(0, -1, 0); FloorRow(1, -1, -1); FloorRow(10, -1, -10);
    FloorRow(-10, -2, 5); FloorRow(-1, -2, 0); FloorRow(0, -2, 0); FloorRow(1, -2, -1); FloorRow(10, -2, -5);
    FloorRow(-10, -3, 3); FloorRow(-1, -3, 0); FloorRow(0, -3, 0); FloorRow(1, -3, -1); FloorRow(10, -3, -4);
  }

  /** The rows of the divideCeil table with a positive divisor (utility_test.go:68-82). */
  lemma DivideCeilTablePositive()
    ensures DivideCeil(-10, 1) == -10 && DivideCeil(-1, 1) == -1 && DivideCeil(0, 1) == 0 && DivideCeil(1, 1) == 1 && DivideCeil(10, 1) == 10
    ensures DivideCeil(-10, 2) == -5 && DivideCeil(-1, 2) == 0 && DivideCeil(0, 2) == 0 && DivideCeil(1, 2) == 1 && DivideCeil(10, 2) == 5
    ensures DivideCeil(-10, 3) == -3 && DivideCeil(-1, 3) == 0 && DivideCeil(0, 3) == 0 && DivideCeil(1, 3) == 1 && DivideCeil(10, 3) == 4
  {
    CeilRow(-10, 1, -10); CeilRow(-1, 1, -1); CeilRow(0, 1, 0); CeilRow(1, 1, 1); CeilRow(10, 1, 10);
    CeilRow(-10, 2, -5); CeilRow(-1, 2, 0); CeilRow(0, 2, 0); CeilRow(1, 2, 1); CeilRow(10, 2, 5);
    CeilRow(-10, 3, -3); CeilRow(-1, 3, 0); CeilRow(0, 3, 0); CeilRow(1, 3, 1); CeilRow(10, 3, 4);
  }

  /** The rows of the divideCeil table with a negative divisor (utility_test.go:83-97). */
  lemma DivideCeilTableNegative()
    ensures DivideCeil(-10, -1) == 10 && DivideCeil(-1, -1) == 1 && DivideCeil(0, -1) == 0 && DivideCeil(1, -1) == -1 && DivideCeil(10, -1) == -10
    ensures DivideCeil(-10, -2) == 5 && DivideCeil(-1, -2) == 1 && DivideCeil(0, -2) == 0 && DivideCeil(1, -2) == 0 && DivideCeil(10, -2) == -5
    ensures DivideCeil(-10, -3) == 4 && DivideCeil(-1, -3) == 1 && DivideCeil(0, -3) == 0 && DivideCeil(1, -3) == 0 && DivideCeil(10, -3) == -3
  {
    CeilRow(-10, -1, 10); CeilRow(-1, -1, 1); CeilRow(0, -1, 0); CeilRow(1, -1, -1); CeilRow(10, -1, -10);
    CeilRow(-10, -2, 5); CeilRow(-1, -2, 1); CeilRow(0, -2, 0); CeilRow(1, -2, 0); CeilRow(10, -2, -5);
    CeilRow(-10, -3, 4); CeilRow(-1, -3, 1); CeilRow(0, -3, 0); CeilRow(1, -3, 0); CeilRow(10, -3, -3);
  }

  // ---------------------------------------------------------------------------------------------
  // Palettes and images

  /** isPaletteEqual (utility.go:85-99): walks the palettes from index k on and compares the
      RGBA() values of corresponding entries. */
  function PaletteEqualFrom(pal1: seq<Color>, pal2: seq<Color>, k: nat): (r: bool)
    requires |pal1| == |pal2| && k <= |pal1|
    ensures r <==> pal1[k..] == pal2[k..]
    decreases |pal1| - k
  {
    if k == |pal1| then true
    else if pal1[k] != pal2[k] then false
    else
      var r := PaletteEqualFrom(pal1, pal2, k + 1);
      assert pal1[k..] == [pal1[k]] + pal1[k + 1..] && pal2[k..] == [pal2[k]] + pal2[k + 1..];
      r
  }

  function IsPaletteEqual(pal1: seq<Color>, pal2: seq<Color>): (r: bool)
    ensures r <==> |pal1| == |pal2| && forall k :: 0 <= k < |pal1| ==> pal1[k] == pal2[k]
  {
    if |pal1| != |pal2| then false
    else
      var r := PaletteEqualFrom(pal1, pal2, 0);
      assert pal1[0..] == pal1 && pal2[0..] == pal2;
      r
  }

  lemma PaletteEqualityIsEquivalence(p: seq<Color>, q: seq<Color>)
    ensures IsPaletteEqual(p, p)
    ensures IsPaletteEqual(p, q) == IsPaletteEqual(q, p)
  {
  }

  /** Bytes a row of pixels occupies. */
  function RowWidth(img: Image): int
    requires !img.RectImage?
  {
    img.Span(img.rect.Dx())
  }

  /** Row y of the image: the RowWidth bytes starting y strides into the buffer. */
  function Row(img: Image, y: int): (row: seq<Byte>)
    requires img.WellFormed() && !img.RectImage? && 0 <= y < img.rect.Dy()
    ensures |row| == RowWidth(img)
    ensures img.RGBA? ==> |row| % 4 == 0
  {
    Arith.MulLeRight(y, img.rect.Dy() - 1, img.stride);
    Arith.MulNonneg(y, img.stride);
    Arith.Mod4Mul(img.rect.Dx());
    img.pix[y * img.stride .. y * img.stride + RowWidth(img)]
  }

  /** Row y lies y strides into the buffer. */
  lemma RowAt(img: Image, y: int)
    requires img.WellFormed() && !img.RectImage? && 0 <= y < img.rect.Dy()
    ensures 0 <= y * img.stride && y * img.stride + RowWidth(img) <= |img.pix|
    ensures Row(img, y) == img.pix[y * img.stride .. y * img.stride + RowWidth(img)]
  {
    Arith.MulLeRight(y, img.rect.Dy() - 1, img.stride);
    Arith.MulNonneg(y, img.stride);
  }

  /** Rows y .. Dy-1 of a and b agree (b has a's rectangle). */
  function RowsEqualFrom(a: Image, b: Image, y: nat): (r: bool)
    requires a.WellFormed() && b.WellFormed() && !a.RectImage? && !b.RectImage?
    requires a.Bpp() == b.Bpp() && a.rect == b.rect && !a.rect.Empty()
    ensures r <==> forall y' :: y <= y' < a.rect.Dy() ==> Row(a, y') == Row(b, y')
    decreases a.rect.Dy() - y
  {
    if y >= a.rect.Dy() then true
    else Row(a, y) == Row(b, y) && RowsEqualFrom(a, b, y + 1)
  }

  /** The kinds, rectangles and palettes compareImages checks before its row loop. */
  predicate SameShape(a: Image, b: Image) {
    && !a.RectImage? && a.RGBA? == b.RGBA? && a.Paletted? == b.Paletted?
    && a.rect.Eq(b.rect)
    && (a.Paletted? ==> IsPaletteEqual(a.palette, b.palette))
  }

  /** The row loop runs a.Dy times and slices b's buffer y strides of b in; for an empty a of
      width 0 and an empty b of another shape that start passes the end of b's buffer. */
  predicate RowsOverrun(a: Image, b: Image)
    requires !a.RectImage? && !b.RectImage?
  {
    a.rect.Dy() > 0 && (a.rect.Dy() - 1) * b.stride > |b.pix|
  }

  /** compareImages (utility.go:186-231). Rectangles are compared with Eq, so two empty rectangles
      of different shapes match; the row loop then still runs a.Dy times over rows of a's width 0,
      which panics once its start in b's buffer passes the end of that buffer. */
  function CompareImages(a: Image, b: Image): (r: Result<bool>)
    requires a.WellFormed() && b.WellFormed()
    ensures r.Err? ==> r == Err(Fault)
    ensures r.Err? <==> SameShape(a, b) && a.rect.Empty() && !b.RectImage? && RowsOverrun(a, b)
    ensures r.Ok? ==> (r.value <==>
      && SameShape(a, b)
      && (!a.rect.Empty() ==> forall y :: 0 <= y < a.rect.Dy() ==> Row(a, y) == Row(b, y)))
  {
    if a.RectImage? || a.RGBA? != b.RGBA? || a.Paletted? != b.Paletted? then Ok(false)
    else if !a.rect.Eq(b.rect) then Ok(false)
    else if a.Paletted? && !IsPaletteEqual(a.palette, b.palette) then Ok(false)
    else if a.rect.Empty() then (if RowsOverrun(a, b) then Err(Fault) else Ok(true))
    else Ok(RowsEqualFrom(a, b, 0))
  }

  /** Images over the same rectangle never make compareImages panic. */
  lemma CompareImagesSameRect(a: Image, b: Image)
    requires a.WellFormed() && b.WellFormed() && !a.RectImage? && !b.RectImage? && a.rect == b.rect
    ensures CompareImages(a, b).Ok?
  {
    if b.rect.Dy() > 0 {
      assert (b.rect.Dy() - 1) * b.stride <= (b.rect.Dy() - 1) * b.stride + b.Span(b.rect.Dx());
    }
  }

  /** Two empty paletted images of different shapes: Rect(0,0,0,2) against Rect(0,0,1,0). The
      second row's slice of b starts at 1 in an empty buffer, and compareImages panics. */
  lemma CompareEmptyShapesPanics(p: seq<Color>)
    ensures CompareImages(NewPaletted(MakeRect(0, 0, 0, 2), p), NewPaletted(MakeRect(0, 0, 1, 0), p)) == Err(Fault)
  {
    var a, b := NewPaletted(MakeRect(0, 0, 0, 2), p), NewPaletted(MakeRect(0, 0, 1, 0), p);
    assert a.rect == Rect(Point(0, 0), Point(0, 2)) && b.rect == Rect(Point(0, 0), Point(1, 0));
    PaletteEqualityIsEquivalence(p, p);
  }

  /** compareImages is reflexive on the kinds it supports. */
  lemma CompareImagesReflexive(a: Image)
    requires a.WellFormed() && !a.RectImage?
    ensures CompareImages(a, a) == Ok(true)
  {
    CompareImagesSameRect(a, a);
  }

  // ---------------------------------------------------------------------------------------------
  // Reduced copies

  /** Go's built-in copy of n bytes from src[from..] to dst[to..]. */
  method CopyBytes(dst: array<Byte>, to: nat, src: seq<Byte>, from: nat, n: nat)
    requires to + n <= dst.Length && from + n <= |src|
    modifies dst
    ensures dst[..to] == old(dst[..to]) && dst[to + n..] == old(dst[to + n..])
    ensures dst[to..to + n] == src[from..from + n]
  {
    for j := 0 to n
      invariant forall k :: 0 <= k < to ==> dst[k] == old(dst[k])
      invariant forall k :: to + n <= k < dst.Length ==> dst[k] == old(dst[k])
      invariant forall k :: to <= k < to + j ==> dst[k] == src[from + (k - to)]
    {
      dst[to + j] := src[from + j];
    }
    assert dst[..to] == old(dst[..to]);
    assert dst[to + n..] == old(dst[to + n..]);
    assert dst[to..to + n] == src[from..from + n];
  }

  /** copyImage (utility.go:102-126): a fresh buffer of the same length holding the same bytes, with
      the same rectangle, stride and palette; an image kind other than RGBA and Paletted is refused. */
  method CopyImage(img: Image) returns (r: Result<Image>)
    ensures img.RectImage? <==> r == Err(IncompatibleImage)
    ensures !img.RectImage? ==> r == Ok(img)
  {
    if img.RectImage? {
      return Err(IncompatibleImage);
    }
    var buf := new Byte[|img.pix|](_ => 0);
    CopyBytes(buf, 0, img.pix, 0, |img.pix|);
    assert buf[..] == img.pix by {
      assert buf[..] == buf[0..|img.pix|];
      assert img.pix == img.pix[0..|img.pix|];
    }
    if img.RGBA? {
      return Ok(RGBA(img.rect, img.stride, buf[..]));
    }
    return Ok(Paletted(img.rect, img.stride, buf[..], img.palette));
  }

  /** Rows 0 .. n-1 of img without their padding, one after the other. */
  function Rows(img: Image, n: int): (s: seq<Byte>)
    requires img.WellFormed() && !img.RectImage? && 0 <= n <= img.rect.Dy()
    ensures |s| == n * RowWidth(img)
    decreases n
  {
    if n == 0 then [] else
      var w := RowWidth(img);
      assert (n - 1) * w + w == n * w;
      Rows(img, n - 1) + Row(img, n - 1)
  }

  /** Row y sits at offset y*RowWidth in Rows. */
  lemma {:induction false} RowsRow(img: Image, n: int, y: int)
    requires img.WellFormed() && !img.RectImage? && 0 <= y < n <= img.rect.Dy()
    ensures 0 <= y * RowWidth(img) && y * RowWidth(img) + RowWidth(img) <= n * RowWidth(img)
    ensures Rows(img, n)[y * RowWidth(img) .. y * RowWidth(img) + RowWidth(img)] == Row(img, y)
    decreases n
  {
    var w := RowWidth(img);
    Arith.MulNonneg(y, w);
    Arith.MulLeRight(y + 1, n, w);
    Arith.MulSucc(y, w);
    var front, last := Rows(img, n - 1), Row(img, n - 1);
    assert Rows(img, n) == front + last;
    if y < n - 1 {
      RowsRow(img, n - 1, y);
      SliceFront(front, last, y * w, y * w + w);
    } else {
      SliceBack(front, last);
    }
  }

  /** A slice within the first part of a concatenation. */
  lemma SliceFront<T>(a: seq<T>, b: seq<T>, lo: int, hi: int)
    requires 0 <= lo <= hi <= |a|
    ensures (a + b)[lo..hi] == a[lo..hi]
  {
  }

  /** A slice within a prefix is the slice of the whole. */
  lemma SliceOfPrefix<T>(s: seq<T>, n: int, lo: int, hi: int)
    requires 0 <= lo <= hi <= n <= |s|
    ensures s[..n][lo..hi] == s[lo..hi]
  {
    forall k | 0 <= k < hi - lo ensures s[..n][lo..hi][k] == s[lo..hi][k] {
      assert s[..n][lo + k] == s[lo + k];
    }
  }

  /** The second part of a concatenation, sliced back out. */
  lemma SliceBack<T>(a: seq<T>, b: seq<T>)
    ensures (a + b)[|a| .. |a| + |b|] == b
  {
  }

  /** c is a copy of img without padding: same kind, rectangle and palette, rows of exactly RowWidth
      bytes, and every row equal to the source row. */
  predicate ReducedCopyOf(img: Image, c: Image, rows: int)
    requires img.WellFormed() && !img.RectImage?
  {
    && c.WellFormed() && c.RGBA? == img.RGBA? && c.Paletted? == img.Paletted?
    && c.rect == img.rect && c.stride == RowWidth(img) && |c.pix| == rows * c.stride
    && (c.Paletted? ==> c.palette == img.palette)
    && (forall y :: 0 <= y < img.rect.Dy() ==> Row(c, y) == Row(img, y))
  }

  /** Copies row iy of img into buf at iy*w, behind the rows before it. */
  method CopyRow(img: Image, buf: array<Byte>, w: int, iy: int)
    requires img.WellFormed() && !img.RectImage? && w == RowWidth(img) && 0 <= iy < img.rect.Dy()
    requires iy * w + w <= buf.Length
    requires 0 <= iy * w && buf[..iy * w] == Rows(img, iy)
    modifies buf
    ensures buf[..iy * w + w] == Rows(img, iy + 1)
    ensures buf[iy * w + w..] == old(buf[iy * w + w..])
  {
    var off, from := iy * w, iy * img.stride;
    RowAt(img, iy);
    CopyBytes(buf, off, img.pix, from, w);
    assert buf[..off + w] == buf[..off] + buf[off .. off + w];
  }

  /** One turn of the copy loops: row iy copied behind the rows before it. */
  method CopyNextRow(img: Image, buf: array<Byte>, w: int, iy: int)
    requires img.WellFormed() && !img.RectImage? && w == RowWidth(img) && 0 <= iy < img.rect.Dy()
    requires 0 <= iy * w && iy * w + w <= buf.Length && buf[..iy * w] == Rows(img, iy)
    modifies buf
    ensures 0 <= (iy + 1) * w <= buf.Length && buf[..(iy + 1) * w] == Rows(img, iy + 1)
  {
    Arith.MulSucc(iy, w);
    CopyRow(img, buf, w, iy);
  }

  /** The image of img's kind, rectangle and palette over the unpadded buffer pix of the given
      number of rows, whose first Dy rows are those of img. */
  function ReducedImage(img: Image, pix: seq<Byte>, rows: int): (c: Image)
    requires img.WellFormed() && !img.RectImage? && |pix| == rows * RowWidth(img)
    requires rows >= img.rect.Dy() || RowWidth(img) == 0
    requires img.rect.Dy() * RowWidth(img) <= |pix| && pix[..img.rect.Dy() * RowWidth(img)] == Rows(img, img.rect.Dy())
    ensures ReducedCopyOf(img, c, rows)
  {
    var w := RowWidth(img);
    var c := if img.RGBA? then RGBA(img.rect, w, pix) else Paletted(img.rect, w, pix, img.palette);
    ReducedWellFormed(img, c);
    forall y | 0 <= y < img.rect.Dy() ensures Row(c, y) == Row(img, y) {
      ReducedRow(img, c, y);
    }
    c
  }

  /** An unpadded buffer holding at least Dy rows makes a well-formed image. */
  lemma ReducedWellFormed(img: Image, c: Image)
    requires img.WellFormed() && !img.RectImage? && c.RGBA? == img.RGBA? && !c.RectImage?
    requires c.rect == img.rect && c.stride == RowWidth(img) && img.rect.Dy() * RowWidth(img) <= |c.pix|
    ensures c.WellFormed()
  {
    var w := RowWidth(img);
    if img.rect.Dy() > 0 {
      Arith.MulSucc(img.rect.Dy() - 1, w);
    }
  }

  /** Row y of the unpadded copy is row y of the source. */
  lemma ReducedRow(img: Image, c: Image, y: int)
    requires img.WellFormed() && !img.RectImage? && c.WellFormed() && c.RGBA? == img.RGBA? && !c.RectImage?
    requires c.rect == img.rect && c.stride == RowWidth(img) && 0 <= y < img.rect.Dy()
    requires img.rect.Dy() * RowWidth(img) <= |c.pix| && c.pix[..img.rect.Dy() * RowWidth(img)] == Rows(img, img.rect.Dy())
    ensures Row(c, y) == Row(img, y)
  {
    var w, n := RowWidth(img), img.rect.Dy();
    RowsRow(img, n, y);
    assert RowWidth(c) == w;
    assert Row(c, y) == c.pix[y * w .. y * w + w];
    assert c.pix[..n * w][y * w .. y * w + w] == c.pix[y * w .. y * w + w];
  }

  /** copyImageReduced (utility.go:130-162) with the buffer sized Dy rows of RowWidth bytes. */
  method CopyImageReduced(img: Image) returns (r: Result<Image>)
    requires img.WellFormed()
    ensures img.RectImage? <==> r == Err(IncompatibleImage)
    ensures r.Ok? ==> !img.RectImage? && ReducedCopyOf(img, r.value, img.rect.Dy())
  {
    if img.RectImage? {
      return Err(IncompatibleImage);
    }
    var w := RowWidth(img);
    Arith.MulNonneg(img.rect.Dy(), w);
    var buf := new Byte[img.rect.Dy() * w](_ => 0);
    var iy := 0;
    while iy < img.rect.Dy()
      invariant 0 <= iy <= img.rect.Dy() && 0 <= iy * w <= buf.Length
      invariant buf[..iy * w] == Rows(img, iy)
    {
      Arith.MulLeRight(iy + 1, img.rect.Dy(), w);
      Arith.MulSucc(iy, w);
      CopyNextRow(img, buf, w, iy);
      iy := iy + 1;
    }
    assert buf[..] == buf[..img.rect.Dy() * w];
    return Ok(ReducedImage(img, buf[..], img.rect.Dy()));
  }

  /** The reduced copy compares equal to its source. */
  lemma {:induction false} ReducedCopyCompares(img: Image, c: Image)
    requires img.WellFormed() && !img.RectImage? && ReducedCopyOf(img, c, img.rect.Dy())
    ensures CompareImages(img, c) == Ok(true)
  {
    CompareImagesSameRect(img, c);
    if !img.rect.Empty() {
      forall y | 0 <= y < img.rect.Dy() ensures Row(img, y) == Row(c, y) { }
    }
  }

  /** copyImageReduced exactly as utility.go:130-162 writes it: the buffer holds Dx (not Dy) rows,
      so the copy of row iy slices past its end, a panic, as soon as iy reaches Dx. */
  method CopyImageReducedAsWritten(img: Image) returns (r: Result<Image>)
    requires img.WellFormed()
    ensures img.RectImage? <==> r == Err(IncompatibleImage)
    ensures !img.RectImage? ==> (r == Err(Fault) <==> RowWidth(img) > 0 && img.rect.Dy() > img.rect.Dx())
    ensures r.Ok? ==> !img.RectImage? && ReducedCopyOf(img, r.value, img.rect.Dx())
  {
    if img.RectImage? {
      return Err(IncompatibleImage);
    }
    var w := RowWidth(img);
    Arith.MulNonneg(img.rect.Dx(), w);
    var buf := new Byte[img.rect.Dx() * w](_ => 0);
    var ok := CopyRowsAsWritten(img, buf, w);
    if !ok {
      return Err(Fault);
    }
    assert buf[..][..img.rect.Dy() * w] == buf[..img.rect.Dy() * w];
    return Ok(ReducedImage(img, buf[..], img.rect.Dx()));
  }

  /** The row loop of copyImageReduced as written, over a buffer of Dx rows: it copies every row, or
      it stops (the panic) at the first row past the end of the buffer. */
  method CopyRowsAsWritten(img: Image, buf: array<Byte>, w: int) returns (ok: bool)
    requires img.WellFormed() && !img.RectImage? && w == RowWidth(img) && buf.Length == img.rect.Dx() * w
    modifies buf
    ensures ok <==> !(w > 0 && img.rect.Dy() > img.rect.Dx())
    ensures ok ==> 0 <= img.rect.Dy() * w <= buf.Length && buf[..img.rect.Dy() * w] == Rows(img, img.rect.Dy())
  {
    var iy := 0;
    while iy < img.rect.Dy()
      invariant 0 <= iy <= img.rect.Dy() && 0 <= iy * w <= buf.Length
      invariant w > 0 ==> iy <= img.rect.Dx()
      invariant buf[..iy * w] == Rows(img, iy)
    {
      RowOverruns(iy, img.rect.Dx(), w);
      if iy * w + w > buf.Length {
        return false;
      }
      CopyNextRow(img, buf, w, iy);
      iy := iy + 1;
    }
    return true;
  }

  /** With rows of w bytes in a buffer of dx rows, row iy runs past the end exactly when it is
      row dx of a non-empty row width. */
  lemma RowOverruns(iy: int, dx: int, w: int)
    requires 0 <= iy && 0 <= dx && 0 <= w && (w > 0 ==> iy <= dx)
    ensures iy * w + w > dx * w <==> w > 0 && iy == dx
  {
    Arith.MulSucc(iy, w);
    if iy * w + w > dx * w {
      Arith.MulLtCancel(dx, iy + 1, w);
    } else if w > 0 {
      Arith.MulLeCancel(iy + 1, dx, w);
    }
  }

  // ---------------------------------------------------------------------------------------------
  // Conversion to BGRA

  /** The parts one after the other. */
  function Concat(parts: seq<seq<Byte>>): seq<Byte>
  {
    if |parts| == 0 then [] else Concat(parts[..|parts| - 1]) + parts[|parts| - 1]
  }

  lemma {:induction false} ConcatLength(parts: seq<seq<Byte>>, w: nat)
    requires forall j :: 0 <= j < |parts| ==> |parts[j]| == w
    ensures |Concat(parts)| == |parts| * w
  {
    if |parts| > 0 {
      ConcatLength(parts[..|parts| - 1], w);
    }
  }

  lemma ConcatSnoc(parts: seq<seq<Byte>>, i: int)
    requires 0 <= i < |parts|
    ensures Concat(parts[..i + 1]) == Concat(parts[..i]) + parts[i]
  {
    assert parts[..i + 1][..i] == parts[..i];
  }

  /** A buffer that holds parts 0 .. k-1 and then part k holds parts 0 .. k. */
  lemma PrefixExtend(s: seq<Byte>, lo: int, hi: int, parts: seq<seq<Byte>>, k: int)
    requires 0 <= lo <= hi <= |s| && 0 <= k < |parts|
    requires s[..lo] == Concat(parts[..k]) && s[lo..hi] == parts[k]
    ensures s[..hi] == Concat(parts[..k + 1])
  {
    ConcatSnoc(parts, k);
    assert s[..hi] == s[..lo] + s[lo..hi];
  }

  /** Parts of equal width w: part i sits at offset i*w of the concatenation. */
  lemma {:induction false} ConcatUniform(parts: seq<seq<Byte>>, w: nat, i: int)
    requires forall j :: 0 <= j < |parts| ==> |parts[j]| == w
    requires 0 <= i < |parts|
    ensures |Concat(parts)| == |parts| * w
    ensures 0 <= i * w && i * w + w <= |Concat(parts)| && Concat(parts)[i * w .. i * w + w] == parts[i]
  {
    var n := |parts|;
    Arith.MulNonneg(i, w);
    ConcatLength(parts, w);
    ConcatLength(parts[..n - 1], w);
    if i < n - 1 {
      ConcatUniform(parts[..n - 1], w, i);
      Arith.MulLeRight(i + 1, n - 1, w);
      assert Concat(parts)[i * w .. i * w + w] == Concat(parts[..n - 1])[i * w .. i * w + w];
    }
  }

  /** One pixel's bytes with red (byte 0) and blue (byte 2) exchanged. */
  function Swap4(s: seq<Byte>): (t: seq<Byte>)
    requires |s| == 4
    ensures |t| == 4
  {
    [s[2], s[1], s[0], s[3]]
  }

  /** Swap4 applied to every 4-byte group of s: RGBA order becomes BGRA order. */
  function SwapRB(s: seq<Byte>): (t: seq<Byte>)
    requires |s| % 4 == 0
    ensures |t| == |s|
  {
    if |s| == 0 then [] else SwapRB(s[..|s| - 4]) + Swap4(s[|s| - 4..])
  }

  lemma SwapRBSnoc(s: seq<Byte>, j: int)
    requires 0 <= j && j + 4 <= |s| && j % 4 == 0
    ensures SwapRB(s[..j + 4]) == SwapRB(s[..j]) + Swap4(s[j..j + 4])
  {
    assert s[..j + 4][..j] == s[..j];
    assert s[..j + 4][j..] == s[j..j + 4];
  }

  /** A whole number of groups less one group is still a whole number of groups. */
  lemma Mod4Down(n: int)
    requires n % 4 == 0
    ensures (n - 4) % 4 == 0
  {
  }

  /** Group x of SwapRB(s) is group x of s swapped. */
  lemma {:induction false} SwapRBGroup(s: seq<Byte>, x: int)
    requires |s| % 4 == 0 && 0 <= x && 4 * x + 4 <= |s|
    ensures SwapRB(s)[4 * x .. 4 * x + 4] == Swap4(s[4 * x .. 4 * x + 4])
  {
    var front, last := s[..|s| - 4], s[|s| - 4..];
    Mod4Down(|s|);
    assert SwapRB(s) == SwapRB(front) + Swap4(last);
    if 4 * x + 4 < |s| {
      SwapRBGroup(front, x);
      SliceFront(SwapRB(front), Swap4(last), 4 * x, 4 * x + 4);
      SliceOfPrefix(s, |s| - 4, 4 * x, 4 * x + 4);
    } else {
      SliceBack(SwapRB(front), Swap4(last));
      assert last == s[4 * x .. 4 * x + 4];
    }
  }

  /** The four output bytes of one colour: the high bytes of blue, green, red and alpha. */
  function PixelBGRA(c: Color): (out: seq<Byte>)
    ensures |out| == 4
  {
    [High(c.b), High(c.g), High(c.r), High(c.a)]
  }

  /** Every pixel of the rectangle has a colour (no nil colour, no palette index out of range). */
  ghost predicate ColorsDefined(img: Image)
    requires img.WellFormed()
  {
    forall p: Point :: p.In(img.Bounds()) ==> At(img, p).Some?
  }

  /** The output bytes of the pixel at p (zero where it has no colour, which imageToBGRAArray is
      never asked to convert). */
  function PixelOut(img: Image, p: Point): (out: seq<Byte>)
    requires img.WellFormed()
    ensures |out| == 4
  {
    match At(img, p)
    case Some(c) => PixelBGRA(c)
    case None => [0, 0, 0, 0]
  }

  /** The output of pixels 0 .. n-1 of row y, one part per pixel. */
  function ColorRow(img: Image, y: int, n: int): (parts: seq<seq<Byte>>)
    requires img.WellFormed() && img.Bounds().IsCanon()
    requires 0 <= y < img.Bounds().Dy() && 0 <= n <= img.Bounds().Dx()
    ensures |parts| == n && forall x :: 0 <= x < n ==> |parts[x]| == 4
  {
    var parts := seq(n, x => PixelOut(img, Point(img.Bounds().min.x + x, img.Bounds().min.y + y)));
    assert forall x :: 0 <= x < n ==> |parts[x]| == 4 by {
      forall x | 0 <= x < n ensures |parts[x]| == 4 {
        var out := PixelOut(img, Point(img.Bounds().min.x + x, img.Bounds().min.y + y));
        assert parts[x] == out;
      }
    }
    parts
  }

  /** Part x of a colour row is the output of pixel x. */
  lemma ColorRowAt(img: Image, y: int, n: int, x: int)
    requires img.WellFormed() && img.Bounds().IsCanon()
    requires 0 <= y < img.Bounds().Dy() && 0 <= x < n <= img.Bounds().Dx()
    ensures ColorRow(img, y, n)[x] == PixelOut(img, Point(img.Bounds().min.x + x, img.Bounds().min.y + y))
  {
  }

  /** Output row y through the colour of every pixel. */
  function ColorRowBytes(img: Image, y: int): (row: seq<Byte>)
    requires img.WellFormed() && img.Bounds().IsCanon()
    requires 0 <= y < img.Bounds().Dy()
    ensures |row| == 4 * img.Bounds().Dx()
  {
    ConcatLength(ColorRow(img, y, img.Bounds().Dx()), 4);
    Concat(ColorRow(img, y, img.Bounds().Dx()))
  }

  /** The output rows 0 .. n-1 through the colour of every pixel. */
  function ColorRows(img: Image, n: int): (rows: seq<seq<Byte>>)
    requires img.WellFormed() && img.Bounds().IsCanon()
    requires 0 <= n <= img.Bounds().Dy()
    ensures |rows| == n && forall y :: 0 <= y < n ==> |rows[y]| == 4 * img.Bounds().Dx()
  {
    seq(n, y requires 0 <= y < n => ColorRowBytes(img, y))
  }

  /** The output rows 0 .. n-1 of an RGBA image: its rows with red and blue exchanged. */
  function SwappedRows(img: Image, n: int): (rows: seq<seq<Byte>>)
    requires img.RGBA? && img.WellFormed() && 0 <= n <= img.rect.Dy()
    ensures |rows| == n && forall y :: 0 <= y < n ==> |rows[y]| == 4 * img.rect.Dx()
  {
    seq(n, y requires 0 <= y < n => SwapRB(Row(img, y)))
  }

  /** What imageToBGRAArray returns: Dy rows of 4*Dx bytes, taken from the bytes of an RGBA image and
      from the pixel colours of any other. */
  function BGRA(img: Image): seq<Byte>
    requires img.WellFormed() && img.Bounds().IsCanon()
  {
    if img.RGBA? then Concat(SwappedRows(img, img.rect.Dy()))
    else Concat(ColorRows(img, img.Bounds().Dy()))
  }

  /** Exchanges bytes i and i+2 of a. */
  method SwapGroup(a: array<Byte>, i: nat)
    requires i + 4 <= a.Length
    modifies a
    ensures a[..] == old(a[..])[..i] + Swap4(old(a[..])[i..i + 4]) + old(a[..])[i + 4..]
  {
    ghost var s := a[..];
    a[i], a[i + 2] := a[i + 2], a[i];
    assert a[..i] == s[..i] && a[i..i + 4] == Swap4(s[i..i + 4]) && a[i + 4..] == s[i + 4..];
    assert a[..] == a[..i] + a[i..i + 4] + a[i + 4..];
  }

  /** The buffer after g groups of before[start .. start+n] are swapped. */
  ghost function SwapProgress(before: seq<Byte>, start: nat, g: nat): seq<Byte>
    requires start + 4 * g <= |before|
  {
    before[..start] + SwapRB(before[start..start + 4 * g]) + before[start + 4 * g..]
  }

  lemma SwapProgressStep(before: seq<Byte>, start: nat, g: nat)
    requires start + 4 * g + 4 <= |before|
    ensures var cur, i := SwapProgress(before, start, g), start + 4 * g;
      SwapProgress(before, start, g + 1) == cur[..i] + Swap4(cur[i..i + 4]) + cur[i + 4..]
  {
    var i := start + 4 * g;
    var x, grp, tail := before[..start] + SwapRB(before[start..i]), before[i..i + 4], before[i + 4..];
    SwapProgressSplit(before, start, g);
    SwapProgressNext(before, start, g);
    SliceThree(x, grp, tail);
  }

  /** The buffer after g groups, cut at the next group. */
  lemma SwapProgressSplit(before: seq<Byte>, start: nat, g: nat)
    requires start + 4 * g + 4 <= |before|
    ensures var i := start + 4 * g;
      |before[..start] + SwapRB(before[start..i])| == i &&
      SwapProgress(before, start, g) == (before[..start] + SwapRB(before[start..i])) + before[i..i + 4] + before[i + 4..]
  {
    var i := start + 4 * g;
    assert before[i..] == before[i..i + 4] + before[i + 4..];
  }

  /** The buffer after g + 1 groups: the next group swapped behind the first g. */
  lemma SwapProgressNext(before: seq<Byte>, start: nat, g: nat)
    requires start + 4 * g + 4 <= |before|
    ensures var i := start + 4 * g;
      SwapProgress(before, start, g + 1) == (before[..start] + SwapRB(before[start..i])) + Swap4(before[i..i + 4]) + before[i + 4..]
  {
    var i := start + 4 * g;
    var j := start + 4 * (g + 1);
    assert j == i + 4;
    Arith.Mod4Mul(g + 1);
    var a, b, c, d := before[..start], SwapRB(before[start..i]), Swap4(before[i..i + 4]), before[i + 4..];
    SwapRunLast(before, start, g);
    assert SwapProgress(before, start, g + 1) == a + SwapRB(before[start..j]) + d;
    RegroupThree(a, b, c, d);
  }

  /** A run of g + 1 groups swaps as its first g groups followed by its last. */
  lemma SwapRunLast(before: seq<Byte>, start: nat, g: nat)
    requires start + 4 * g + 4 <= |before|
    ensures var i := start + 4 * g;
      SwapRB(before[start..i + 4]) == SwapRB(before[start..i]) + Swap4(before[i..i + 4])
  {
    var i := start + 4 * g;
    var run := before[start..i + 4];
    assert |run| == 4 * g + 4;
    assert run[..4 * g] == before[start..i];
    assert run[4 * g..4 * g + 4] == before[i..i + 4];
    assert run[..4 * g + 4] == run;
    Arith.Mod4Mul(g);
    SwapRBSnoc(run, 4 * g);
  }

  lemma RegroupThree<T>(a: seq<T>, b: seq<T>, c: seq<T>, d: seq<T>)
    ensures a + (b + c) + d == (a + b) + c + d
  {
  }

  /** The three parts of a concatenation, sliced back out. */
  lemma SliceThree<T>(x: seq<T>, y: seq<T>, z: seq<T>)
    ensures var c := x + y + z;
      c[..|x|] == x && c[|x|..|x| + |y|] == y && c[|x| + |y|..] == z
  {
  }

  /** Exchanges bytes 0 and 2 of each 4-byte group of a[start .. start+n] in place. */
  method SwapRBInPlace(a: array<Byte>, start: nat, n: nat)
    requires start + n <= a.Length && n % 4 == 0
    modifies a
    ensures a[..] == old(a[..start]) + SwapRB(old(a[start..start + n])) + old(a[start + n..])
  {
    ghost var before := a[..];
    ghost var q := n / 4;
    assert n == 4 * q;
    var i := start;
    ghost var g := 0;
    while i <= start + n - 4
      invariant i == start + 4 * g && g <= q
      invariant a[..] == SwapProgress(before, start, g)
    {
      SwapNextGroup(a, before, start, g, i);
      i, g := i + 4, g + 1;
    }
    assert g == q;
  }

  /** One turn of the swap loop: the group at a[i .. i+4] is swapped, taking the buffer from g
      groups swapped to g + 1. */
  method SwapNextGroup(a: array<Byte>, ghost before: seq<Byte>, ghost start: nat, ghost g: nat, i: nat)
    requires i == start + 4 * g && i + 4 <= a.Length == |before| && a[..] == SwapProgress(before, start, g)
    modifies a
    ensures a[..] == SwapProgress(before, start, g + 1)
  {
    ghost var cur := a[..];
    SwapProgressStep(before, start, g);
    SwapGroup(a, i);
    assert a[..] == cur[..i] + Swap4(cur[i..i + 4]) + cur[i + 4..];
  }

  /** Output row iy of an RGBA image, w bytes wide: the row copied into a at off = iy*w, then
      swapped in place. */
  method SwapRowInto(img: Image, a: array<Byte>, iy: int, off: nat, w: nat)
    requires img.RGBA? && img.WellFormed() && 0 <= iy < img.rect.Dy()
    requires w == RowWidth(img) && off == iy * w && off + w <= a.Length
    modifies a
    ensures a[..off] == old(a[..off])
    ensures a[off .. off + w] == SwapRB(Row(img, iy))
  {
    var from := iy * img.stride;
    RowAt(img, iy);
    CopyBytes(a, off, img.pix, from, w);
    assert a[off .. off + w] == Row(img, iy);
    SwapRBSection(a, off, w);
  }

  /** SwapRBInPlace seen from its section: the bytes before it are kept and the section swapped. */
  method SwapRBSection(a: array<Byte>, start: nat, n: nat)
    requires start + n <= a.Length && n % 4 == 0
    modifies a
    ensures a[..start] == old(a[..start])
    ensures a[start..start + n] == SwapRB(old(a[start..start + n]))
  {
    ghost var x, y, z := a[..start], a[start..start + n], a[start + n..];
    SwapRBInPlace(a, start, n);
    SliceThree(x, SwapRB(y), z);
  }

  /** Writes the output bytes of colour c at a[i .. i+4], behind a[start .. i]. */
  method PutPixel(a: array<Byte>, start: nat, i: nat, c: Color)
    requires start <= i && i + 4 <= a.Length
    modifies a
    ensures a[..start] == old(a[..start])
    ensures a[start..i + 4] == old(a[start..i]) + PixelBGRA(c)
  {
    a[i] := High(c.b);
    a[i + 1] := High(c.g);
    a[i + 2] := High(c.r);
    a[i + 3] := High(c.a);
  }

  /** Pixels min.x .. x1-1 of the image's row iy (absolute coordinates) have a colour. */
  ghost predicate RowDefined(img: Image, iy: int, x1: int)
    requires img.WellFormed()
  {
    forall ix | img.Bounds().min.x <= ix < x1 :: At(img, Point(ix, iy)).Some?
  }

  /** Rows min.y .. y1-1 of the image have a colour at every pixel. */
  ghost predicate RowsDefined(img: Image, y1: int)
    requires img.WellFormed()
  {
    forall iy | img.Bounds().min.y <= iy < y1 :: RowDefined(img, iy, img.Bounds().max.x)
  }

  /** Every pixel has a colour exactly when every row has. */
  lemma ColorsDefinedRows(img: Image)
    requires img.WellFormed()
    ensures ColorsDefined(img) <==> RowsDefined(img, img.Bounds().max.y)
  {
    var b := img.Bounds();
    if RowsDefined(img, b.max.y) {
      forall p: Point | p.In(b) ensures At(img, p).Some? {
        assert RowDefined(img, p.y, b.max.x);
        assert p == Point(p.x, p.y);
      }
    }
  }

  /** A defined pixel at column x1 extends a defined row prefix by one. */
  lemma RowDefinedNext(img: Image, iy: int, x1: int)
    requires img.WellFormed() && RowDefined(img, iy, x1) && At(img, Point(x1, iy)).Some?
    ensures RowDefined(img, iy, x1 + 1)
  {
  }

  /** Output row y through pixel colours, written into a from offset start on; false at the first
      pixel without a colour, where the source panics. */
  method ColorRowInto(img: Image, a: array<Byte>, y: int, start: int) returns (ok: bool)
    requires img.WellFormed() && img.Bounds().IsCanon()
    requires 0 <= y < img.Bounds().Dy()
    requires 0 <= start && start + 4 * img.Bounds().Dx() <= a.Length
    modifies a
    ensures ok <==> RowDefined(img, img.Bounds().min.y + y, img.Bounds().max.x)
    ensures ok ==> a[..start] == old(a[..start])
    ensures ok ==> a[start .. start + 4 * img.Bounds().Dx()] == ColorRowBytes(img, y)
  {
    var rect := img.Bounds();
    ghost var iy := rect.min.y + y;
    ghost var row := ColorRow(img, y, rect.Dx());
    var i := start;
    var x := 0;
    while x < rect.Dx()
      invariant 0 <= x <= rect.Dx() && i == start + 4 * x
      invariant RowDefined(img, iy, rect.min.x + x)
      invariant a[..start] == old(a[..start])
      invariant a[start..i] == Concat(row[..x])
    {
      var defined := ColorPixelInto(img, a, y, x, start, i, row);
      if !defined {
        assert At(img, Point(rect.min.x + x, iy)).None?;
        return false;
      }
      RowDefinedNext(img, iy, rect.min.x + x);
      i, x := i + 4, x + 1;
    }
    assert x == rect.Dx() && rect.min.x + x == rect.max.x && row[..x] == row;
    return true;
  }

  /** One turn of ColorRowInto: the pixel at column x of output row y goes to a[i .. i+4], or false
      when it has no colour. */
  method ColorPixelInto(img: Image, a: array<Byte>, y: int, x: int, start: nat, i: nat,
                        ghost row: seq<seq<Byte>>) returns (ok: bool)
    requires img.WellFormed() && img.Bounds().IsCanon()
    requires 0 <= y < img.Bounds().Dy() && 0 <= x < img.Bounds().Dx()
    requires row == ColorRow(img, y, img.Bounds().Dx())
    requires start <= i && i + 4 <= a.Length && a[start..i] == Concat(row[..x])
    modifies a
    ensures ok <==> At(img, Point(img.Bounds().min.x + x, img.Bounds().min.y + y)).Some?
    ensures ok ==> a[..start] == old(a[..start])
    ensures ok ==> a[start..i + 4] == Concat(row[..x + 1])
  {
    var rect := img.Bounds();
    var p := Point(rect.min.x + x, rect.min.y + y);
    var c := At(img, p);
    if c.None? {
      return false;
    }
    ColorRowAt(img, y, rect.Dx(), x);
    PutPixel(a, start, i, c.value);
    ConcatSnoc(row, x);
    return true;
  }

  /** The RGBA branch of imageToBGRAArray: every row swapped into a. */
  method SwappedRowsInto(img: Image, a: array<Byte>)
    requires img.RGBA? && img.WellFormed() && a.Length == img.rect.Dy() * RowWidth(img)
    modifies a
    ensures a[..] == Concat(SwappedRows(img, img.rect.Dy()))
  {
    var w := RowWidth(img);
    ghost var rows := SwappedRows(img, img.rect.Dy());
    var i := 0;
    for iy := 0 to img.rect.Dy()
      invariant 0 <= i <= a.Length && i == iy * w
      invariant a[..i] == Concat(rows[..iy])
    {
      SwapNextRow(img, a, rows, iy, i, w);
      i := i + w;
    }
    assert rows[..img.rect.Dy()] == rows;
    assert a[..] == a[..i];
  }

  /** One turn of SwappedRowsInto: output row iy goes to a[i .. i+w], behind the rows before it. */
  method SwapNextRow(img: Image, a: array<Byte>, ghost rows: seq<seq<Byte>>, iy: int, i: nat, w: nat)
    requires img.RGBA? && img.WellFormed() && w == RowWidth(img) && a.Length == img.rect.Dy() * w
    requires rows == SwappedRows(img, img.rect.Dy()) && 0 <= iy < img.rect.Dy() && i == iy * w
    requires a[..i] == Concat(rows[..iy])
    modifies a
    ensures i + w <= a.Length && i + w == (iy + 1) * w
    ensures a[..i + w] == Concat(rows[..iy + 1])
  {
    Arith.MulLeRight(iy + 1, img.rect.Dy(), w);
    Arith.MulSucc(iy, w);
    SwapRowInto(img, a, iy, i, w);
    PrefixExtend(a[..], i, i + w, rows, iy);
  }

  /** The default branch of imageToBGRAArray: every pixel's colour written into a; false when a pixel
      has no colour, where the source panics. */
  method ColorRowsInto(img: Image, a: array<Byte>) returns (ok: bool)
    requires img.WellFormed() && img.Bounds().IsCanon()
    requires a.Length == img.Bounds().Dy() * (4 * img.Bounds().Dx())
    modifies a
    ensures ok <==> ColorsDefined(img)
    ensures ok ==> a[..] == Concat(ColorRows(img, img.Bounds().Dy()))
  {
    var rect := img.Bounds();
    var w := 4 * rect.Dx();
    ghost var rows := ColorRows(img, rect.Dy());
    ColorsDefinedRows(img);
    var i := 0;
    for y := 0 to rect.Dy()
      invariant 0 <= y * w <= a.Length && i == y * w
      invariant RowsDefined(img, rect.min.y + y)
      invariant a[..i] == Concat(rows[..y])
    {
      Arith.MulLeRight(y + 1, rect.Dy(), w);
      Arith.MulSucc(y, w);
      Arith.MulNonneg(y + 1, w);
      var defined := ColorRowInto(img, a, y, i);
      if !defined {
        return false;
      }
      PrefixExtend(a[..], i, i + w, rows, y);
      i := i + w;
    }
    assert rows[..rect.Dy()] == rows;
    assert a[..] == a[..rect.Dy() * w];
    return true;
  }

  /** imageToBGRAArray (utility.go:234-270): the BGRA bytes, or the panic of the default branch at a
      pixel without a colour. */
  method ImageToBGRAArray(img: Image) returns (r: Result<seq<Byte>>)
    requires img.WellFormed() && img.Bounds().IsCanon()
    ensures r == if img.RGBA? || ColorsDefined(img) then Ok(BGRA(img)) else Err(Fault)
  {
    var rect := img.Bounds();
    assert rect.Dx() * rect.Dy() * 4 == rect.Dy() * (4 * rect.Dx());
    Arith.MulNonneg(rect.Dy(), 4 * rect.Dx());
    var a := new Byte[rect.Dx() * rect.Dy() * 4](_ => 0);
    if img.RGBA? {
      SwappedRowsInto(img, a);
    } else {
      var ok := ColorRowsInto(img, a);
      if !ok {
        return Err(Fault);
      }
    }
    return Ok(a[..]);
  }

  /** imageToBGRAArray returns Dx*Dy*4 bytes. */
  lemma BGRALength(img: Image)
    requires img.WellFormed() && img.Bounds().IsCanon()
    ensures |BGRA(img)| == img.Bounds().Dx() * img.Bounds().Dy() * 4
  {
    var b := img.Bounds();
    assert b.Dx() * b.Dy() * 4 == b.Dy() * (4 * b.Dx());
    if img.RGBA? {
      ConcatLength(SwappedRows(img, b.Dy()), 4 * b.Dx());
    } else {
      ConcatLength(ColorRows(img, b.Dy()), 4 * b.Dx());
    }
  }

  /** For an RGBA image, the four output bytes of pixel k = dy*Dx + dx are the pixel's stored bytes
      with bytes 0 and 2 (red and blue) exchanged. */
  lemma RGBAPixelSwapped(img: Image, p: Point)
    requires img.RGBA? && img.WellFormed() && p.In(img.rect)
    ensures var k, o := (p.y - img.rect.min.y) * img.rect.Dx() + (p.x - img.rect.min.x), img.PixOffset(p);
      0 <= o && o + 4 <= |img.pix| && 0 <= 4 * k && 4 * k + 4 <= |BGRA(img)| && BGRA(img)[4 * k .. 4 * k + 4] == Swap4(img.pix[o..o + 4])
  {
    OffsetInBuffer(img, p);
    var dx, dy := p.x - img.rect.min.x, p.y - img.rect.min.y;
    BGRAGroup(img, dy, dx);
    Arith.MulScale4(dy, img.rect.Dx());
  }

  /** The output bytes of pixel (dx, dy) of an RGBA image, located by row and column. */
  lemma BGRAGroup(img: Image, dy: int, dx: int)
    requires img.RGBA? && img.WellFormed() && 0 <= dy < img.rect.Dy() && 0 <= dx < img.rect.Dx()
    ensures var w, s := 4 * img.rect.Dx(), img.stride;
      0 <= dy * w && dy * w + 4 * dx + 4 <= |BGRA(img)| && 0 <= dy * s && dy * s + 4 * dx + 4 <= |img.pix| &&
      BGRA(img)[dy * w + 4 * dx .. dy * w + 4 * dx + 4] == Swap4(img.pix[dy * s + 4 * dx .. dy * s + 4 * dx + 4])
  {
    BGRAInLine(img, dy, dx);
    RowGroup(img, dy, dx);
    var row := Row(img, dy);
    assert |row| == 4 * img.rect.Dx();
    Arith.Mod4Mul(img.rect.Dx());
    SwapRBGroup(row, dx);
  }

  /** The output bytes of pixel (dx, dy) of an RGBA image, found in output row dy. */
  lemma BGRAInLine(img: Image, dy: int, dx: int)
    requires img.RGBA? && img.WellFormed() && 0 <= dy < img.rect.Dy() && 0 <= dx < img.rect.Dx()
    ensures var w := 4 * img.rect.Dx();
      0 <= dy * w && dy * w + 4 * dx + 4 <= |BGRA(img)| && 4 * dx + 4 <= |SwapRB(Row(img, dy))| &&
      BGRA(img)[dy * w + 4 * dx .. dy * w + 4 * dx + 4] == SwapRB(Row(img, dy))[4 * dx .. 4 * dx + 4]
  {
    var w := 4 * img.rect.Dx();
    BGRARow(img, dy);
    assert SwappedRows(img, img.rect.Dy())[dy] == SwapRB(Row(img, dy));
    SliceInSlice(BGRA(img), dy * w, SwapRB(Row(img, dy)), 4 * dx, 4 * dx + 4);
  }

  /** Output row dy of an RGBA image is its row dy swapped. */
  lemma BGRARow(img: Image, dy: int)
    requires img.RGBA? && img.WellFormed() && 0 <= dy < img.rect.Dy()
    ensures var w, out := 4 * img.rect.Dx(), BGRA(img);
      0 <= dy * w && dy * w + w <= |out| && out[dy * w .. dy * w + w] == SwappedRows(img, img.rect.Dy())[dy]
  {
    var rows := SwappedRows(img, img.rect.Dy());
    assert BGRA(img) == Concat(rows);
    ConcatUniform(rows, 4 * img.rect.Dx(), dy);
  }

  /** A slice of a part of a sequence is the slice of the sequence at the shifted bounds. */
  lemma SliceInSlice<T>(s: seq<T>, lo: int, part: seq<T>, a: int, b: int)
    requires 0 <= lo && lo + |part| <= |s| && s[lo .. lo + |part|] == part && 0 <= a <= b <= |part|
    ensures s[lo + a .. lo + b] == part[a..b]
  {
    forall k | 0 <= k < b - a ensures s[lo + a .. lo + b][k] == part[a..b][k] {
      assert part[a + k] == s[lo .. lo + |part|][a + k];
    }
  }

  /** Group x of row y of an RGBA image is the four bytes of pixel (x, y) in the buffer. */
  lemma RowGroup(img: Image, y: int, x: int)
    requires img.RGBA? && img.WellFormed() && 0 <= y < img.rect.Dy() && 0 <= x < img.rect.Dx()
    ensures 0 <= y * img.stride && y * img.stride + 4 * x + 4 <= |img.pix|
    ensures Row(img, y)[4 * x .. 4 * x + 4] == img.pix[y * img.stride + 4 * x .. y * img.stride + 4 * x + 4]
  {
    var start := y * img.stride;
    Arith.MulLeRight(y, img.rect.Dy() - 1, img.stride);
    Arith.MulNonneg(y, img.stride);
    assert RowWidth(img) == 4 * img.rect.Dx();
    var row := img.pix[start .. start + RowWidth(img)];
    assert Row(img, y) == row;
    assert start + RowWidth(img) <= |img.pix|;
    var grp := row[4 * x .. 4 * x + 4];
    forall j | 0 <= j < 4 ensures grp[j] == img.pix[start + 4 * x + j] { }
    assert grp == img.pix[start + 4 * x .. start + 4 * x + 4];
  }

  /** The first n pixels of an RGBA row, swapped, are what the colour path writes for them. */
  lemma {:induction false} SwappedRowPrefix(img: Image, y: int, n: int)
    requires img.RGBA? && img.WellFormed() && 0 <= y < img.rect.Dy() && 0 <= n <= img.rect.Dx()
    ensures 4 * n <= |Row(img, y)| && SwapRB(Row(img, y)[..4 * n]) == Concat(ColorRow(img, y, n))
    decreases n
  {
    var row := Row(img, y);
    if n == 0 {
      assert ColorRow(img, y, 0) == [];
    } else {
      var x := n - 1;
      var parts := ColorRow(img, y, n);
      SwappedRowPrefix(img, y, x);
      assert parts[..x] == ColorRow(img, y, x);
      RGBAPixelOut(img, y, x);
      ColorRowAt(img, y, n, x);
      SwapRBPrefixStep(row, x, ColorRow(img, y, x), parts);
    }
  }

  /** One more group on both sides: when the first x groups swapped are the parts before part x,
      and part x is group x swapped, the first x + 1 groups swapped are all the parts. */
  lemma SwapRBPrefixStep(row: seq<Byte>, x: nat, prev: seq<seq<Byte>>, parts: seq<seq<Byte>>)
    requires 4 * x + 4 <= |row| && |parts| == x + 1 && parts[..x] == prev
    requires SwapRB(row[..4 * x]) == Concat(prev)
    requires parts[x] == Swap4(row[4 * x .. 4 * x + 4])
    ensures SwapRB(row[..4 * x + 4]) == Concat(parts)
  {
    SwapRBSnoc(row, 4 * x);
    ConcatSnoc(parts, x);
    assert parts[..x + 1] == parts;
  }

  /** The colour path's output for pixel x of row y of an RGBA image is group x of the row swapped. */
  lemma RGBAPixelOut(img: Image, y: int, x: int)
    requires img.RGBA? && img.WellFormed() && 0 <= y < img.rect.Dy() && 0 <= x < img.rect.Dx()
    ensures 4 * x + 4 <= |Row(img, y)|
    ensures PixelOut(img, Point(img.rect.min.x + x, img.rect.min.y + y)) == Swap4(Row(img, y)[4 * x .. 4 * x + 4])
  {
    var p := Point(img.rect.min.x + x, img.rect.min.y + y);
    OffsetInBuffer(img, p);
    var o := img.PixOffset(p);
    assert o == y * img.stride + 4 * x;
    RowGroup(img, y, x);
    assert PixelOut(img, p) == Swap4(img.pix[o..o + 4]);
  }

  /** For an RGBA image the byte-swapping branch returns exactly what the colour branch would. */
  lemma RGBAAgreesWithColors(img: Image)
    requires img.RGBA? && img.WellFormed()
    ensures BGRA(img) == Concat(ColorRows(img, img.rect.Dy()))
  {
    var n := img.rect.Dy();
    forall y | 0 <= y < n ensures SwappedRows(img, n)[y] == ColorRows(img, n)[y] {
      SwappedRowPrefix(img, y, img.rect.Dx());
      assert Row(img, y)[..4 * img.rect.Dx()] == Row(img, y);
    }
    assert SwappedRows(img, n) == ColorRows(img, n);
  }
}
