/** Bytes (Go's uint8) and their little-endian and big-endian groupings. */
module Bytes {
  import Arith
  /** A byte, as an integer so that arithmetic on it stays linear. */
  type Byte = b: int | 0 <= b < 0x100

  /** 256 to the power n: the number of values an n-byte field can hold. */
  function Pow256(n: nat): (p: nat)
    ensures p >= 1 && (n >= 1 ==> p >= 256 && p % 2 == 0)
  {
    if n == 0 then 1 else 256 * Pow256(n - 1)
  }

  /**
   * The n bytes binary.LittleEndian writes for an n-byte integer field holding x converted by
   * Go's intN / uintN conversion: the conversion keeps x modulo 256^n (two's complement for
   * the signed kinds), so one encoder serves both.
   */
  function Put(x: int, n: nat): (bs: seq<Byte>)
    ensures |bs| == n
    decreases n
  {
    if n == 0 then [] else [x % 256] + Put(x / 256, n - 1)
  }

  /** binary.LittleEndian read of an unsigned field. */
  function Unsigned(bs: seq<Byte>): (u: nat)
    ensures u < Pow256(|bs|)
  {
    if |bs| == 0 then 0 else bs[0] + 256 * Unsigned(bs[1..])
  }

  /** binary.LittleEndian read of a signed (two's complement) field. */
  function Signed(bs: seq<Byte>): (v: int)
    ensures |bs| >= 1 ==> 0 <= v + Pow256(|bs|) / 2 < Pow256(|bs|)
  {
    var u := Unsigned(bs);
    if u >= Pow256(|bs|) / 2 then u - Pow256(|bs|) else u
  }

  /** binary.BigEndian read of an unsigned field. */
  function UnsignedBE(bs: seq<Byte>): (u: nat)
    ensures u < Pow256(|bs|)
  {
    if |bs| == 0 then 0 else Unsigned([bs[|bs| - 1]]) + 256 * UnsignedBE(bs[..|bs| - 1])
  }

  /** binary.BigEndian read of a signed field. */
  function SignedBE(bs: seq<Byte>): (v: int)
    ensures |bs| >= 1 ==> 0 <= v + Pow256(|bs|) / 2 < Pow256(|bs|)
  {
    var u := UnsignedBE(bs);
    if u >= Pow256(|bs|) / 2 then u - Pow256(|bs|) else u
  }

  /** The values a Go intN field holds (n bytes). */
  predicate FitsSigned(x: int, n: nat) {
    n >= 1 && 0 <= x + Pow256(n) / 2 < Pow256(n)
  }

  /** Reading back an encoded field gives the value modulo 256^n: the truncating conversion. */
  lemma {:induction false} UnsignedPut(x: int, n: nat)
    ensures Unsigned(Put(x, n)) == x % Pow256(n)
    decreases n
  {
    if n > 0 {
      assert Put(x, n)[1..] == Put(x / 256, n - 1);
      UnsignedPut(x / 256, n - 1);
      ModSplit(x, Pow256(n - 1));
    }
  }

  /** x modulo 256·p splits into its low byte and the rest modulo p. */
  lemma ModSplit(x: int, p: int)
    requires p >= 1
    ensures x % (256 * p) == x % 256 + 256 * ((x / 256) % p)
  {
    var y, u := x / 256, x % 256;
    var q, r := y / p, y % p;
    assert y == p * q + r;
    assert x == 256 * y + u;
    assert 256 * y == (256 * p) * q + 256 * r by {
      assert 256 * (p * q) == (256 * p) * q;
    }
    assert 0 <= 256 * r + u < 256 * p;
    Arith.DivModUnique(x, 256 * p, q, 256 * r + u);
  }

  /** An unsigned value that fits its field comes back unchanged. */
  lemma UnsignedRoundTrip(x: int, n: nat)
    requires 0 <= x < Pow256(n)
    ensures Unsigned(Put(x, n)) == x
  {
    UnsignedPut(x, n);
  }

  /** A signed value that fits its field comes back unchanged. */
  lemma SignedRoundTrip(x: int, n: nat)
    requires FitsSigned(x, n)
    ensures Signed(Put(x, n)) == x
  {
    UnsignedPut(x, n);
    var p := Pow256(n);
    if x < 0 {
      Arith.DivModUnique(x, p, -1, x + p);
    } else {
      Arith.DivModUnique(x, p, 0, x);
    }
  }

  /** Encoding what was read reproduces the bytes: a field has no redundant encodings. */
  lemma {:induction false} PutUnsigned(bs: seq<Byte>)
    ensures Put(Unsigned(bs), |bs|) == bs
  {
    if |bs| > 0 {
      var u := Unsigned(bs[1..]);
      assert (bs[0] + 256 * u) / 256 == u;
      PutUnsigned(bs[1..]);
    }
  }

  /** A read depends only on the bytes of the field, whatever follows them. */
  lemma PutPrefix(x: int, n: nat, rest: seq<Byte>)
    ensures (Put(x, n) + rest)[..n] == Put(x, n)
  {
  }

  /** Two bytes read big-endian: high byte first. */
  lemma UnsignedBE2(hi: Byte, lo: Byte)
    ensures UnsignedBE([hi, lo]) == 256 * hi + lo
  {
    assert [hi, lo][..1] == [hi];
    assert [hi][..0] == [];
  }

  /** Reading a field off the front of a stream: the field, then what follows it. */
  lemma Split(a: seq<Byte>, b: seq<Byte>)
    ensures (a + b)[..|a|] == a && (a + b)[|a|..] == b
  {
  }

  lemma Assoc(a: seq<Byte>, b: seq<Byte>, c: seq<Byte>)
    ensures (a + b) + c == a + (b + c)
  {
  }

  lemma Pow256Values()
    ensures Pow256(2) == 0x1_0000 && Pow256(4) == 0x1_0000_0000 && Pow256(8) == 0x1_0000_0000_0000_0000
  {
  }
}
