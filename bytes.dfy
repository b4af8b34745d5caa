/**
 * Fixed-width unsigned integers and their byte encodings in either byte order.
 * A value of width `n` bytes is encoded as `n` bytes, least significant first
 * for little endian and most significant first for big endian.
 */
module Bytes {

  type u8 = x: int | 0 <= x < 0x100
  type u16 = x: int | 0 <= x < 0x1_0000
  type u32 = x: int | 0 <= x < 0x1_0000_0000

  /** The byte order a read is performed with (scroll's `Endian` context). */
  datatype Endian = Little | Big

  /** 256 to the power n: the number of distinct values of an n-byte field. */
  function Pow256(n: nat): (r: nat)
    ensures r >= 1
  {
    if n == 0 then 1 else 256 * Pow256(n - 1)
  }

  /** The number whose little-endian encoding is `bs`. */
  function FromLE(bs: seq<u8>): (v: nat)
    ensures v < Pow256(|bs|)
  {
    if |bs| == 0 then 0 else bs[0] + 256 * FromLE(bs[1..])
  }

  /** The low `n` bytes of `v`, least significant first. */
  function ToLE(v: nat, n: nat): (bs: seq<u8>)
    ensures |bs| == n
  {
    if n == 0 then [] else [v % 256] + ToLE(v / 256, n - 1)
  }

  function Reverse(s: seq<u8>): (r: seq<u8>)
    ensures |r| == |s|
  {
    if |s| == 0 then [] else Reverse(s[1..]) + [s[0]]
  }

  /** The value a read of the bytes `bs` produces in byte order `e`. */
  function Decode(bs: seq<u8>, e: Endian): (v: nat)
    ensures v < Pow256(|bs|)
  {
    match e
    case Little => FromLE(bs)
    case Big => FromLE(Reverse(bs))
  }

  /** The `n` bytes that represent `v` in byte order `e`. */
  function Encode(v: nat, n: nat, e: Endian): (bs: seq<u8>)
    ensures |bs| == n
  {
    match e
    case Little => ToLE(v, n)
    case Big => Reverse(ToLE(v, n))
  }

  lemma {:induction false} ReverseReverse(s: seq<u8>)
    ensures Reverse(Reverse(s)) == s
  {
    if |s| > 0 {
      ReverseAppend(Reverse(s[1..]), [s[0]]);
      ReverseReverse(s[1..]);
      assert [s[0]] + s[1..] == s;
    }
  }

  lemma {:induction false} ReverseAppend(a: seq<u8>, b: seq<u8>)
    ensures Reverse(a + b) == Reverse(b) + Reverse(a)
  {
    if |a| == 0 {
      assert a + b == b;
    } else {
      assert (a + b)[1..] == a[1..] + b;
      ReverseAppend(a[1..], b);
    }
  }

  lemma {:induction false} FromToLE(v: nat, n: nat)
    requires v < Pow256(n)
    ensures FromLE(ToLE(v, n)) == v
  {
    if n > 0 {
      FromToLE(v / 256, n - 1);
      assert ToLE(v, n)[1..] == ToLE(v / 256, n - 1);
    }
  }

  lemma {:induction false} ToFromLE(bs: seq<u8>)
    ensures ToLE(FromLE(bs), |bs|) == bs
  {
    if |bs| > 0 {
      var rest := FromLE(bs[1..]);
      assert (bs[0] + 256 * rest) % 256 == bs[0];
      assert (bs[0] + 256 * rest) / 256 == rest;
      ToFromLE(bs[1..]);
      assert [bs[0]] + bs[1..] == bs;
    }
  }

  /** Encoding a value that fits and reading it back yields the value. */
  lemma DecodeEncode(v: nat, n: nat, e: Endian)
    requires v < Pow256(n)
    ensures Decode(Encode(v, n, e), e) == v
  {
    FromToLE(v, n);
    if e == Big {
      ReverseReverse(ToLE(v, n));
    }
  }

  /** Every run of bytes is the encoding of the value read from it. */
  lemma EncodeDecode(bs: seq<u8>, e: Endian)
    ensures Encode(Decode(bs, e), |bs|, e) == bs
  {
    match e
    case Little => ToFromLE(bs);
    case Big =>
      ToFromLE(Reverse(bs));
      ReverseReverse(bs);
  }

  /** Two values of the same width with the same encoding are equal. */
  lemma EncodeInjective(v: nat, w: nat, n: nat, e: Endian)
    requires v < Pow256(n) && w < Pow256(n)
    requires Encode(v, n, e) == Encode(w, n, e)
    ensures v == w
  {
    DecodeEncode(v, n, e);
    DecodeEncode(w, n, e);
  }

  /** The explicit arithmetic of a 4-byte little-endian read. */
  lemma LittleEndianU32(bs: seq<u8>)
    requires |bs| == 4
    ensures Decode(bs, Little)
         == bs[0] as int + 0x100 * bs[1] as int + 0x1_0000 * bs[2] as int + 0x100_0000 * bs[3] as int
  {
    assert FromLE(bs[3..]) == bs[3] by { assert bs[3..][1..] == []; }
    assert FromLE(bs[2..]) == bs[2] + 256 * FromLE(bs[3..]) by { assert bs[2..][1..] == bs[3..]; }
    assert FromLE(bs[1..]) == bs[1] + 256 * FromLE(bs[2..]) by { assert bs[1..][1..] == bs[2..]; }
  }

  /** The explicit arithmetic of a 2-byte little-endian read. */
  lemma LittleEndianU16(bs: seq<u8>)
    requires |bs| == 2
    ensures Decode(bs, Little) == bs[0] as int + 0x100 * bs[1] as int
  {
    assert FromLE(bs[1..]) == bs[1] by { assert bs[1..][1..] == []; }
  }
}
