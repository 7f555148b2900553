/**
  Byte-level encodings used by the packed object record: lowercase base16
  (section 8 of RFC 4648, as produced by Guava's `BaseEncoding.base16().lowerCase()`),
  unsigned big-endian integers (the byte order of `java.nio.ByteBuffer`),
  two's-complement fixed-width integers (Java `long` and `int`) and Java's
  signed view of a byte.
 */
module Bytes {
  import opened Wrappers

  /** An unsigned octet; Java's signed `byte` is recovered with `Signed`. */
  type byte = x: int | 0 <= x < 256

  /** Java's `int` and `long` value ranges. */
  type int32 = x: int | -0x8000_0000 <= x < 0x8000_0000
  type int64 = x: int | -0x8000_0000_0000_0000 <= x < 0x8000_0000_0000_0000

  /** The value Java sees when it reads the octet `b` as a `byte`. */
  function Signed(b: byte): (v: int)
    ensures -128 <= v < 128
    ensures v % 256 == b
  {
    if b < 128 then b else b - 256
  }

  // ---------------------------------------------------------------------------
  // Base16, lowercase alphabet

  predicate IsHexChar(c: char) {
    ('0' <= c <= '9') || ('a' <= c <= 'f')
  }

  predicate IsLowerHex(s: string) {
    forall i :: 0 <= i < |s| ==> IsHexChar(s[i])
  }

  /** The alphabet's character for the nibble `v`. */
  function HexChar(v: nat): (c: char)
    requires v < 16
    ensures IsHexChar(c)
  {
    if v < 10 then ('0' as int + v) as char else ('a' as int + v - 10) as char
  }

  /** The nibble a character of the alphabet stands for. */
  function HexValue(c: char): (v: nat)
    requires IsHexChar(c)
    ensures v < 16
    ensures HexChar(v) == c
  {
    if c <= '9' then c as int - '0' as int else c as int - 'a' as int + 10
  }

  lemma HexValueOfHexChar(v: nat)
    requires v < 16
    ensures HexValue(HexChar(v)) == v
  {
  }

  /** Two characters per byte, high nibble first. */
  function EncodeHex(bs: seq<byte>): (s: string)
    ensures |s| == 2 * |bs|
    ensures IsLowerHex(s)
  {
    if |bs| == 0 then ""
    else [HexChar(bs[0] / 16), HexChar(bs[0] % 16)] + EncodeHex(bs[1..])
  }

  /** Decoding fails on an odd length or on a character outside the alphabet. */
  function DecodeHex(s: string): (r: Option<seq<byte>>)
    ensures r.Some? ==> 2 * |r.value| == |s|
  {
    if |s| == 0 then Some([])
    else if |s| == 1 || !IsHexChar(s[0]) || !IsHexChar(s[1]) then None
    else
      match DecodeHex(s[2..])
      case None => None
      case Some(rest) => Some([HexValue(s[0]) * 16 + HexValue(s[1])] + rest)
  }

  /** Decoding succeeds exactly on even-length strings over the lowercase alphabet. */
  lemma {:induction false} DecodeHexSucceedsIff(s: string)
    ensures DecodeHex(s).Some? <==> |s| % 2 == 0 && IsLowerHex(s)
    decreases |s|
  {
    if |s| >= 2 {
      DecodeHexSucceedsIff(s[2..]);
      if IsHexChar(s[0]) && IsHexChar(s[1]) && IsLowerHex(s[2..]) {
        assert IsLowerHex(s) by {
          forall i | 0 <= i < |s| ensures IsHexChar(s[i]) {
            if i >= 2 { assert s[i] == s[2..][i - 2]; }
          }
        }
      }
      if IsLowerHex(s) {
        assert IsLowerHex(s[2..]) by {
          forall i | 0 <= i < |s| - 2 ensures IsHexChar(s[2..][i]) {
            assert s[2..][i] == s[i + 2];
          }
        }
      }
    } else if |s| == 1 {
      assert !(|s| % 2 == 0);
    }
  }

  /** Round trip from bytes: decode(encode(bs)) == bs. */
  lemma {:induction false} DecodeEncodeHex(bs: seq<byte>)
    ensures DecodeHex(EncodeHex(bs)) == Some(bs)
    decreases |bs|
  {
    if |bs| > 0 {
      var s := EncodeHex(bs);
      assert s[2..] == EncodeHex(bs[1..]);
      DecodeEncodeHex(bs[1..]);
      HexValueOfHexChar(bs[0] / 16);
      HexValueOfHexChar(bs[0] % 16);
      assert [bs[0]] + bs[1..] == bs;
    }
  }

  /** Round trip from text: every decodable string is re-encoded to itself. */
  lemma {:induction false} EncodeDecodeHex(s: string)
    requires DecodeHex(s).Some?
    ensures EncodeHex(DecodeHex(s).value) == s
    decreases |s|
  {
    if |s| > 0 {
      EncodeDecodeHex(s[2..]);
      var rest := DecodeHex(s[2..]).value;
      var b := HexValue(s[0]) * 16 + HexValue(s[1]);
      assert DecodeHex(s).value == [b] + rest;
      assert ([b] + rest)[1..] == rest;
      assert b / 16 == HexValue(s[0]) && b % 16 == HexValue(s[1]);
      assert s == [s[0], s[1]] + s[2..];
    }
  }

  // ---------------------------------------------------------------------------
  // Unsigned big-endian integers

  function Pow256(n: nat): (r: nat)
    ensures r > 0
  {
    if n == 0 then 1 else 256 * Pow256(n - 1)
  }

  lemma Pow256Widths()
    ensures Pow256(4) == 0x1_0000_0000
    ensures Pow256(8) == 0x1_0000_0000_0000_0000
  {
    assert Pow256(1) == 256;
    assert Pow256(2) == 0x1_0000;
    assert Pow256(3) == 0x100_0000;
    assert Pow256(4) == 0x1_0000_0000;
    assert Pow256(5) == 0x100_0000_0000;
    assert Pow256(6) == 0x1_0000_0000_0000;
    assert Pow256(7) == 0x100_0000_0000_0000;
  }

  /** The `n` octets of `u`, most significant first. */
  function ToBigEndian(u: nat, n: nat): (r: seq<byte>)
    requires u < Pow256(n)
    ensures |r| == n
  {
    if n == 0 then []
    else ToBigEndian(u / 256, n - 1) + [u % 256]
  }

  /** The unsigned value of octets read most significant first. */
  function FromBigEndian(s: seq<byte>): (u: nat)
    ensures u < Pow256(|s|)
  {
    if |s| == 0 then 0
    else
      var hi := FromBigEndian(s[..|s| - 1]);
      assert hi * 256 + s[|s| - 1] < 256 * Pow256(|s| - 1) by {
        assert hi + 1 <= Pow256(|s| - 1);
        assert (hi + 1) * 256 <= Pow256(|s| - 1) * 256;
      }
      hi * 256 + s[|s| - 1]
  }

  lemma {:induction false} FromToBigEndian(u: nat, n: nat)
    requires u < Pow256(n)
    ensures FromBigEndian(ToBigEndian(u, n)) == u
    decreases n
  {
    if n > 0 {
      var s := ToBigEndian(u, n);
      assert s[..n - 1] == ToBigEndian(u / 256, n - 1);
      FromToBigEndian(u / 256, n - 1);
    }
  }

  lemma {:induction false} ToFromBigEndian(s: seq<byte>)
    ensures ToBigEndian(FromBigEndian(s), |s|) == s
    decreases |s|
  {
    if |s| > 0 {
      var hi := FromBigEndian(s[..|s| - 1]);
      var u := hi * 256 + s[|s| - 1];
      assert u / 256 == hi && u % 256 == s[|s| - 1];
      ToFromBigEndian(s[..|s| - 1]);
      assert s[..|s| - 1] + [s[|s| - 1]] == s;
    }
  }

  // ---------------------------------------------------------------------------
  // Two's-complement fixed-width integers

  /** The `n`-octet two's-complement image of `x` (Java's `putLong`/`putInt`). */
  function EncodeSigned(x: int, n: nat): (r: seq<byte>)
    requires 0 < n
    requires -Half(n) <= x < Half(n)
    ensures |r| == n
  {
    ToBigEndian(if x < 0 then x + Pow256(n) else x, n)
  }

  /** The signed value of `n` octets (Java's `getLong`/`getInt`). */
  function DecodeSigned(s: seq<byte>): (x: int)
    requires 0 < |s|
    ensures -Half(|s|) <= x < Half(|s|)
  {
    var u := FromBigEndian(s);
    if u < Half(|s|) then u else u - Pow256(|s|)
  }

  /** Half the range of `n` octets: the bound of the signed values. */
  function Half(n: nat): (h: int)
    requires 0 < n
    ensures 2 * h == Pow256(n)
  {
    128 * Pow256(n - 1)
  }

  /** Reading back what was written yields the written value. */
  lemma DecodeEncodeSigned(x: int, n: nat)
    requires 0 < n
    requires -Half(n) <= x < Half(n)
    ensures DecodeSigned(EncodeSigned(x, n)) == x
  {
    FromToBigEndian(if x < 0 then x + Pow256(n) else x, n);
  }

  /** Writing back what was read yields the same octets. */
  lemma EncodeDecodeSigned(s: seq<byte>)
    requires 0 < |s|
    ensures EncodeSigned(DecodeSigned(s), |s|) == s
  {
    ToFromBigEndian(s);
  }

  function EncodeInt64(x: int64): (r: seq<byte>)
    ensures |r| == 8
  {
    Pow256Widths();
    EncodeSigned(x, 8)
  }

  function DecodeInt64(s: seq<byte>): (x: int64)
    requires |s| == 8
  {
    Pow256Widths();
    DecodeSigned(s)
  }

  function EncodeInt32(x: int32): (r: seq<byte>)
    ensures |r| == 4
  {
    Pow256Widths();
    EncodeSigned(x, 4)
  }

  function DecodeInt32(s: seq<byte>): (x: int32)
    requires |s| == 4
  {
    Pow256Widths();
    DecodeSigned(s)
  }

  lemma Int64RoundTrip(x: int64)
    ensures DecodeInt64(EncodeInt64(x)) == x
  {
    Pow256Widths();
    DecodeEncodeSigned(x, 8);
  }

  lemma Int32RoundTrip(x: int32)
    ensures DecodeInt32(EncodeInt32(x)) == x
  {
    Pow256Widths();
    DecodeEncodeSigned(x, 4);
  }
}
