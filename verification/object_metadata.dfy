/**
  The packed object identity record (`LegacyObjectMetadata`): a fixed
  30-octet buffer holding an 18-octet name, an 8-octet big-endian size and a
  4-octet big-endian container suffix. Equality, hashing and ordering are all
  defined over the packed octets.
 */
module ObjectMetadata {
  import opened Wrappers
  import opened Bytes

  const NameSize: nat := 18
  const SizeSize: nat := 8
  const SuffixSize: nat := 4
  const RecordSize: nat := NameSize + SizeSize + SuffixSize

  /** Offsets of the three fields inside the packed record. */
  const SizeOffset: nat := NameSize
  const SuffixOffset: nat := NameSize + SizeSize

  /** The name is entered and shown as two hex characters per octet. */
  const NameLength: nat := 2 * NameSize

  type Packed = s: seq<byte> | |s| == 30 witness seq(30, i => 0)

  /** An immutable record; its identity is exactly its packed octets. */
  datatype LegacyObjectMetadata = LegacyObjectMetadata(buffer: Packed)

  lemma RecordWidth()
    ensures RecordSize == 30
    ensures SizeOffset == 18 && SuffixOffset == 26
  {
  }

  function ToBytes(m: LegacyObjectMetadata): (bs: seq<byte>)
    ensures |bs| == RecordSize
  {
    m.buffer
  }

  /** Reconstructs a record from its packed form; only 30-octet inputs are accepted. */
  function FromBytes(bs: seq<byte>): (r: Result<LegacyObjectMetadata>)
    ensures r.Ok? <==> |bs| == RecordSize
    ensures r.Err? ==> r.error == IllegalArgument
    ensures r.Ok? ==> ToBytes(r.value) == bs
  {
    if |bs| != RecordSize then Err(IllegalArgument)
    else Ok(LegacyObjectMetadata(bs))
  }

  /** The name, as 36 lowercase hex characters. */
  function Name(m: LegacyObjectMetadata): (name: string)
    ensures |name| == NameLength
    ensures IsLowerHex(name)
  {
    EncodeHex(m.buffer[..NameSize])
  }

  /** The size: the signed 64-bit value stored at offset 18. */
  function Size(m: LegacyObjectMetadata): int64 {
    DecodeInt64(m.buffer[SizeOffset..SuffixOffset])
  }

  /** The container suffix: the signed 32-bit value stored at offset 26. */
  function ContainerSuffix(m: LegacyObjectMetadata): int32 {
    DecodeInt32(m.buffer[SuffixOffset..RecordSize])
  }

  /** The conditions `fromMetadata` checks before packing. */
  predicate ValidMetadata(name: string, size: int64, suffix: int32) {
    |name| == NameLength && size >= 0 && suffix >= -1 && IsLowerHex(name)
  }

  /**
    Packs a name, size and container suffix. Rejects a name that is not 36
    characters long, a negative size, a suffix below -1 and a name that is not
    lowercase base16.
   */
  function FromMetadata(name: string, size: int64, suffix: int32): (r: Result<LegacyObjectMetadata>)
    ensures r.Ok? <==> ValidMetadata(name, size, suffix)
    ensures r.Err? ==> r.error == IllegalArgument
    ensures r.Ok? ==> Name(r.value) == name && Size(r.value) == size && ContainerSuffix(r.value) == suffix
  {
    if |name| != NameLength || size < 0 || suffix < -1 then Err(IllegalArgument)
    else
      DecodeHexSucceedsIff(name);
      match DecodeHex(name)
      case None => Err(IllegalArgument)
      case Some(nameBytes) =>
        var buffer := nameBytes + EncodeInt64(size) + EncodeInt32(suffix);
        var m := LegacyObjectMetadata(buffer);
        FieldsOfPacked(nameBytes, size, suffix);
        EncodeDecodeHex(name);
        Int64RoundTrip(size);
        Int32RoundTrip(suffix);
        Ok(m)
  }

  /** Where each field lands in a buffer built from its three parts. */
  lemma FieldsOfPacked(nameBytes: seq<byte>, size: int64, suffix: int32)
    requires |nameBytes| == NameSize
    ensures var buffer := nameBytes + EncodeInt64(size) + EncodeInt32(suffix);
      && |buffer| == RecordSize
      && buffer[..NameSize] == nameBytes
      && buffer[SizeOffset..SuffixOffset] == EncodeInt64(size)
      && buffer[SuffixOffset..RecordSize] == EncodeInt32(suffix)
  {
  }

  /**
    The packed layout of a record built by `FromMetadata`: the decoded name at
    offset 0, the big-endian size at offset 18, the big-endian suffix at 26.
   */
  lemma FromMetadataLayout(name: string, size: int64, suffix: int32)
    requires ValidMetadata(name, size, suffix)
    ensures DecodeHex(name).Some?
    ensures var bs := ToBytes(FromMetadata(name, size, suffix).value);
      && bs[..NameSize] == DecodeHex(name).value
      && bs[SizeOffset..SuffixOffset] == EncodeInt64(size)
      && bs[SuffixOffset..RecordSize] == EncodeInt32(suffix)
  {
    DecodeHexSucceedsIff(name);
    FieldsOfPacked(DecodeHex(name).value, size, suffix);
  }

  /** Reconstruction from the packed form is lossless in both directions. */
  lemma BytesRoundTrip(m: LegacyObjectMetadata, bs: seq<byte>)
    requires |bs| == RecordSize
    ensures ToBytes(FromBytes(bs).value) == bs
    ensures FromBytes(ToBytes(m)) == Ok(m)
  {
  }

  /** A record's fields rebuild the same record. */
  lemma FieldsRoundTrip(m: LegacyObjectMetadata)
    requires Size(m) >= 0 && ContainerSuffix(m) >= -1
    ensures FromMetadata(Name(m), Size(m), ContainerSuffix(m)) == Ok(m)
  {
    var bs := m.buffer;
    DecodeEncodeHex(bs[..NameSize]);
    EncodeDecodeSigned(bs[SizeOffset..SuffixOffset]);
    EncodeDecodeSigned(bs[SuffixOffset..RecordSize]);
    Pow256Widths();
    FieldsOfPacked(bs[..NameSize], Size(m), ContainerSuffix(m));
    assert bs == bs[..NameSize] + bs[SizeOffset..SuffixOffset] + bs[SuffixOffset..RecordSize];
  }

  // ---------------------------------------------------------------------------
  // Equality and hashing

  /** `equals`: records are equal when their packed octets are. */
  function Equals(a: LegacyObjectMetadata, b: LegacyObjectMetadata): bool {
    ToBytes(a) == ToBytes(b)
  }

  /** Java's `int` arithmetic: reduce to the signed 32-bit range. */
  function WrapInt32(x: int): (r: int32)
    ensures (r - x) % 0x1_0000_0000 == 0
  {
    var u := x % 0x1_0000_0000;
    if u < 0x8000_0000 then u else u - 0x1_0000_0000
  }

  /** `Arrays.hashCode(byte[])`: fold `31 * h + b` from 1 over the signed octets. */
  function ArraysHashCode(bs: seq<byte>): int32 {
    if |bs| == 0 then 1
    else WrapInt32(31 * ArraysHashCode(bs[..|bs| - 1]) + Signed(bs[|bs| - 1]))
  }

  function HashCode(m: LegacyObjectMetadata): int32 {
    ArraysHashCode(ToBytes(m))
  }

  /** Record equality is value equality, and equal records hash alike. */
  lemma EqualsIsIdentity(a: LegacyObjectMetadata, b: LegacyObjectMetadata)
    ensures Equals(a, b) <==> a == b
    ensures Equals(a, b) ==> HashCode(a) == HashCode(b)
  {
  }

  // ---------------------------------------------------------------------------
  // Ordering

  /**
    Lexicographic order over signed octets: the difference of the first
    differing pair, otherwise the difference of the lengths.
   */
  function Lex(a: seq<byte>, b: seq<byte>): int {
    if |a| == 0 || |b| == 0 then |a| - |b|
    else if a[0] != b[0] then Signed(a[0]) - Signed(b[0])
    else Lex(a[1..], b[1..])
  }

  /** `compareTo`, as the loop the source runs. */
  method CompareBytes(b1: seq<byte>, b2: seq<byte>) returns (r: int)
    ensures r == Lex(b1, b2)
    ensures r == 0 <==> b1 == b2
  {
    LexZeroIffEqual(b1, b2);
    var lim := if |b1| < |b2| then |b1| else |b2|;
    var k := 0;
    while k < lim
      invariant 0 <= k <= lim
      invariant Lex(b1, b2) == Lex(b1[k..], b2[k..])
    {
      var c1 := b1[k];
      var c2 := b2[k];
      if c1 != c2 {
        return Signed(c1) - Signed(c2);
      }
      assert b1[k..][1..] == b1[k + 1..] && b2[k..][1..] == b2[k + 1..];
      k := k + 1;
    }
    return |b1| - |b2|;
  }

  method CompareTo(a: LegacyObjectMetadata, b: LegacyObjectMetadata) returns (r: int)
    ensures r == Lex(ToBytes(a), ToBytes(b))
    ensures r == 0 <==> Equals(a, b)
  {
    r := CompareBytes(ToBytes(a), ToBytes(b));
  }

  lemma {:induction false} LexZeroIffEqual(a: seq<byte>, b: seq<byte>)
    ensures Lex(a, b) == 0 <==> a == b
    decreases |a|
  {
    if |a| > 0 && |b| > 0 {
      if a[0] == b[0] {
        LexZeroIffEqual(a[1..], b[1..]);
        if a[1..] == b[1..] {
          assert a == [a[0]] + a[1..] && b == [b[0]] + b[1..];
        }
      } else {
        assert Signed(a[0]) != Signed(b[0]);
      }
    }
  }

  /** Swapping the arguments negates the result. */
  lemma {:induction false} LexAntisymmetric(a: seq<byte>, b: seq<byte>)
    ensures Lex(a, b) == -Lex(b, a)
    decreases |a|
  {
    if |a| > 0 && |b| > 0 && a[0] == b[0] {
      LexAntisymmetric(a[1..], b[1..]);
    }
  }

  /** The strict order induced by `Lex` is transitive. */
  lemma {:induction false} LexTransitive(a: seq<byte>, b: seq<byte>, c: seq<byte>)
    requires Lex(a, b) < 0 && Lex(b, c) < 0
    ensures Lex(a, c) < 0
    decreases |a|
  {
    if |a| > 0 && |b| > 0 && |c| > 0 && a[0] == b[0] && b[0] == c[0] {
      LexTransitive(a[1..], b[1..], c[1..]);
    }
  }

  /** `compareTo` is zero exactly on equal records and antisymmetric in sign. */
  lemma CompareToContract(a: LegacyObjectMetadata, b: LegacyObjectMetadata)
    ensures Lex(ToBytes(a), ToBytes(b)) == 0 <==> Equals(a, b)
    ensures Lex(ToBytes(a), ToBytes(b)) < 0 <==> Lex(ToBytes(b), ToBytes(a)) > 0
  {
    LexZeroIffEqual(ToBytes(a), ToBytes(b));
    LexAntisymmetric(ToBytes(a), ToBytes(b));
  }
}
