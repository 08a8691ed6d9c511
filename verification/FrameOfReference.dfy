// The dense frame-of-reference codec over bytes: include/columnar/for.h,
// instantiated at Int64. Same packing as bitpack.h, with a 13-byte header.
module FrameOfReference {
  import opened Types
  import opened BitStream
  import opened Packing
  import opened Bytes
  import BitPack

  function Header(base: int, bits: nat, count: nat): (r: seq<Byte>)
    requires IsInt64(base)
    ensures |r| == 13
  {
    ValueBytes(Int64, base) + (LeBytes(bits, 1) + LeBytes(count, 4))
  }

  /** The bytes are the image of the column: header, then its dense packing. */
  ghost predicate IsImage(bytes: seq<Byte>, data: seq<int>) {
    exists base, bits, packed {:trigger IsPacking(64, base, bits, packed, data)} ::
      && IsInt64(base)
      && IsPacking(64, base, bits, packed, data)
      && bytes == Header(base, bits, |data|) + WordsBytes(packed, 8)
  }

  method Encode(data: seq<int>, out: Buffer) returns (ghost image: seq<Byte>)
    requires out.Valid()
    requires AllInRange(Int64, data) && RangeBelow(data, TWO_63)
    modifies out
    ensures out.Valid() && out.Contents() == old(out.Contents()) + image
    ensures data == [] ==> image == []
    ensures data != [] ==> IsImage(image, data)
  {
    hide LeBytes, ValueBytes, DenseWords, LeastWidth, BitPack.Minus64;
    image := [];
    if |data| == 0 { return; }
    var lo, hi := MinMax(data);
    ExtremesRange(data, lo, hi, TWO_63);
    BitPack.Minus64Exact(hi, lo);
    var bits := WidthOf(BitPack.Minus64(hi, lo));
    out.Append(ValueBytes(Int64, lo));
    out.Append(LeBytes(bits, 1));
    out.Append(LeBytes(|data|, 4));
    image := Header(lo, bits, |data|);
    if bits == 0 {
      assert IsPacking(64, lo, 0, [], data);
      assert image == Header(lo, 0, |data|) + WordsBytes([], 8);
      return;
    }
    DeltasFit(data, lo, hi, bits);
    var packed := BitPack.PackColumn(data, lo, bits);
    assert IsPacking(64, lo, bits, packed, data);
    out.Append(WordsBytes(packed, 8));
    image := Header(lo, bits, |data|) + WordsBytes(packed, 8);
  }

  // ---- decoding

  function Base(bytes: seq<Byte>): int requires |bytes| >= 13 { ReadValue(Int64, bytes) }
  function Width(bytes: seq<Byte>): nat requires |bytes| >= 13 { LeValue(bytes[8..][..1]) }
  function Packed(bytes: seq<Byte>): seq<nat> requires |bytes| >= 13 { AsWords(bytes[13..], 8, (|bytes| - 13) / 8) }

  predicate Readable(bytes: seq<Byte>, count: nat) {
    && |bytes| >= 13 && Width(bytes) <= 64
    && (Width(bytes) > 0 ==> DenseAt(Width(bytes), count) <= Capacity(64, |Packed(bytes)|))
  }

  method Decode(bytes: seq<Byte>, out: array<int>, count: nat)
    requires count <= out.Length && (count > 0 ==> Readable(bytes, count))
    modifies out
    ensures forall i :: 0 <= i < count ==> out[i] == UnpackAt(Int64, 64, Base(bytes), Width(bytes), Packed(bytes), i)
    ensures forall i :: count <= i < out.Length ==> out[i] == old(out[i])
  {
    hide GetBits, Rebased, Window, AsWords, LeValue, ReadValue;
    if count == 0 { return; }
    var src := bytes;
    var base := ReadValue(Int64, src);
    src := src[8..];
    var bits := LeValue(src[..1]);
    src := src[1..];
    src := src[4..];  // the stored count is not used
    assert src == bytes[13..];
    var packed := AsWords(src, 8, (|bytes| - 13) / 8);
    var bitPos, i := 0, 0;
    while i < count
      invariant 0 <= i <= count && bitPos == DenseAt(bits, i)
      invariant forall j :: 0 <= j < i ==> out[j] == UnpackAt(Int64, 64, base, bits, packed, j)
      invariant forall j :: i <= j < out.Length ==> out[j] == old(out[j])
    {
      if bits == 0 {
        out[i] := base;
      } else {
        ReadWindow(64, bits, count, |packed|, i);
        out[i] := Rebased(Int64, base, GetBits(packed, 64, bitPos, bits));
      }
      DenseStep(bits, i);
      bitPos := bitPos + bits;
      i := i + 1;
    }
  }

  lemma HeaderRoundTrip(base: int, bits: nat, count: nat, packed: seq<nat>)
    requires IsInt64(base) && bits < 256 && Words(packed, 64)
    ensures var bytes := Header(base, bits, count) + WordsBytes(packed, 8);
            |bytes| >= 13 && Base(bytes) == base && Width(bytes) == bits && Packed(bytes) == packed
            && (count < TWO_32 ==> LeValue(bytes[9..][..4]) == count)
  {
    hide LeBytes, LeValue, AsWords, WordsBytes, ReadValue, ValueBytes;
    Pow256Sizes();
    Pow2Sizes();
    var words := WordsBytes(packed, 8);
    var afterBits := LeBytes(count, 4) + words;
    var afterBase := LeBytes(bits, 1) + afterBits;
    var bytes := Header(base, bits, count) + words;
    assert bytes == ValueBytes(Int64, base) + afterBase;
    ValueRoundTrip(Int64, base, afterBase);
    FieldRoundTrip(bits, 1, afterBits);
    assert bytes[9..] == afterBits;
    if count < TWO_32 { FieldRoundTrip(count, 4, words); }
    assert bytes[13..] == words + [];
    WordsBytesLength(packed, 8);
    WordsRoundTrip(packed, 8, []);
  }

  /** Decoding the image of a column returns the column. */
  lemma RoundTrip(bytes: seq<Byte>, data: seq<int>)
    requires AllInRange(Int64, data) && RangeBelow(data, TWO_63)
    requires IsImage(bytes, data)
    ensures Readable(bytes, |data|)
    ensures forall i :: 0 <= i < |data| ==> UnpackAt(Int64, 64, Base(bytes), Width(bytes), Packed(bytes), i) == data[i]
  {
    hide UnpackAt, Base, Width, Packed, DenseWords, LeastWidth;
    var base, bits, packed :| IsInt64(base) && IsPacking(64, base, bits, packed, data)
      && bytes == Header(base, bits, |data|) + WordsBytes(packed, 8);
    if bits > 0 { PackingRoom(64, base, bits, packed, data); }
    HeaderRoundTrip(base, bits, |data|, packed);
    forall i | 0 <= i < |data|
      ensures UnpackAt(Int64, 64, Base(bytes), Width(bytes), Packed(bytes), i) == data[i]
    {
      UnpackColumn(Int64, 64, base, bits, packed, data, i);
    }
  }
}
