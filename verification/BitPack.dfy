// The 64-bit dense codec: include/columnar/bitpack.h, instantiated at Int64.
module BitPack {
  import opened Types
  import opened Bits
  import opened BitStream
  import opened Packing
  import opened Bytes

  datatype BitPackedData = BitPackedData(minVal: int, bits: nat, packed: seq<nat>)

  ghost predicate Encodes(d: BitPackedData, data: seq<int>) {
    IsPacking(64, d.minVal, d.bits, d.packed, data)
  }

  /** Unsigned subtraction in 64 bits */
  function Minus64(a: int, b: int): nat
    requires IsInt64(a) && IsInt64(b)
  {
    (Unsigned(Int64, a) - Unsigned(Int64, b)) % TWO_64
  }

  lemma Minus64Exact(a: int, b: int)
    requires IsInt64(a) && IsInt64(b) && b <= a
    ensures Minus64(a, b) == a - b
  {
  }

  method Encode(data: seq<int>) returns (r: BitPackedData)
    requires AllInRange(Int64, data) && RangeBelow(data, TWO_63)
    ensures data == [] ==> r == BitPackedData(0, 0, [])
    ensures data != [] ==> Encodes(r, data)
  {
    if |data| == 0 { return BitPackedData(0, 0, []); }
    var lo, hi := MinMax(data);
    ExtremesRange(data, lo, hi, TWO_63);
    Minus64Exact(hi, lo);
    var bits := WidthOf(Minus64(hi, lo));
    if bits == 0 { return BitPackedData(lo, 0, []); }
    DeltasFit(data, lo, hi, bits);
    var packed := PackColumn(data, lo, bits);
    r := BitPackedData(lo, bits, packed);
  }

  /** The packing loop, with a running bit position. */
  method PackColumn(data: seq<int>, lo: int, bits: nat) returns (packed: seq<nat>)
    requires AllInRange(Int64, data) && IsInt64(lo) && 0 < bits <= 64
    requires forall i :: 0 <= i < |data| ==> lo <= data[i]
    requires AllFit(Deltas(data, lo), bits)
    ensures packed == DenseWords(64, bits, Deltas(data, lo))
  {
    hide PutBits, PackWords, GetBits;
    ghost var vals, ps := Deltas(data, lo), DensePositions(bits, |data|);
    packed := Zeros((DenseAt(bits, |data|) + 63) / 64);
    ghost var len := |packed|;
    DenseRoom(64, bits, |data|, len);
    PackNone(64, bits, vals, ps, len);
    var bitPos, i := 0, 0;
    while i < |data|
      invariant 0 <= i <= |data| && bitPos == DenseAt(bits, i) && |packed| == len
      invariant packed == PackWords(64, bits, vals[..i], ps[..i], len)
    {
      Minus64Exact(data[i], lo);
      MaskKeeps(vals[i], bits);
      var value := And(Minus64(data[i], lo), Mask(bits));
      assert Window(64, len, ps[i], bits);
      PackStep(64, bits, vals, ps, len, i);
      packed := PutBits(packed, 64, bitPos, bits, value);
      DenseStep(bits, i);
      bitPos := bitPos + bits;
      i := i + 1;
    }
    assert vals[..i] == vals && ps[..i] == ps;
  }

  // ---- decoding

  ghost predicate Decodable(d: BitPackedData, count: nat) {
    d.bits <= 64 && (d.bits > 0 ==> DenseAt(d.bits, count) <= Capacity(64, |d.packed|))
  }

  function DecodedAt(d: BitPackedData, i: nat): int {
    UnpackAt(Int64, 64, d.minVal, d.bits, d.packed, i)
  }

  /** Sequential decode: the bit position advances with the index. */
  method Decode(d: BitPackedData, out: array<int>, count: nat)
    requires Decodable(d, count) && count <= out.Length
    modifies out
    ensures forall i :: 0 <= i < count ==> out[i] == DecodedAt(d, i)
    ensures forall i :: count <= i < out.Length ==> out[i] == old(out[i])
  {
    hide GetBits, Rebased, Window;
    var bitPos, i := 0, 0;
    while i < count
      invariant 0 <= i <= count && bitPos == DenseAt(d.bits, i)
      invariant forall j :: 0 <= j < i ==> out[j] == DecodedAt(d, j)
      invariant forall j :: i <= j < out.Length ==> out[j] == old(out[j])
    {
      if d.bits == 0 {
        out[i] := d.minVal;
      } else {
        ReadWindow(64, d.bits, count, |d.packed|, i);
        out[i] := Rebased(Int64, d.minVal, GetBits(d.packed, 64, bitPos, d.bits));
      }
      DenseStep(d.bits, i);
      bitPos := bitPos + d.bits;
      i := i + 1;
    }
  }

  /** Random-access decode: the bit position is recomputed as i * bits. It fills
      the output exactly as the sequential loop does. */
  method DecodeIndexed(d: BitPackedData, out: array<int>, count: nat)
    requires Decodable(d, count) && count <= out.Length
    modifies out
    ensures forall i :: 0 <= i < count ==> out[i] == DecodedAt(d, i)
    ensures forall i :: count <= i < out.Length ==> out[i] == old(out[i])
  {
    hide GetBits, Rebased, Window;
    for i := 0 to count
      invariant forall j :: 0 <= j < i ==> out[j] == DecodedAt(d, j)
      invariant forall j :: i <= j < out.Length ==> out[j] == old(out[j])
    {
      if d.bits == 0 {
        out[i] := d.minVal;
      } else {
        var bitPos := i * d.bits;
        ReadWindow(64, d.bits, count, |d.packed|, i);
        out[i] := Rebased(Int64, d.minVal, GetBits(d.packed, 64, bitPos, d.bits));
      }
    }
  }

  /** Decoding an encoding gives back the column, at every index and for every
      requested count up to its length. */
  lemma RoundTrip(d: BitPackedData, data: seq<int>)
    requires AllInRange(Int64, data) && RangeBelow(data, TWO_63) && Encodes(d, data)
    ensures Decodable(d, |data|)
    ensures forall i :: 0 <= i < |data| ==> DecodedAt(d, i) == data[i]
  {
    hide UnpackAt;
    if d.bits > 0 { PackingRoom(64, d.minVal, d.bits, d.packed, data); }
    forall i | 0 <= i < |data| ensures DecodedAt(d, i) == data[i] {
      UnpackColumn(Int64, 64, d.minVal, d.bits, d.packed, data, i);
    }
  }

  // ---- the byte image

  ghost predicate Storable(d: BitPackedData) {
    IsInt64(d.minVal) && d.bits < 256 && |d.packed| < TWO_32 && Words(d.packed, 64)
  }

  function Image(d: BitPackedData): seq<Byte>
    requires IsInt64(d.minVal)
  {
    ValueBytes(Int64, d.minVal) + (LeBytes(d.bits, 1) + (LeBytes(|d.packed|, 4) + WordsBytes(d.packed, 8)))
  }

  method Write(d: BitPackedData, out: Buffer)
    requires out.Valid() && IsInt64(d.minVal)
    modifies out
    ensures out.Valid() && out.Contents() == old(out.Contents()) + Image(d)
  {
    out.Append(ValueBytes(Int64, d.minVal));
    out.Append(LeBytes(d.bits, 1));
    out.Append(LeBytes(|d.packed|, 4));
    out.Append(WordsBytes(d.packed, 8));
  }

  method Read(data: seq<Byte>) returns (d: BitPackedData)
    requires |data| >= 13
    ensures d == Parse(data)
  {
    var ptr := data;
    var lo := ReadValue(Int64, ptr);
    ptr := ptr[8..];
    var bits := LeValue(ptr[..1]);
    ptr := ptr[1..];
    var numWords := LeValue(ptr[..4]);
    ptr := ptr[4..];
    d := BitPackedData(lo, bits, AsWords(ptr, 8, numWords));
  }

  function Parse(data: seq<Byte>): BitPackedData
    requires |data| >= 13
  {
    var afterMin := data[8..];
    var afterBits := afterMin[1..];
    BitPackedData(ReadValue(Int64, data), LeValue(afterMin[..1]), AsWords(afterBits[4..], 8, LeValue(afterBits[..4])))
  }

  lemma ImageRoundTrip(d: BitPackedData, rest: seq<Byte>)
    requires Storable(d)
    ensures Parse(Image(d) + rest) == d
  {
    hide LeBytes, LeValue, AsWords, WordsBytes, ReadValue, ValueBytes;
    Pow256Sizes();
    Pow2Sizes();
    var tail3 := WordsBytes(d.packed, 8) + rest;
    var tail2 := LeBytes(|d.packed|, 4) + tail3;
    var tail1 := LeBytes(d.bits, 1) + tail2;
    assert Image(d) + rest == ValueBytes(Int64, d.minVal) + tail1;
    ValueRoundTrip(Int64, d.minVal, tail1);
    FieldRoundTrip(d.bits, 1, tail2);
    FieldRoundTrip(|d.packed|, 4, tail3);
    WordsRoundTrip(d.packed, 8, rest);
  }
}
