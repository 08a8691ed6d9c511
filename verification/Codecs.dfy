// The encoders and decoders registered for segment columns:
// include/columnar/encoding/encoding.h, for Int32 and Int64 columns.
module Codecs {
  import opened Types
  import opened Bits
  import opened BitStream
  import opened Packing
  import opened Bytes

  /** sizeof(Unsigned) * 8 for the registered widths: 32-bit words for Int32,
      64-bit words for Int64 */
  function WordWidth(t: DataType): nat { if t.Int32? then 32 else 64 }

  /** The header both packing encoders write: minimum, maximum, width. */
  function RangeHeader(t: DataType, lo: int, hi: int, bits: nat): (r: seq<Byte>)
    requires InRange(t, lo) && InRange(t, hi)
    ensures |r| == 2 * TypeSize(t) + 1
  {
    ValueBytes(t, lo) + (ValueBytes(t, hi) + LeBytes(bits, 1))
  }

  function HeaderSize(t: DataType): nat { 2 * TypeSize(t) + 1 }
  function LowOf(t: DataType, bytes: seq<Byte>): int
    requires |bytes| >= HeaderSize(t)
  {
    ReadValue(t, bytes)
  }
  function BitsOf(t: DataType, bytes: seq<Byte>): nat
    requires |bytes| >= HeaderSize(t)
  {
    LeValue(bytes[2 * TypeSize(t)..][..1])
  }
  function WordsOf(t: DataType, bytes: seq<Byte>, size: nat): seq<nat>
    requires |bytes| >= HeaderSize(t) && size > 0
  {
    AsWords(bytes[HeaderSize(t)..], size, (|bytes| - HeaderSize(t)) / size)
  }

  lemma RangeHeaderRoundTrip(t: DataType, lo: int, hi: int, bits: nat, packed: seq<nat>, size: nat)
    requires InRange(t, lo) && InRange(t, hi) && bits < 256 && size > 0
    requires forall k :: 0 <= k < |packed| ==> packed[k] < Pow256(size)
    ensures var bytes := RangeHeader(t, lo, hi, bits) + WordsBytes(packed, size);
            && |bytes| >= HeaderSize(t) && LowOf(t, bytes) == lo && BitsOf(t, bytes) == bits
            && ReadValue(t, bytes[TypeSize(t)..]) == hi && WordsOf(t, bytes, size) == packed
  {
    hide LeBytes, LeValue, AsWords, WordsBytes, ReadValue, ValueBytes;
    Pow256Sizes();
    var words := WordsBytes(packed, size);
    var afterHigh := LeBytes(bits, 1) + words;
    var afterLow := ValueBytes(t, hi) + afterHigh;
    var bytes := RangeHeader(t, lo, hi, bits) + words;
    assert bytes == ValueBytes(t, lo) + afterLow;
    ValueRoundTrip(t, lo, afterLow);
    assert bytes[TypeSize(t)..] == afterLow;
    ValueRoundTrip(t, hi, afterHigh);
    assert bytes[2 * TypeSize(t)..] == afterHigh;
    FieldRoundTrip(bits, 1, words);
    assert bytes[HeaderSize(t)..] == words + [];
    WordsBytesLength(packed, size);
    DivUnique(size * |packed|, size, |packed|, 0);
    WordsRoundTrip(packed, size, []);
  }

  lemma WordsFitBytes(t: DataType, packed: seq<nat>, k: nat)
    requires Words(packed, WordWidth(t)) && k < |packed|
    ensures packed[k] < Pow256(TypeSize(t))
  {
    Pow256Sizes();
    Pow2Sizes();
  }

  // ---- registered bit packing (straddling, words as wide as the type)

  ghost predicate IsBitPackImage(t: DataType, bytes: seq<Byte>, data: seq<int>) {
    exists lo, hi, bits, packed {:trigger RangeHeader(t, lo, hi, bits), WordsBytes(packed, TypeSize(t))} ::
      && InRange(t, lo) && InRange(t, hi) && Extremes(data, lo, hi)
      && IsPacking(WordWidth(t), lo, bits, packed, data)
      && bytes == RangeHeader(t, lo, hi, bits) + WordsBytes(packed, TypeSize(t))
  }

  /** A constant column would index an empty word vector, so the encoder is
      defined on columns with two different values (or none). */
  predicate NotConstant(data: seq<int>) {
    data != [] ==> exists i :: 0 <= i < |data| && data[i] != data[0]
  }

  method EncodeBitPack(t: DataType, data: seq<int>, out: Buffer) returns (ghost image: seq<Byte>)
    requires out.Valid()
    requires AllInRange(t, data) && RangeBelow(data, HalfRange(t)) && NotConstant(data)
    modifies out
    ensures out.Valid() && out.Contents() == old(out.Contents()) + image
    ensures data == [] ==> image == []
    ensures data != [] ==> IsBitPackImage(t, image, data)
  {
    hide LeBytes, ValueBytes, WordsBytes, DenseWords;
    image := [];
    if |data| == 0 { return; }
    var lo, hi := MinMax(data);
    ExtremesRange(data, lo, hi, HalfRange(t));
    out.Append(ValueBytes(t, lo));
    out.Append(ValueBytes(t, hi));
    var bits := WidthOf(hi - lo);
    NarrowWidth(t, bits, hi - lo);
    out.Append(LeBytes(bits, 1));
    DeltasFit(data, lo, hi, bits);
    var packed := PackWide(t, data, lo, bits);
    out.Append(WordsBytes(packed, TypeSize(t)));
    image := RangeHeader(t, lo, hi, bits) + WordsBytes(packed, TypeSize(t));
  }

  /** The least width of a non-empty range below half the type is 1 .. width - 1,
      so the cap at the word size never applies. */
  lemma NarrowWidth(t: DataType, bits: nat, range: nat)
    requires LeastWidth(bits, range) && range < HalfRange(t)
    ensures bits < WordWidth(t)
    ensures range > 0 ==> bits > 0
  {
    Pow2Sizes();
    if bits >= WordWidth(t) { Pow2Mono(WordWidth(t) - 1, bits - 1); }
  }

  method PackWide(t: DataType, data: seq<int>, lo: int, bits: nat) returns (packed: seq<nat>)
    requires 0 < bits < WordWidth(t)
    requires forall i :: 0 <= i < |data| ==> lo <= data[i]
    requires AllFit(Deltas(data, lo), bits)
    ensures packed == DenseWords(WordWidth(t), bits, Deltas(data, lo))
  {
    hide PutBits, PackWords, GetBits;
    var width := WordWidth(t);
    ghost var vals, ps := Deltas(data, lo), DensePositions(bits, |data|);
    packed := Zeros(WordCount(width, DenseAt(bits, |data|)));
    ghost var len := |packed|;
    DenseRoom(width, bits, |data|, len);
    PackNone(width, bits, vals, ps, len);
    var bitPos, i := 0, 0;
    while i < |data|
      invariant 0 <= i <= |data| && bitPos == DenseAt(bits, i) && |packed| == len
      invariant packed == PackWords(width, bits, vals[..i], ps[..i], len)
    {
      var value := data[i] - lo;
      assert Window(width, len, ps[i], bits);
      PackStep(width, bits, vals, ps, len, i);
      packed := PutBits(packed, width, bitPos, bits, value);
      DenseStep(bits, i);
      bitPos := bitPos + bits;
      i := i + 1;
    }
    assert vals[..i] == vals && ps[..i] == ps;
  }

  method DecodeBitPack(t: DataType, bytes: seq<Byte>, out: array<int>, count: nat)
    requires count <= out.Length && (count > 0 ==> Unpackable(t, bytes, count))
    modifies out
    ensures forall i :: 0 <= i < count ==> out[i] == BitPackValue(t, bytes, i)
    ensures forall i :: count <= i < out.Length ==> out[i] == old(out[i])
  {
    hide GetBits, Rebased, Window, AsWords, LeValue, ReadValue;
    if count == 0 { return; }
    var lo, bits := LowOf(t, bytes), BitsOf(t, bytes);
    var packed := WordsOf(t, bytes, TypeSize(t));
    var bitPos, i := 0, 0;
    while i < count
      invariant 0 <= i <= count && bitPos == DenseAt(bits, i)
      invariant forall j :: 0 <= j < i ==> out[j] == UnpackAt(t, WordWidth(t), lo, bits, packed, j)
      invariant forall j :: i <= j < out.Length ==> out[j] == old(out[j])
    {
      ReadWindow(WordWidth(t), bits, count, |packed|, i);
      out[i] := Rebased(t, lo, GetBits(packed, WordWidth(t), bitPos, bits));
      DenseStep(bits, i);
      bitPos := bitPos + bits;
      i := i + 1;
    }
  }

  predicate Unpackable(t: DataType, bytes: seq<Byte>, count: nat) {
    && |bytes| >= HeaderSize(t) && 0 < BitsOf(t, bytes) < WordWidth(t)
    && DenseAt(BitsOf(t, bytes), count) <= Capacity(WordWidth(t), |WordsOf(t, bytes, TypeSize(t))|)
  }

  function BitPackValue(t: DataType, bytes: seq<Byte>, i: nat): int
    requires |bytes| >= HeaderSize(t)
  {
    UnpackAt(t, WordWidth(t), LowOf(t, bytes), BitsOf(t, bytes), WordsOf(t, bytes, TypeSize(t)), i)
  }

  /** Decode after Encode is the identity, through the byte buffer. */
  lemma BitPackRoundTrip(t: DataType, bytes: seq<Byte>, data: seq<int>)
    requires data != [] && AllInRange(t, data) && RangeBelow(data, HalfRange(t)) && NotConstant(data)
    requires IsBitPackImage(t, bytes, data)
    ensures Unpackable(t, bytes, |data|)
    ensures forall i :: 0 <= i < |data| ==> BitPackValue(t, bytes, i) == data[i]
  {
    hide UnpackAt, LowOf, BitsOf, WordsOf, WordsBytes, DenseWords, RangeHeader, HeaderSize;
    var lo, hi, bits: nat, packed: seq<nat> :| InRange(t, lo) && InRange(t, hi) && Extremes(data, lo, hi)
      && IsPacking(WordWidth(t), lo, bits, packed, data)
      && bytes == RangeHeader(t, lo, hi, bits) + WordsBytes(packed, TypeSize(t));
    PackingWidth(t, lo, hi, bits, packed, data);
    PackingRoom(WordWidth(t), lo, bits, packed, data);
    forall k | 0 <= k < |packed| ensures packed[k] < Pow256(TypeSize(t)) { WordsFitBytes(t, packed, k); }
    RangeHeaderRoundTrip(t, lo, hi, bits, packed, TypeSize(t));
    forall i | 0 <= i < |data| ensures BitPackValue(t, bytes, i) == data[i] {
      UnpackColumn(t, WordWidth(t), lo, bits, packed, data, i);
    }
  }

  lemma PackingWidth(t: DataType, lo: int, hi: int, bits: nat, packed: seq<nat>, data: seq<int>)
    requires NotConstant(data) && data != [] && RangeBelow(data, HalfRange(t))
    requires Extremes(data, lo, hi) && IsPacking(WordWidth(t), lo, bits, packed, data)
    ensures 0 < bits < WordWidth(t)
  {
    var hi' :| Extremes(data, lo, hi') && LeastWidth(bits, hi' - lo);
    ExtremesUnique(data, lo, hi, lo, hi');
    ExtremesRange(data, lo, hi, HalfRange(t));
    NarrowWidth(t, bits, hi - lo);
  }

  /** Why a constant column is outside the encoder's domain: its width is zero,
      so its word vector is empty and the first OR has no word to go to. */
  lemma ConstantColumnHasNoWord(t: DataType, data: seq<int>, lo: int, hi: int, bits: nat)
    requires data != [] && Extremes(data, lo, hi) && LeastWidth(bits, hi - lo)
    ensures NotConstant(data) <==> WordCount(WordWidth(t), DenseAt(bits, |data|)) > 0
  {
    if bits == 0 {
      assert forall i :: 0 <= i < |data| ==> lo <= data[i] <= hi;
    } else {
      Pow2Mono(0, bits - 1);
      DenseApart(bits, 0, |data|);
    }
  }

  // ---- registered frame of reference (lanes of whole 64-bit words)

  ghost predicate IsForPacking(t: DataType, lo: int, bits: nat, packed: seq<nat>, data: seq<int>) {
    && bits < 64
    && (exists hi: int {:trigger Extremes(data, lo, hi)} :: Extremes(data, lo, hi) && LeastWidth(bits, hi - lo))
    && packed == if bits == 0 then [] else LaneWords(bits, Deltas(data, lo))
  }

  ghost predicate IsForImage(t: DataType, bytes: seq<Byte>, data: seq<int>) {
    exists lo, hi, bits, packed {:trigger RangeHeader(t, lo, hi, bits), WordsBytes(packed, 8)} ::
      && InRange(t, lo) && InRange(t, hi) && Extremes(data, lo, hi)
      && IsForPacking(t, lo, bits, packed, data)
      && bytes == RangeHeader(t, lo, hi, bits) + WordsBytes(packed, 8)
  }

  method EncodeFor(t: DataType, data: seq<int>, out: Buffer) returns (ghost image: seq<Byte>)
    requires out.Valid()
    requires AllInRange(t, data) && RangeBelow(data, HalfRange(t))
    modifies out
    ensures out.Valid() && out.Contents() == old(out.Contents()) + image
    ensures data == [] ==> image == []
    ensures data != [] ==> IsForImage(t, image, data)
  {
    hide LeBytes, ValueBytes, LaneWords, LeastWidth;
    image := [];
    if |data| == 0 { return; }
    var lo, hi := MinMax(data);
    ExtremesRange(data, lo, hi, HalfRange(t));
    out.Append(ValueBytes(t, lo));
    out.Append(ValueBytes(t, hi));
    var bits := WidthOf(hi - lo);
    out.Append(LeBytes(bits, 1));
    image := RangeHeader(t, lo, hi, bits);
    if bits == 0 {
      assert image == RangeHeader(t, lo, hi, 0) + WordsBytes([], 8);
      return;
    }
    DeltasFit(data, lo, hi, bits);
    var packed := PackLanes(data, lo, bits);
    out.Append(WordsBytes(packed, 8));
    image := RangeHeader(t, lo, hi, bits) + WordsBytes(packed, 8);
  }

  method PackLanes(data: seq<int>, lo: int, bits: nat) returns (packed: seq<nat>)
    requires 0 < bits < 64
    requires forall i :: 0 <= i < |data| ==> lo <= data[i]
    ensures packed == LaneWords(bits, Deltas(data, lo))
  {
    hide PutBits, PackWords, LaneAt, OrWord, Shl, LaneWordCount, Window, LaneWord, LaneShift;
    ghost var vals, ps := Deltas(data, lo), LanePositions(bits, |data|);
    packed := Zeros(LaneWordCount(bits, |data|));
    ghost var len := |packed|;
    LaneWordsSuffice(bits, |data|);
    LaneRoom(bits, |data|, len);
    PackNone(64, bits, vals, ps, len);
    var i := 0;
    while i < |data|
      invariant 0 <= i <= |data| && |packed| == len
      invariant packed == PackWords(64, bits, vals[..i], ps[..i], len)
    {
      var value := data[i] - lo;
      LaneWindow(bits, |data|, len, i);
      LanePut(packed, bits, i, value);
      PackStep(64, bits, vals, ps, len, i);
      packed := OrWord(packed, LaneWord(bits, i), Shl(value, LaneShift(bits, i), 64));
      i := i + 1;
    }
    assert vals[..i] == vals && ps[..i] == ps;
  }

  /** The value at index i of a lane-packed column. */
  function LaneUnpackAt(t: DataType, lo: int, bits: nat, packed: seq<nat>, i: nat): int {
    if bits == 0 then lo
    else if bits < 64 && Window(64, |packed|, LaneAt(bits, i), bits)
      then Rebased(t, lo, GetBits(packed, 64, LaneAt(bits, i), bits))
    else 0
  }

  function ForValue(t: DataType, bytes: seq<Byte>, i: nat): int
    requires |bytes| >= HeaderSize(t)
  {
    LaneUnpackAt(t, LowOf(t, bytes), BitsOf(t, bytes), WordsOf(t, bytes, 8), i)
  }

  predicate ForReadable(t: DataType, bytes: seq<Byte>, count: nat) {
    && |bytes| >= HeaderSize(t) && BitsOf(t, bytes) < 64
    && (BitsOf(t, bytes) > 0 && count > 0 ==>
          LaneWord(BitsOf(t, bytes), count - 1) < |WordsOf(t, bytes, 8)|)
  }

  method DecodeFor(t: DataType, bytes: seq<Byte>, out: array<int>, count: nat)
    requires count <= out.Length && (count > 0 ==> ForReadable(t, bytes, count))
    modifies out
    ensures forall i :: 0 <= i < count ==> out[i] == ForValue(t, bytes, i)
    ensures forall i :: count <= i < out.Length ==> out[i] == old(out[i])
  {
    hide GetBits, Rebased, Window, WordsOf, BitsOf, LowOf, LaneAt, Shr, And, Mask, LaneWord, LaneShift;
    if count == 0 { return; }
    var lo, bits := LowOf(t, bytes), BitsOf(t, bytes);
    var packed := WordsOf(t, bytes, 8);
    for i := 0 to count
      invariant forall j :: 0 <= j < i ==> out[j] == ForValue(t, bytes, j)
      invariant forall j :: i <= j < out.Length ==> out[j] == old(out[j])
    {
      if bits == 0 {
        out[i] := lo;
      } else {
        LaneWindow(bits, count, |packed|, i);
        LaneGet(packed, bits, i);
        out[i] := Rebased(t, lo, And(Shr(packed[LaneWord(bits, i)], LaneShift(bits, i)), Mask(bits)));
      }
    }
  }

  lemma ForUnpack(t: DataType, lo: int, bits: nat, packed: seq<nat>, data: seq<int>, i: nat)
    requires IsForPacking(t, lo, bits, packed, data) && i < |data|
    requires AllInRange(t, data) && RangeBelow(data, HalfRange(t))
    ensures LaneUnpackAt(t, lo, bits, packed, i) == data[i]
  {
    hide GetBits, Window, LaneWords, LaneAt, Rebased;
    var hi :| Extremes(data, lo, hi) && LeastWidth(bits, hi - lo);
    if bits > 0 {
      DeltasFit(data, lo, hi, bits);
      LaneRoundTrip(bits, Deltas(data, lo), i);
      RebasedExact(t, lo, data[i]);
    }
  }

  lemma ForRoom(t: DataType, lo: int, bits: nat, packed: seq<nat>, data: seq<int>)
    requires data != [] && IsForPacking(t, lo, bits, packed, data)
    ensures bits > 0 ==> LaneWord(bits, |data| - 1) < |packed|
    ensures forall k :: 0 <= k < |packed| ==> packed[k] < Pow256(8)
  {
    hide GetBits, Window, LaneAt, LaneWord, LaneWordCount, PackWords;
    var hi :| Extremes(data, lo, hi) && LeastWidth(bits, hi - lo);
    if bits > 0 {
      DeltasFit(data, lo, hi, bits);
      LaneRoundTrip(bits, Deltas(data, lo), 0);
      LaneWordsSuffice(bits, |data|);
      Pow256Sizes();
      Pow2Sizes();
    }
  }

  /** Decode after Encode is the identity, constant columns included. */
  lemma ForRoundTrip(t: DataType, bytes: seq<Byte>, data: seq<int>)
    requires data != [] && AllInRange(t, data) && RangeBelow(data, HalfRange(t))
    requires IsForImage(t, bytes, data)
    ensures ForReadable(t, bytes, |data|)
    ensures forall i :: 0 <= i < |data| ==> ForValue(t, bytes, i) == data[i]
  {
    hide LaneUnpackAt, LowOf, BitsOf, WordsOf, WordsBytes;
    hide RangeHeader, HeaderSize, LaneWord, LaneWords, Extremes, Pow256;
    var lo, hi, bits: nat, packed: seq<nat> :| InRange(t, lo) && InRange(t, hi) && Extremes(data, lo, hi)
      && IsForPacking(t, lo, bits, packed, data)
      && bytes == RangeHeader(t, lo, hi, bits) + WordsBytes(packed, 8);
    ForRoom(t, lo, bits, packed, data);
    RangeHeaderRoundTrip(t, lo, hi, bits, packed, 8);
    forall i | 0 <= i < |data| ensures ForValue(t, bytes, i) == data[i] {
      ForUnpack(t, lo, bits, packed, data, i);
    }
  }

  // ---- plain and delta

  /** Delta coding as values: the first value, then wrapped differences. */
  function Differences(t: DataType, xs: seq<int>): (ds: seq<int>)
    requires AllInRange(t, xs)
    ensures |ds| == |xs| && AllInRange(t, ds)
  {
    if |xs| == 0 then []
    else Differences(t, xs[..|xs| - 1]) + [DifferenceAt(t, xs, |xs| - 1)]
  }

  function DifferenceAt(t: DataType, xs: seq<int>, i: nat): (d: int)
    requires i < |xs| && AllInRange(t, xs)
    ensures InRange(t, d)
  {
    if i == 0 then xs[0] else Wrap(t, xs[i] - xs[i - 1])
  }

  /** Running sums in the column's type. */
  function Sums(t: DataType, ds: seq<int>): (xs: seq<int>)
    ensures |xs| == |ds|
  {
    if |ds| == 0 then []
    else
      var before := Sums(t, ds[..|ds| - 1]);
      before + [NextSum(t, before, ds[|ds| - 1])]
  }

  function NextSum(t: DataType, before: seq<int>, d: int): int {
    if before == [] then d else Wrap(t, before[|before| - 1] + d)
  }

  lemma NextSumUndoes(t: DataType, xs: seq<int>, n: nat)
    requires n < |xs| && AllInRange(t, xs)
    ensures NextSum(t, xs[..n], DifferenceAt(t, xs, n)) == xs[n]
  {
    if n > 0 { WrapCancels(t, xs[n - 1], xs[n]); }
  }

  lemma WrapCancels(t: DataType, a: int, b: int)
    requires InRange(t, a) && InRange(t, b)
    ensures Wrap(t, a + Wrap(t, b - a)) == b
  {
  }

  lemma SummingStep(t: DataType, ds: seq<int>, d: int)
    ensures Sums(t, ds + [d]) == Sums(t, ds) + [NextSum(t, Sums(t, ds), d)]
  {
    hide NextSum;
    assert (ds + [d])[..|ds|] == ds;
  }

  /** Summing the differences gives back every column, overflowing steps included. */
  lemma {:induction false} DeltaRoundTrip(t: DataType, xs: seq<int>)
    requires AllInRange(t, xs)
    ensures Sums(t, Differences(t, xs)) == xs
  {
    if |xs| > 0 {
      hide NextSum, DifferenceAt, Sums, Differences;
      var n := |xs| - 1;
      DeltaRoundTrip(t, xs[..n]);
      NextSumUndoes(t, xs, n);
      SummingStep(t, Differences(t, xs[..n]), DifferenceAt(t, xs, n));
      assert xs == xs[..n] + [xs[n]];
    }
  }

  method EncodePlain(t: DataType, data: seq<int>, out: Buffer)
    requires out.Valid() && AllInRange(t, data)
    modifies out
    ensures out.Valid() && out.Contents() == old(out.Contents()) + ValuesBytes(t, data)
  {
    out.Append(ValuesBytes(t, data));
  }

  method EncodeDelta(t: DataType, data: seq<int>, out: Buffer)
    requires out.Valid() && AllInRange(t, data)
    modifies out
    ensures out.Valid() && out.Contents() == old(out.Contents()) + ValuesBytes(t, Differences(t, data))
  {
    ghost var start := out.Contents();
    if |data| == 0 { assert ValuesBytes(t, Differences(t, data)) == []; return; }
    var prev := data[0];
    out.Append(ValueBytes(t, prev));
    DeltaBytesStep(t, start, data, 0);
    hide ValuesBytes, ValueBytes, Differences, Wrap;
    for i := 1 to |data|
      invariant prev == data[i - 1] && out.Valid()
      invariant out.Contents() == start + ValuesBytes(t, Differences(t, data[..i]))
    {
      var delta := Wrap(t, data[i] - prev);
      prev := data[i];
      out.Append(ValueBytes(t, delta));
      DeltaBytesStep(t, start, data, i);
    }
    assert data[..|data|] == data;
  }

  lemma DeltaBytesStep(t: DataType, start: seq<Byte>, data: seq<int>, i: nat)
    requires AllInRange(t, data) && i < |data|
    ensures start + ValuesBytes(t, Differences(t, data[..i + 1]))
         == start + ValuesBytes(t, Differences(t, data[..i])) + ValueBytes(t, DifferenceAt(t, data, i))
  {
    hide ValuesBytes, ValueBytes, Wrap;
    assert data[..i + 1][..i] == data[..i];
    ValuesBytesAppend(t, Differences(t, data[..i]), DifferenceAt(t, data, i));
  }

  method DecodePlain(t: DataType, bytes: seq<Byte>, out: array<int>, count: nat)
    requires count <= out.Length && TypeSize(t) * count <= |bytes|
    modifies out
    ensures out[..count] == AsValues(t, bytes, count)
    ensures forall i :: count <= i < out.Length ==> out[i] == old(out[i])
  {
    var src := AsValues(t, bytes, count);
    for i := 0 to count
      invariant out[..i] == src[..i]
      invariant forall j :: i <= j < out.Length ==> out[j] == old(out[j])
    {
      out[i] := src[i];
    }
  }

  method DecodeDelta(t: DataType, bytes: seq<Byte>, out: array<int>, count: nat)
    requires count <= out.Length && TypeSize(t) * count <= |bytes|
    modifies out
    ensures out[..count] == Sums(t, AsValues(t, bytes, count))
    ensures forall i :: count <= i < out.Length ==> out[i] == old(out[i])
  {
    hide AsValues, Wrap;
    if count == 0 { return; }
    var src := AsValues(t, bytes, count);
    out[0] := src[0];
    for i := 1 to count
      invariant out[..i] == Sums(t, src[..i])
      invariant forall j :: i <= j < out.Length ==> out[j] == old(out[j])
    {
      assert src[..i + 1][..i] == src[..i];
      out[i] := Wrap(t, out[i - 1] + src[i]);
      assert out[..i + 1] == out[..i] + [out[i]];
    }
    assert src[..count] == src;
  }
}
