// Writing and reopening a segment file (include/columnar/segment.h): a zeroed
// header, then per column its data, zone map and bloom filter, then the real
// header written over the zeroes. The file is a byte sequence.
module SegmentFile {
  import opened Types
  import opened Bytes
  import opened Codecs
  import opened SegmentHeader
  import Z = ZoneMap
  import B = Bloom

  /** A column ready to be written. */
  datatype Planned = Planned(data: seq<Byte>, encoding: Encoding, stats: ColumnStats)

  datatype Plan = Plan(columns: seq<Planned>, zoneMaps: seq<Z.Map>, blooms: seq<B.Filter>, rowCount: nat,
                       createdTs: nat)

  const DEFAULT_ZONE_MAP := Z.Map([], 65536)
  const DEFAULT_BLOOM := B.Fresh(0x10_0000, 7)

  ghost predicate Writable(p: Plan) {
    && (forall i :: 0 <= i < |p.columns| ==> StorableStats(p.columns[i].stats))
    && forall i :: 0 <= i < |p.zoneMaps| ==> Z.AllStorable(p.zoneMaps[i].entries)
  }

  /** static_cast<uint32_t> */
  function U32(n: nat): (r: nat)
    ensures r < TWO_32 && (n < TWO_32 ==> r == n)
  {
    n % TWO_32
  }

  // ---- the pieces of the file

  predicate HasZoneMap(p: Plan, i: nat) { i < |p.zoneMaps| && |p.zoneMaps[i].entries| > 0 }

  predicate HasBloom(p: Plan, i: nat) { i < |p.blooms| && |p.blooms[i].bits| > 0 }

  function U32Prefix(data: seq<Byte>): (r: seq<Byte>)
    ensures |data| < TWO_32 ==> r == data
    ensures |r| == U32(|data|)
  {
    if |data| < TWO_32 then data else data[..U32(|data|)]
  }

  /** The data length is cut to 32 bits before it is written. */
  function DataPiece(p: Plan, i: nat): seq<Byte>
    requires i < |p.columns|
  {
    U32Prefix(p.columns[i].data)
  }

  function ZonePiece(p: Plan, i: nat): seq<Byte>
    requires Writable(p)
  {
    if HasZoneMap(p, i) then Z.Image(p.zoneMaps[i]) else []
  }

  function BloomPiece(p: Plan, i: nat): seq<Byte> { if HasBloom(p, i) then B.Image(p.blooms[i]) else [] }

  /** Everything after the header for the first k columns. */
  function Body(p: Plan, k: nat): seq<Byte>
    requires Writable(p) && k <= |p.columns|
  {
    if k == 0 then [] else Body(p, k - 1) + DataPiece(p, k - 1) + ZonePiece(p, k - 1) + BloomPiece(p, k - 1)
  }

  function DataStart(p: Plan, i: nat): nat
    requires Writable(p) && i < |p.columns|
  {
    HeaderLength(|p.columns|) + |Body(p, i)|
  }

  function ZoneStart(p: Plan, i: nat): nat
    requires Writable(p) && i < |p.columns|
  {
    DataStart(p, i) + |DataPiece(p, i)|
  }

  function BloomStart(p: Plan, i: nat): nat
    requires Writable(p) && i < |p.columns|
  {
    ZoneStart(p, i) + |ZonePiece(p, i)|
  }

  function MetaOf(p: Plan, i: nat): ColumnMeta
    requires Writable(p) && i < |p.columns|
  {
    var c := p.columns[i];
    ColumnMeta(U32(DataStart(p, i)), U32(|c.data|), c.stats.dataType, c.encoding, c.stats,
               if HasZoneMap(p, i) then U32(ZoneStart(p, i)) else 0, U32(|ZonePiece(p, i)|),
               if HasBloom(p, i) then U32(BloomStart(p, i)) else 0, U32(|BloomPiece(p, i)|))
  }

  function Metas(p: Plan, k: nat): (ms: seq<ColumnMeta>)
    requires Writable(p) && k <= |p.columns|
    ensures |ms| == k && forall i :: 0 <= i < k ==> ms[i] == MetaOf(p, i)
  {
    seq(k, i requires 0 <= i < k => MetaOf(p, i))
  }

  lemma MetasStorable(p: Plan, k: nat)
    requires Writable(p) && k <= |p.columns|
    ensures AllStorable(Metas(p, k))
  {
  }

  function HeaderOf(p: Plan): (h: Header)
    requires Writable(p)
    ensures |h.columns| == |p.columns| && AllStorable(h.columns)
  {
    MetasStorable(p, |p.columns|);
    Header(MAGIC, 1, p.rowCount, p.createdTs, 0, Metas(p, |p.columns|))
  }

  /** The finished file. */
  function Image(p: Plan): seq<Byte>
    requires Writable(p)
  {
    HeaderBytes(HeaderOf(p)) + Body(p, |p.columns|)
  }

  // ---- regions

  datatype Kind = Data | Zones | Filter

  function RegionStart(p: Plan, i: nat, k: Kind): nat
    requires Writable(p) && i < |p.columns|
  {
    match k
    case Data => DataStart(p, i)
    case Zones => ZoneStart(p, i)
    case Filter => BloomStart(p, i)
  }

  function RegionSize(p: Plan, i: nat, k: Kind): nat
    requires Writable(p) && i < |p.columns|
  {
    match k
    case Data => |DataPiece(p, i)|
    case Zones => |ZonePiece(p, i)|
    case Filter => |BloomPiece(p, i)|
  }

  predicate Comes(i: nat, k: Kind, j: nat, l: Kind) {
    i < j || (i == j && ((k.Data? && !l.Data?) || (k.Zones? && l.Filter?)))
  }

  lemma {:induction false} BodyGrows(p: Plan, i: nat, j: nat)
    requires Writable(p) && i < j <= |p.columns|
    ensures |Body(p, i)| + |DataPiece(p, i)| + |ZonePiece(p, i)| + |BloomPiece(p, i)| <= |Body(p, j)|
    decreases j
  {
    hide DataPiece, ZonePiece, BloomPiece;
    if i < j - 1 { BodyGrows(p, i, j - 1); }
  }

  /** Every region lies after the header and inside the file, and no two overlap. */
  lemma RegionsDisjoint(p: Plan, i: nat, k: Kind, j: nat, l: Kind)
    requires Writable(p) && i < |p.columns| && j < |p.columns| && Comes(i, k, j, l)
    ensures HeaderLength(|p.columns|) <= RegionStart(p, i, k)
    ensures RegionStart(p, i, k) + RegionSize(p, i, k) <= RegionStart(p, j, l)
    ensures RegionStart(p, j, l) + RegionSize(p, j, l) <= |Image(p)|
  {
    BodyGrows(p, j, |p.columns|);
    if i < j { BodyGrows(p, i, j); }
    hide Body, DataPiece, ZonePiece, BloomPiece, HeaderBytes, HeaderOf;
  }

  // ---- reading pieces back

  /** seek and read: what the file holds, zeroes past its end. */
  function Slice(file: seq<Byte>, start: nat, n: nat): (r: seq<Byte>)
    ensures |r| == n
  {
    if start + n <= |file| then file[start..start + n]
    else if start <= |file| then file[start..] + seq(n - (|file| - start), _ => 0)
    else seq(n, _ => 0)
  }

  /** The file is small enough for its 32-bit offsets. */
  ghost predicate Fits(p: Plan)
    requires Writable(p)
  {
    && HeaderLength(|p.columns|) + |Body(p, |p.columns|)| < TWO_32
    && forall i :: 0 <= i < |p.columns| ==> |p.columns[i].data| < TWO_32
  }

  lemma {:induction false} BodySplit(p: Plan, i: nat, n: nat) returns (tail: seq<Byte>)
    requires Writable(p) && i < n <= |p.columns|
    ensures Body(p, n) == Body(p, i) + (DataPiece(p, i) + (ZonePiece(p, i) + (BloomPiece(p, i) + tail)))
    decreases n
  {
    hide DataPiece, ZonePiece, BloomPiece;
    var d, z, b := DataPiece(p, n - 1), ZonePiece(p, n - 1), BloomPiece(p, n - 1);
    if i == n - 1 {
      tail := [];
      assert b + tail == b;
    } else {
      var t := BodySplit(p, i, n - 1);
      tail := t + d + z + b;
    }
  }

  lemma SliceOf(a: seq<Byte>, b: seq<Byte>, c: seq<Byte>)
    ensures Slice(a + (b + c), |a|, |b|) == b
  {
  }

  /** Each region of the file holds the bytes that were put there. */
  lemma PiecesInPlace(p: Plan, i: nat)
    requires Writable(p) && i < |p.columns|
    ensures Slice(Image(p), DataStart(p, i), |DataPiece(p, i)|) == DataPiece(p, i)
    ensures Slice(Image(p), ZoneStart(p, i), |ZonePiece(p, i)|) == ZonePiece(p, i)
    ensures Slice(Image(p), BloomStart(p, i), |BloomPiece(p, i)|) == BloomPiece(p, i)
  {
    hide Body, DataPiece, ZonePiece, BloomPiece, HeaderBytes, HeaderOf, Slice, Writable;
    var h := HeaderBytes(HeaderOf(p));
    var tail := BodySplit(p, i, |p.columns|);
    ThreeSlices(h, Body(p, i), DataPiece(p, i), ZonePiece(p, i), BloomPiece(p, i), tail);
  }

  lemma ThreeSlices(h: seq<Byte>, before: seq<Byte>, d: seq<Byte>, z: seq<Byte>, b: seq<Byte>, tail: seq<Byte>)
    ensures var file := h + (before + (d + (z + (b + tail))));
            var start := |h| + |before|;
            && Slice(file, start, |d|) == d
            && Slice(file, start + |d|, |z|) == z
            && Slice(file, start + |d| + |z|, |b|) == b
  {
    hide Slice;
    var file := h + (before + (d + (z + (b + tail))));
    assert file == (h + before) + (d + (z + (b + tail)));
    SliceOf(h + before, d, z + (b + tail));
    assert file == (h + before + d) + (z + (b + tail));
    SliceOf(h + before + d, z, b + tail);
    assert file == (h + before + d + z) + (b + tail);
    SliceOf(h + before + d + z, b, tail);
  }

  /** A column read from its record: the row count comes from the byte size. */
  function DecodedColumn(file: seq<Byte>, m: ColumnMeta): seq<int> {
    var n := m.size / TypeSize(m.dataType);
    var stored := AsValues(m.dataType, Slice(file, m.offset, m.size), n);
    if m.encoding.Plain? then stored else Sums(m.dataType, stored)
  }

  function ZoneMapAt(file: seq<Byte>, m: ColumnMeta): Z.Map {
    if m.zoneSize < 8 then DEFAULT_ZONE_MAP else Z.Read(Slice(file, m.zoneOffset, m.zoneSize))
  }

  function BloomAt(file: seq<Byte>, m: ColumnMeta): B.Filter {
    if m.bloomSize < 16 then DEFAULT_BLOOM else B.Read(Slice(file, m.bloomOffset, m.bloomSize))
  }

  /** The planned column holds these values in its encoding. */
  ghost predicate Encodes(c: Planned, values: seq<int>) {
    var t := c.stats.dataType;
    && AllInRange(t, values)
    && c.data == ValuesBytes(t, if c.encoding.Plain? then values else Differences(t, values))
  }

  lemma DecodeStored(t: DataType, stored: seq<int>)
    requires AllInRange(t, stored)
    ensures |ValuesBytes(t, stored)| / TypeSize(t) == |stored|
    ensures AsValues(t, ValuesBytes(t, stored), |stored|) == stored
  {
    ValuesBytesLength(t, stored);
    ValuesRoundTrip(t, stored, []);
    hide ValuesBytes, AsValues;
    assert ValuesBytes(t, stored) + [] == ValuesBytes(t, stored);
  }

  /** Offsets below 2^32 are recorded exactly. */
  lemma OffsetsExact(p: Plan, i: nat)
    requires Writable(p) && Fits(p) && i < |p.columns|
    ensures MetaOf(p, i).offset == DataStart(p, i) && MetaOf(p, i).size == |DataPiece(p, i)|
    ensures DataPiece(p, i) == p.columns[i].data
    ensures MetaOf(p, i).zoneSize == |ZonePiece(p, i)| && MetaOf(p, i).bloomSize == |BloomPiece(p, i)|
    ensures HasZoneMap(p, i) ==> MetaOf(p, i).zoneOffset == ZoneStart(p, i)
    ensures HasBloom(p, i) ==> MetaOf(p, i).bloomOffset == BloomStart(p, i)
  {
    BodyGrows(p, i, |p.columns|);
    hide Body, ZonePiece, BloomPiece, U32, U32Prefix;
    assert |p.columns[i].data| < TWO_32;
  }

  /** Reopening the file gives back the header, and every column's values. */
  lemma ReopenedHeader(p: Plan)
    requires Writable(p) && Fits(p) && p.rowCount < TWO_64 && p.createdTs < TWO_64
    ensures |Image(p)| >= FIXED_SIZE && ReadHeader(Image(p)) == HeaderOf(p)
  {
    hide HeaderBytes, ReadHeader, Body;
    HeaderRoundTrip(HeaderOf(p), Body(p, |p.columns|));
  }

  lemma ReopenedColumn(p: Plan, i: nat, values: seq<int>)
    requires Writable(p) && Fits(p) && i < |p.columns| && Encodes(p.columns[i], values)
    ensures DecodedColumn(Image(p), MetaOf(p, i)) == values
  {
    hide Image, Slice, DataStart, AsValues, ValuesBytes, Sums, Differences, Fits, Writable;
    PiecesInPlace(p, i);
    OffsetsExact(p, i);
    var t := p.columns[i].stats.dataType;
    if p.columns[i].encoding.Plain? {
      DecodeStored(t, values);
    } else {
      DecodeStored(t, Differences(t, values));
      DeltaRoundTrip(t, values);
    }
  }

  /** A zone map with blocks reads back as written; otherwise an empty one, which prunes nothing. */
  lemma ReopenedZoneMap(p: Plan, i: nat)
    requires Writable(p) && Fits(p) && i < |p.columns|
    requires HasZoneMap(p, i) ==> |p.zoneMaps[i].entries| < TWO_32 && p.zoneMaps[i].blockRows < TWO_32
    ensures ZoneMapAt(Image(p), MetaOf(p, i)) == if HasZoneMap(p, i) then p.zoneMaps[i] else DEFAULT_ZONE_MAP
  {
    hide Image, Slice, ZoneStart, Fits, Z.Image, Z.Read, MetaOf;
    PiecesInPlace(p, i);
    OffsetsExact(p, i);
    if HasZoneMap(p, i) {
      Z.ImageRoundTrip(p.zoneMaps[i], []);
      assert Z.Image(p.zoneMaps[i]) + [] == Z.Image(p.zoneMaps[i]);
    }
  }

  /** A bloom filter with words reads back as written; a column without one gets
      the default filter, all zero, which answers no to every probe that looks at a bit. */
  lemma ReopenedBloom(p: Plan, i: nat)
    requires Writable(p) && Fits(p) && i < |p.columns| && (HasBloom(p, i) ==> B.WellFormed(p.blooms[i]))
    ensures BloomAt(Image(p), MetaOf(p, i)) == if HasBloom(p, i) then p.blooms[i] else DEFAULT_BLOOM
  {
    hide Image, Slice, BloomStart, Fits, B.Image, B.Read, MetaOf, B.WellFormed, B.Fresh;
    PiecesInPlace(p, i);
    OffsetsExact(p, i);
    if HasBloom(p, i) {
      B.ImageRoundTrip(p.blooms[i], []);
      assert B.Image(p.blooms[i]) + [] == B.Image(p.blooms[i]);
    }
  }
}
