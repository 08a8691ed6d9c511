// The segment file's header (include/columnar/segment.h): six fixed fields and one
// 136-byte record per column, little-endian, padding written as zero.
module SegmentHeader {
  import opened Types
  import opened Bytes

  datatype Encoding = Plain | Delta

  datatype ColumnStats = ColumnStats(dataType: DataType, nullCount: nat, distinctCount: nat, totalCount: nat,
                                     minInt: int, maxInt: int, hasMinMax: bool)

  datatype ColumnMeta = ColumnMeta(offset: nat, size: nat, dataType: DataType, encoding: Encoding, stats: ColumnStats,
                                   zoneOffset: nat, zoneSize: nat, bloomOffset: nat, bloomSize: nat)

  datatype Header = Header(magic: nat, version: nat, numRows: nat, createdTs: nat, checksum: nat,
                           columns: seq<ColumnMeta>)

  const MAGIC: nat := 0x434F4C53
  const FIXED_SIZES: seq<nat> := [4, 4, 4, 8, 8, 8]
  const FIXED_SIZE: nat := 36
  const FRONT_SIZES: seq<nat> := [4, 4, 1, 1, 6]
  const STATS_SIZES: seq<nat> := [1, 7, 8, 8, 8, 8, 8, 48, 1, 7]
  const BACK_SIZES: seq<nat> := [4, 4, 4, 4]
  const FRONT_SIZE: nat := 16
  const STATS_SIZE: nat := 104
  const BACK_SIZE: nat := 16
  const META_SIZE: nat := 136

  const NO_STATS := ColumnStats(Int32, 0, 0, 0, 0, 0, false)
  const NO_META := ColumnMeta(0, 0, Int32, Plain, NO_STATS, 0, 0, 0, 0)

  function TypeCode(t: DataType): nat { if t.Int32? then 1 else 2 }

  function TypeOf(code: nat): DataType { if code == 1 then Int32 else Int64 }

  function EncodingCode(e: Encoding): nat { if e.Plain? then 0 else 7 }

  function EncodingOf(code: nat): Encoding { if code == 7 then Delta else Plain }

  predicate StorableStats(s: ColumnStats) {
    s.nullCount < TWO_64 && s.distinctCount < TWO_64 && s.totalCount < TWO_64 && IsInt64(s.minInt) && IsInt64(s.maxInt)
  }

  predicate Storable(m: ColumnMeta) {
    && m.offset < TWO_32 && m.size < TWO_32 && StorableStats(m.stats)
    && m.zoneOffset < TWO_32 && m.zoneSize < TWO_32 && m.bloomOffset < TWO_32 && m.bloomSize < TWO_32
  }

  ghost predicate AllStorable(ms: seq<ColumnMeta>) { forall i :: 0 <= i < |ms| ==> Storable(ms[i]) }

  // ---- column statistics

  function StatsFields(s: ColumnStats): (r: seq<nat>)
    requires StorableStats(s)
    ensures |r| == |STATS_SIZES|
  {
    [TypeCode(s.dataType), 0, s.nullCount, s.distinctCount, s.totalCount,
     Unsigned(Int64, s.minInt), Unsigned(Int64, s.maxInt), 0, Flag(s.hasMinMax), 0]
  }

  function StatsBytes(s: ColumnStats): (r: seq<Byte>)
    requires StorableStats(s)
    ensures |r| == STATS_SIZE
  {
    RecordBytes(StatsFields(s), STATS_SIZES)
  }

  function ReadStats(b: seq<Byte>): ColumnStats
    requires |b| >= STATS_SIZE
  {
    var f := ReadRecord(b, STATS_SIZES);
    ColumnStats(TypeOf(f[0]), f[2], f[3], f[4], Signed(Int64, f[5] % TWO_64), Signed(Int64, f[6] % TWO_64), f[8] != 0)
  }

  lemma StatsFit(s: ColumnStats)
    requires StorableStats(s)
    ensures forall i :: 0 <= i < |STATS_SIZES| ==> StatsFields(s)[i] < Pow256(STATS_SIZES[i])
  {
    Pow256Sizes();
  }

  lemma StatsRoundTrip(s: ColumnStats, rest: seq<Byte>)
    requires StorableStats(s)
    ensures ReadStats(StatsBytes(s) + rest) == s
  {
    hide RecordBytes, ReadRecord, Pow256, Sum;
    StatsFit(s);
    RecordRoundTrip(StatsFields(s), STATS_SIZES, rest);
  }

  // ---- column records

  function FrontBytes(m: ColumnMeta): (r: seq<Byte>)
    ensures |r| == FRONT_SIZE
  {
    RecordBytes([m.offset, m.size, TypeCode(m.dataType), EncodingCode(m.encoding), 0], FRONT_SIZES)
  }

  function BackBytes(m: ColumnMeta): (r: seq<Byte>)
    ensures |r| == BACK_SIZE
  {
    RecordBytes([m.zoneOffset, m.zoneSize, m.bloomOffset, m.bloomSize], BACK_SIZES)
  }

  function MetaBytes(m: ColumnMeta): (r: seq<Byte>)
    requires Storable(m)
    ensures |r| == META_SIZE
  {
    FrontBytes(m) + (StatsBytes(m.stats) + BackBytes(m))
  }

  function ReadMeta(b: seq<Byte>): ColumnMeta
    requires |b| >= META_SIZE
  {
    var f, k := ReadRecord(b, FRONT_SIZES), ReadRecord(b[FRONT_SIZE + STATS_SIZE..], BACK_SIZES);
    ColumnMeta(f[0], f[1], TypeOf(f[2]), EncodingOf(f[3]), ReadStats(b[FRONT_SIZE..]), k[0], k[1], k[2], k[3])
  }

  lemma FrontRoundTrip(m: ColumnMeta, rest: seq<Byte>)
    requires Storable(m)
    ensures |FrontBytes(m) + rest| >= Sum(FRONT_SIZES)
    ensures ReadRecord(FrontBytes(m) + rest, FRONT_SIZES)
         == [m.offset, m.size, TypeCode(m.dataType), EncodingCode(m.encoding), 0]
  {
    Pow256Sizes();
    hide RecordBytes, ReadRecord, Sum;
    var vals := [m.offset, m.size, TypeCode(m.dataType), EncodingCode(m.encoding), 0];
    assert Pow256(6) > 0;
    RecordRoundTrip(vals, FRONT_SIZES, rest);
  }

  lemma BackRoundTrip(m: ColumnMeta, rest: seq<Byte>)
    requires Storable(m)
    ensures |BackBytes(m) + rest| >= Sum(BACK_SIZES)
    ensures ReadRecord(BackBytes(m) + rest, BACK_SIZES) == [m.zoneOffset, m.zoneSize, m.bloomOffset, m.bloomSize]
  {
    Pow256Sizes();
    hide RecordBytes, ReadRecord, Sum, Pow256;
    RecordRoundTrip([m.zoneOffset, m.zoneSize, m.bloomOffset, m.bloomSize], BACK_SIZES, rest);
  }

  lemma MetaRoundTrip(m: ColumnMeta, rest: seq<Byte>)
    requires Storable(m)
    ensures ReadMeta(MetaBytes(m) + rest) == m
  {
    hide FrontBytes, BackBytes, StatsBytes, ReadStats, ReadRecord, Sum;
    var a, s, k := FrontBytes(m), StatsBytes(m.stats), BackBytes(m);
    var b := MetaBytes(m) + rest;
    assert b == a + (s + (k + rest));
    assert b[FRONT_SIZE..] == s + (k + rest);
    assert b[FRONT_SIZE + STATS_SIZE..] == k + rest;
    FrontRoundTrip(m, s + (k + rest));
    StatsRoundTrip(m.stats, k + rest);
    BackRoundTrip(m, rest);
  }

  /** Where the fields of a record are: offset, size, type and encoding codes in
      front of the statistics, the four index fields behind them. */
  lemma MetaLayout(m: ColumnMeta)
    requires Storable(m)
    ensures MetaBytes(m)[..8] == LeBytes(m.offset, 4) + LeBytes(m.size, 4)
    ensures MetaBytes(m)[8] == (if m.dataType.Int32? then 1 else 2)
    ensures MetaBytes(m)[9] == (if m.encoding.Plain? then 0 else 7)
    ensures MetaBytes(m)[120..] == LeBytes(m.zoneOffset, 4) + LeBytes(m.zoneSize, 4)
                                   + LeBytes(m.bloomOffset, 4) + LeBytes(m.bloomSize, 4)
  {
    FrontLayout(m);
    BackLayout(m);
    hide FrontBytes, BackBytes, StatsBytes, LeBytes;
    var bytes := MetaBytes(m);
    assert bytes[..8] == FrontBytes(m)[..8] && bytes[8] == FrontBytes(m)[8] && bytes[9] == FrontBytes(m)[9];
    assert bytes[120..] == BackBytes(m);
  }

  lemma FrontLayout(m: ColumnMeta)
    ensures FrontBytes(m)[..8] == LeBytes(m.offset, 4) + LeBytes(m.size, 4)
    ensures FrontBytes(m)[8] == (if m.dataType.Int32? then 1 else 2)
    ensures FrontBytes(m)[9] == (if m.encoding.Plain? then 0 else 7)
  {
    FrontParts(m);
    hide LeBytes, RecordBytes, FrontBytes;
    var a, b, rest := LeBytes(m.offset, 4), LeBytes(m.size, 4), RecordBytes([0], [6]);
    var front := a + (b + ([TypeCode(m.dataType)] + ([EncodingCode(m.encoding)] + rest)));
    assert front[..8] == a + b;
    assert front[8..] == [TypeCode(m.dataType)] + ([EncodingCode(m.encoding)] + rest);
    assert front[8] == front[8..][0] && front[9] == front[8..][1];
  }

  lemma FrontParts(m: ColumnMeta)
    ensures FrontBytes(m) == LeBytes(m.offset, 4)
              + (LeBytes(m.size, 4) + ([TypeCode(m.dataType)] + ([EncodingCode(m.encoding)] + RecordBytes([0], [6]))))
  {
    var t, e := TypeCode(m.dataType), EncodingCode(m.encoding);
    OneByte(t);
    OneByte(e);
    hide LeBytes, RecordBytes, Sum, TypeCode, EncodingCode;
    RecordCons(e, 1, [0], [6]);
    RecordCons(t, 1, [e, 0], [1, 6]);
    RecordCons(m.size, 4, [t, e, 0], [1, 1, 6]);
    RecordCons(m.offset, 4, [m.size, t, e, 0], [4, 1, 1, 6]);
    assert [e] + [0] == [e, 0] && [1] + [6] == [1, 6];
    assert [t] + [e, 0] == [t, e, 0] && [1] + [1, 6] == [1, 1, 6];
    assert [m.size] + [t, e, 0] == [m.size, t, e, 0] && [4] + [1, 1, 6] == [4, 1, 1, 6];
    assert [m.offset] + [m.size, t, e, 0] == [m.offset, m.size, t, e, 0] && [4] + [4, 1, 1, 6] == FRONT_SIZES;
  }

  lemma OneByte(v: nat)
    requires v < 256
    ensures LeBytes(v, 1) == [v]
  {
    assert LeBytes(v / 256, 0) == [];
  }

  lemma BackLayout(m: ColumnMeta)
    ensures BackBytes(m) == LeBytes(m.zoneOffset, 4) + LeBytes(m.zoneSize, 4)
                            + LeBytes(m.bloomOffset, 4) + LeBytes(m.bloomSize, 4)
  {
    NoFields();
    hide LeBytes, RecordBytes, Sum;
    var z, s, b, f := m.zoneOffset, m.zoneSize, m.bloomOffset, m.bloomSize;
    RecordCons(f, 4, [], []);
    RecordCons(b, 4, [f], [4]);
    RecordCons(s, 4, [b, f], [4, 4]);
    RecordCons(z, 4, [s, b, f], [4, 4, 4]);
    assert [f] + [] == [f] && [4] + [] == [4];
    assert [b] + [f] == [b, f] && [4] + [4] == [4, 4];
    assert [s] + [b, f] == [s, b, f] && [4] + [4, 4] == [4, 4, 4];
    assert [z] + [s, b, f] == [z, s, b, f] && [4] + [4, 4, 4] == BACK_SIZES;
  }

  lemma NoFields()
    ensures RecordBytes([], []) == []
  {
  }

  function MetasBytes(ms: seq<ColumnMeta>): (r: seq<Byte>)
    requires AllStorable(ms)
    ensures |r| == META_SIZE * |ms|
  {
    if ms == [] then [] else MetasBytes(ms[..|ms| - 1]) + MetaBytes(ms[|ms| - 1])
  }

  /** The records of a file that ends early read as zero. */
  function ReadMetas(b: seq<Byte>, n: nat): (ms: seq<ColumnMeta>)
    ensures |ms| == n
  {
    if n == 0 then []
    else
      var start := META_SIZE * (n - 1);
      ReadMetas(b, n - 1) + [if |b| >= start + META_SIZE then ReadMeta(b[start..]) else NO_META]
  }

  lemma MetasBytesStep(ms: seq<ColumnMeta>, rest: seq<Byte>)
    requires ms != [] && AllStorable(ms)
    ensures MetasBytes(ms) + rest == MetasBytes(ms[..|ms| - 1]) + (MetaBytes(ms[|ms| - 1]) + rest)
  {
    hide MetaBytes;
  }

  lemma {:induction false} MetasRoundTrip(ms: seq<ColumnMeta>, rest: seq<Byte>)
    requires AllStorable(ms)
    ensures ReadMetas(MetasBytes(ms) + rest, |ms|) == ms
  {
    hide ReadMeta, MetaBytes, Storable;
    if ms != [] {
      hide ReadMetas, MetasBytes;
      var n := |ms| - 1;
      var tail := MetaBytes(ms[n]) + rest;
      MetasRoundTrip(ms[..n], tail);
      MetasBytesStep(ms, rest);
      MetaRoundTrip(ms[n], rest);
    }
  }

  // ---- the whole header

  function FixedFields(h: Header): seq<nat> { [h.magic, h.version, |h.columns|, h.numRows, h.createdTs, h.checksum] }

  function HeaderBytes(h: Header): (r: seq<Byte>)
    requires AllStorable(h.columns)
    ensures |r| == HeaderLength(|h.columns|)
  {
    RecordBytes(FixedFields(h), FIXED_SIZES) + MetasBytes(h.columns)
  }

  function HeaderLength(columns: nat): nat { FIXED_SIZE + META_SIZE * columns }

  function ReadHeader(b: seq<Byte>): Header
    requires |b| >= FIXED_SIZE
  {
    var f := ReadRecord(b, FIXED_SIZES);
    Header(f[0], f[1], f[3], f[4], f[5], ReadMetas(b[FIXED_SIZE..], f[2]))
  }

  predicate FixedFits(h: Header) {
    && h.magic < TWO_32 && h.version < TWO_32 && |h.columns| < TWO_32
    && h.numRows < TWO_64 && h.createdTs < TWO_64 && h.checksum < TWO_64
  }

  /** A written header reads back unchanged, whatever follows it in the file. */
  lemma HeaderRoundTrip(h: Header, rest: seq<Byte>)
    requires AllStorable(h.columns) && FixedFits(h)
    ensures ReadHeader(HeaderBytes(h) + rest) == h
  {
    hide RecordBytes, ReadRecord, Sum, MetasBytes, ReadMetas, Pow256;
    Pow256Sizes();
    var fixed := RecordBytes(FixedFields(h), FIXED_SIZES);
    var b := HeaderBytes(h) + rest;
    assert b == fixed + (MetasBytes(h.columns) + rest);
    RecordRoundTrip(FixedFields(h), FIXED_SIZES, MetasBytes(h.columns) + rest);
    assert b[FIXED_SIZE..] == MetasBytes(h.columns) + rest;
    MetasRoundTrip(h.columns, rest);
  }
}
