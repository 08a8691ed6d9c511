// SegmentWriter and SegmentReader (include/columnar/segment.h) over an in-memory file.
module SegmentIo {
  import opened Types
  import opened Bytes
  import opened Codecs
  import opened SegmentHeader
  import opened SegmentFile
  import Z = ZoneMap
  import B = Bloom

  // ---- the file stream

  /** Bytes written over a file at a position, extending it as needed. */
  function Overwritten(bytes: seq<Byte>, pos: nat, b: seq<Byte>): seq<Byte>
    requires pos <= |bytes|
  {
    bytes[..pos] + b + if pos + |b| < |bytes| then bytes[pos + |b|..] else []
  }

  class OutFile {
    var bytes: seq<Byte>
    var pos: nat

    ghost predicate Valid() reads this { pos <= |bytes| }

    constructor ()
      ensures Valid() && bytes == [] && pos == 0
    {
      bytes, pos := [], 0;
    }

    method Write(b: seq<Byte>)
      requires Valid()
      modifies this
      ensures Valid() && bytes == Overwritten(old(bytes), old(pos), b) && pos == old(pos) + |b|
    {
      bytes := Overwritten(bytes, pos, b);
      pos := pos + |b|;
    }

    method SeekStart()
      modifies this`pos
      ensures Valid() && pos == 0
    {
      pos := 0;
    }
  }

  lemma AppendAtEnd(bytes: seq<Byte>, b: seq<Byte>)
    ensures Overwritten(bytes, |bytes|, b) == bytes + b
  {
  }

  /** w replaces the front of `all`; writing b extends the replaced part. */
  lemma OverwriteFront(w: seq<Byte>, all: seq<Byte>, b: seq<Byte>)
    requires |w| + |b| <= |all|
    ensures Overwritten(w + all[|w|..], |w|, b) == (w + b) + all[|w + b|..]
  {
  }

  /** One field of the header, written over the placeholder. */
  method WriteOver(file: OutFile, ghost all: seq<Byte>, ghost w: seq<Byte>, b: seq<Byte>)
    requires file.Valid() && file.pos == |w| && |w| + |b| <= |all| && file.bytes == w + all[|w|..]
    modifies file
    ensures file.Valid() && file.pos == |w + b| && file.bytes == (w + b) + all[|w + b|..]
  {
    hide Overwritten;
    OverwriteFront(w, all, b);
    file.Write(b);
  }

  // ---- statistics of a column

  function CountTrue(nulls: seq<bool>): (n: nat)
    ensures n <= |nulls|
  {
    if nulls == [] then 0 else CountTrue(nulls[..|nulls| - 1]) + if nulls[|nulls| - 1] then 1 else 0
  }

  /** It is the number of null rows. */
  lemma {:induction false} CountTrueMeaning(nulls: seq<bool>)
    ensures CountTrue(nulls) == |set i: nat | i < |nulls| && nulls[i]|
  {
    var all := set i: nat | i < |nulls| && nulls[i];
    if nulls == [] {
      assert all == {};
    } else {
      var n := |nulls| - 1;
      CountTrueMeaning(nulls[..n]);
      var before := set i: nat | i < n && nulls[..n][i];
      assert all == if nulls[n] then before + {n} else before;
      assert n !in before;
    }
  }

  function Distinct(values: seq<int>): set<int> { set x | x in values }

  lemma {:induction false} DistinctBound(values: seq<int>)
    ensures |Distinct(values)| <= |values|
  {
    if values != [] {
      var n := |values| - 1;
      DistinctBound(values[..n]);
      assert values == values[..n] + [values[n]];
      assert Distinct(values) == Distinct(values[..n]) + {values[n]};
    }
  }

  /** The row counts for the extremes: the first always does, later ones unless null. */
  predicate Counts(nulls: seq<bool>, i: nat) { i == 0 || (i < |nulls| && !nulls[i]) }

  ghost predicate StatExtremes(values: seq<int>, nulls: seq<bool>, n: nat, lo: int, hi: int)
    requires n <= |values|
  {
    && (exists i :: 0 <= i < n && Counts(nulls, i) && values[i] == lo)
    && (exists i :: 0 <= i < n && Counts(nulls, i) && values[i] == hi)
    && forall i :: 0 <= i < n && Counts(nulls, i) ==> lo <= values[i] <= hi
  }

  method StatMinMax(values: seq<int>, nulls: seq<bool>) returns (lo: int, hi: int)
    requires |nulls| == |values| > 0
    ensures StatExtremes(values, nulls, |values|, lo, hi)
  {
    lo, hi := values[0], values[0];
    assert Counts(nulls, 0);
    for i := 1 to |values|
      invariant StatExtremes(values, nulls, i, lo, hi)
    {
      ghost var l :| 0 <= l < i && Counts(nulls, l) && values[l] == lo;
      ghost var h :| 0 <= h < i && Counts(nulls, h) && values[h] == hi;
      if !nulls[i] {
        assert Counts(nulls, i);
        if values[i] < lo { lo := values[i]; }
        if values[i] > hi { hi := values[i]; }
      }
    }
  }

  ghost predicate DescribesColumn(s: ColumnStats, t: DataType, values: seq<int>, nulls: seq<bool>) {
    && s.dataType == t && s.totalCount == |values| && s.nullCount == CountTrue(nulls)
    && s.distinctCount == |Distinct(values)|
    && s.hasMinMax == (values != [])
    && (values != [] ==> StatExtremes(values, nulls, |values|, s.minInt, s.maxInt))
  }

  // ---- the writer

  function Resized<T>(xs: seq<T>, n: nat, pad: T): (r: seq<T>)
    ensures |r| == n && forall i :: 0 <= i < n ==> r[i] == if i < |xs| then xs[i] else pad
  {
    seq(n, i requires 0 <= i => if i < |xs| then xs[i] else pad)
  }

  /** A column as it was handed to the writer. */
  datatype Given = Given(dataType: DataType, values: seq<int>, nulls: seq<bool>, encoding: Encoding)

  ghost predicate HoldsGiven(c: Planned, g: Given) {
    && c.encoding == g.encoding && c.stats.dataType == g.dataType
    && Encodes(c, g.values) && DescribesColumn(c.stats, g.dataType, g.values, g.nulls)
  }

  /** Column i of the file, read back: its type, encoding, statistics, values and
      indexes are those given. */
  ghost predicate ReadsBack(file: seq<Byte>, m: ColumnMeta, g: Given, zoneMaps: seq<Z.Map>, blooms: seq<B.Filter>,
                            i: nat) {
    && m.dataType == g.dataType && m.encoding == g.encoding
    && DescribesColumn(m.stats, g.dataType, g.values, g.nulls)
    && DecodedColumn(file, m) == g.values
    && ZoneMapAt(file, m) == (if i < |zoneMaps| && |zoneMaps[i].entries| > 0 then zoneMaps[i] else Z.Map([], 65536))
    && BloomAt(file, m) == (if i < |blooms| && |blooms[i].bits| > 0 then blooms[i] else B.Fresh(0x10_0000, 7))
  }

  /** The whole file, read back. */
  ghost predicate FileHolds(file: seq<Byte>, given: seq<Given>, zoneMaps: seq<Z.Map>, blooms: seq<B.Filter>,
                            rows: nat) {
    && |file| >= 36
    && var h := ReadHeader(file);
       && h.magic == 0x434F_4C53 && h.version == 1 && h.numRows == rows && h.createdTs == 0 && h.checksum == 0
       && |h.columns| == |given|
       && forall i :: 0 <= i < |given| ==> ReadsBack(file, h.columns[i], given[i], zoneMaps, blooms, i)
  }

  /** Sizes that the 32-bit and 64-bit fields of the file can hold. */
  ghost predicate WithinFields(size: nat, given: seq<Given>, zoneMaps: seq<Z.Map>, blooms: seq<B.Filter>, rows: nat) {
    && size < TWO_32 && rows < TWO_64
    && (forall i :: 0 <= i < |given| ==> TypeSize(given[i].dataType) * |given[i].values| < TWO_32)
    && (forall i :: 0 <= i < |zoneMaps| ==> |zoneMaps[i].entries| < TWO_32 && zoneMaps[i].blockRows < TWO_32)
    && forall i :: 0 <= i < |blooms| && |blooms[i].bits| > 0 ==> B.WellFormed(blooms[i])
  }

  lemma GivenFits(c: Planned, g: Given)
    requires HoldsGiven(c, g)
    ensures |c.data| == TypeSize(g.dataType) * |g.values|
  {
    hide ValuesBytes, Differences, DescribesColumn;
    var t := g.dataType;
    ValuesBytesLength(t, if c.encoding.Plain? then g.values else Differences(t, g.values));
  }

  lemma PlanFits(p: Plan, given: seq<Given>)
    requires Writable(p) && |given| == |p.columns|
    requires forall i :: 0 <= i < |given| ==> HoldsGiven(p.columns[i], given[i])
    requires WithinFields(|Image(p)|, given, p.zoneMaps, p.blooms, p.rowCount)
    ensures Fits(p)
  {
    hide HoldsGiven, Body, B.WellFormed, HeaderBytes;
    forall i | 0 <= i < |p.columns| ensures |p.columns[i].data| < TWO_32 { GivenFits(p.columns[i], given[i]); }
  }

  lemma ColumnReadsBack(p: Plan, given: seq<Given>, i: nat)
    requires Writable(p) && Fits(p) && |given| == |p.columns| && i < |given| && HoldsGiven(p.columns[i], given[i])
    requires WithinFields(|Image(p)|, given, p.zoneMaps, p.blooms, p.rowCount)
    ensures ReadsBack(Image(p), MetaOf(p, i), given[i], p.zoneMaps, p.blooms, i)
  {
    hide Image, DecodedColumn, ZoneMapAt, BloomAt, Fits, Writable, Encodes, DescribesColumn, B.WellFormed, B.Fresh;
    hide DataStart, ZoneStart, BloomStart, ZonePiece, BloomPiece;
    ReopenedColumn(p, i, given[i].values);
    ReopenedZoneMap(p, i);
    ReopenedBloom(p, i);
  }

  lemma ImageHolds(p: Plan, given: seq<Given>)
    requires Writable(p) && |given| == |p.columns| && p.createdTs == 0
    requires forall i :: 0 <= i < |given| ==> HoldsGiven(p.columns[i], given[i])
    requires WithinFields(|Image(p)|, given, p.zoneMaps, p.blooms, p.rowCount)
    ensures FileHolds(Image(p), given, p.zoneMaps, p.blooms, p.rowCount)
  {
    hide Image, ReadHeader, HoldsGiven, ReadsBack, Fits, Writable, MetaOf;
    PlanFits(p, given);
    ReopenedHeader(p);
    forall i | 0 <= i < |given| ensures ReadsBack(Image(p), HeaderOf(p).columns[i], given[i], p.zoneMaps, p.blooms, i) {
      ColumnReadsBack(p, given, i);
    }
  }

  class SegmentWriter {
    var columns: seq<Planned>
    ghost var given: seq<Given>
    var zoneMaps: seq<Z.Map>
    var blooms: seq<B.Filter>
    var rowCount: nat
    var timestamp: nat
    var createdTs: nat

    ghost function Value(): Plan reads this { Plan(columns, zoneMaps, blooms, rowCount, createdTs) }

    /** The creation time is copied here, before anyone can set the timestamp. */
    ghost predicate Valid() reads this {
      && Writable(Value()) && createdTs == 0 && |given| == |columns|
      && forall i :: 0 <= i < |columns| ==> HoldsGiven(columns[i], given[i])
    }

    constructor ()
      ensures Valid() && Value() == Plan([], [], [], 0, 0) && timestamp == 0 && given == []
    {
      columns, zoneMaps, blooms, rowCount, timestamp, given := [], [], [], 0, 0, [];
      new;
      createdTs := timestamp;
    }

    method SetTimestamp(ts: nat)
      requires Valid()
      modifies this`timestamp
      ensures Valid() && timestamp == ts && Value() == old(Value())
    {
      timestamp := ts;
    }

    method AddColumn(t: DataType, values: seq<int>, nulls: seq<bool>, encoding: Encoding)
      requires Valid() && AllInRange(t, values) && |nulls| == |values| < TWO_64
      modifies this`columns, this`rowCount, this`given
      ensures Valid() && given == old(given) + [Given(t, values, nulls, encoding)]
      ensures |columns| == |old(columns)| + 1 && columns[..|old(columns)|] == old(columns)
      ensures rowCount == if old(rowCount) < |values| then |values| else old(rowCount)
    {
      hide ValuesBytes, Differences, StatExtremes, CountTrue;
      DistinctBound(values);
      var buffer := new Buffer();
      if encoding.Plain? { EncodePlain(t, values, buffer); } else { EncodeDelta(t, values, buffer); }
      var stats := ColumnStats(t, CountTrue(nulls), |Distinct(values)|, |values|, 0, 0, false);
      if values != [] {
        var lo, hi := StatMinMax(values, nulls);
        stats := stats.(minInt := lo, maxInt := hi, hasMinMax := true);
      }
      columns := columns + [Planned(buffer.data[..buffer.size], encoding, stats)];
      given := given + [Given(t, values, nulls, encoding)];
      rowCount := if rowCount < |values| then |values| else rowCount;
    }

    method AddZoneMap(i: nat, zm: Z.Map)
      requires Valid() && Z.AllStorable(zm.entries)
      modifies this`zoneMaps
      ensures Valid()
      ensures |zoneMaps| == (if |old(zoneMaps)| <= i then i + 1 else |old(zoneMaps)|) && zoneMaps[i] == zm
      ensures forall j :: 0 <= j < |zoneMaps| && j != i ==>
        zoneMaps[j] == if j < |old(zoneMaps)| then old(zoneMaps)[j] else Z.Map([], 65536)
    {
      if |zoneMaps| <= i { zoneMaps := Resized(zoneMaps, i + 1, DEFAULT_ZONE_MAP); }
      zoneMaps := zoneMaps[i := zm];
    }

    /** Columns skipped over get the default filter, which has every bit clear. */
    method AddBloomFilter(i: nat, f: B.Filter)
      requires Valid()
      modifies this`blooms
      ensures Valid()
      ensures |blooms| == (if |old(blooms)| <= i then i + 1 else |old(blooms)|) && blooms[i] == f
      ensures forall j :: 0 <= j < |blooms| && j != i ==>
        blooms[j] == if j < |old(blooms)| then old(blooms)[j] else B.Fresh(0x10_0000, 7)
    {
      if |blooms| <= i { blooms := Resized(blooms, i + 1, DEFAULT_BLOOM); }
      blooms := blooms[i := f];
    }

    /** The column's three pieces, appended, and the record that locates them. */
    method WritePieces(file: OutFile, i: nat, ghost p: Plan) returns (meta: ColumnMeta)
      requires Valid() && file.Valid() && p == Value() && i < |columns|
      requires file.pos == |file.bytes| == DataStart(p, i)
      modifies file
      ensures file.Valid() && file.pos == |file.bytes|
      ensures file.bytes == old(file.bytes) + DataPiece(p, i) + ZonePiece(p, i) + BloomPiece(p, i)
      ensures meta == MetaOf(p, i)
    {
      hide Overwritten, DataStart, Writable, Z.Image, B.Image, U32, U32Prefix;
      var c := columns[i];
      meta := ColumnMeta(U32(file.pos), U32(|c.data|), c.stats.dataType, c.encoding, c.stats, 0, 0, 0, 0);
      AppendAtEnd(file.bytes, U32Prefix(c.data));
      file.Write(U32Prefix(c.data));
      if i < |zoneMaps| && |zoneMaps[i].entries| > 0 {
        ZoneStorable(p, i);
        var zb := ZoneImage(zoneMaps[i]);
        meta := meta.(zoneOffset := U32(file.pos), zoneSize := U32(|zb|));
        AppendAtEnd(file.bytes, zb);
        file.Write(zb);
      }
      if i < |blooms| && |blooms[i].bits| > 0 {
        var bb := BloomImage(blooms[i]);
        meta := meta.(bloomOffset := U32(file.pos), bloomSize := U32(|bb|));
        AppendAtEnd(file.bytes, bb);
        file.Write(bb);
      }
    }

    /** Finish writes exactly the file image, and a file within its field sizes reads
        back all that was given. Its creation time is the timestamp set on the
        writer only if that was 0. */
    method Finish(file: OutFile) returns (header: Header)
      requires Valid() && file.Valid() && file.bytes == [] && file.pos == 0
      modifies file
      ensures file.Valid() && file.bytes == Image(Value()) && header == HeaderOf(Value())
      ensures header.createdTs == timestamp <==> timestamp == 0
      ensures WithinFields(|file.bytes|, given, zoneMaps, blooms, rowCount) ==>
        FileHolds(file.bytes, given, zoneMaps, blooms, rowCount)
    {
      hide Overwritten, Writable, Body, HeaderBytes, MetaOf, DataPiece, ZonePiece, BloomPiece;
      hide HoldsGiven, WithinFields, FileHolds;
      ghost var p := Value();
      var n := |columns|;
      var zeroes: seq<Byte> := seq(HeaderLength(n), _ => 0);
      AppendAtEnd([], zeroes);
      file.Write(zeroes);
      var metas: seq<ColumnMeta> := [];
      BodyStart(p, zeroes);
      for i := 0 to n
        invariant file.Valid() && file.pos == |file.bytes| && file.bytes == zeroes + Body(p, i)
        invariant metas == Metas(p, i)
      {
        BodyStep(p, i, zeroes);
        var meta := WritePieces(file, i, p);
        metas := metas + [meta];
      }
      MetasStorable(p, n);
      header := Header(MAGIC, 1, rowCount, createdTs, 0, metas);
      file.SeekStart();
      WriteHeader(file, header, zeroes, Body(p, n));
      if WithinFields(|file.bytes|, given, zoneMaps, blooms, rowCount) { ImageHolds(p, given); }
    }
  }

  lemma ZoneStorable(p: Plan, i: nat)
    requires Writable(p) && i < |p.zoneMaps|
    ensures Z.AllStorable(p.zoneMaps[i].entries)
  {
  }

  lemma BodyStart(p: Plan, zeroes: seq<Byte>)
    requires Writable(p)
    ensures zeroes + Body(p, 0) == [] + zeroes && Metas(p, 0) == []
  {
  }

  lemma BodyStep(p: Plan, i: nat, zeroes: seq<Byte>)
    requires Writable(p) && i < |p.columns| && |zeroes| == HeaderLength(|p.columns|)
    ensures DataStart(p, i) == |zeroes + Body(p, i)|
    ensures zeroes + Body(p, i + 1) == zeroes + Body(p, i) + DataPiece(p, i) + ZonePiece(p, i) + BloomPiece(p, i)
    ensures Metas(p, i + 1) == Metas(p, i) + [MetaOf(p, i)]
  {
    hide DataPiece, ZonePiece, BloomPiece, MetaOf;
  }

  method ZoneImage(zm: Z.Map) returns (b: seq<Byte>)
    requires Z.AllStorable(zm.entries)
    ensures b == Z.Image(zm)
  {
    hide Z.Image;
    var buffer := new Buffer();
    Z.Write(zm, buffer);
    b := buffer.data[..buffer.size];
  }

  method BloomImage(f: B.Filter) returns (b: seq<Byte>)
    ensures b == B.Image(f)
  {
    hide B.Image;
    var buffer := new Buffer();
    B.Write(f, buffer);
    b := buffer.data[..buffer.size];
  }

  /** The fixed fields, field by field as they are written. */
  lemma FixedLayout(h: Header)
    ensures RecordBytes(FixedFields(h), FIXED_SIZES)
         == LeBytes(h.magic, 4) + LeBytes(h.version, 4) + LeBytes(|h.columns|, 4)
            + LeBytes(h.numRows, 8) + LeBytes(h.createdTs, 8) + LeBytes(h.checksum, 8)
    ensures |RecordBytes(FixedFields(h), FIXED_SIZES)| == FIXED_SIZE
  {
    hide LeBytes, RecordBytes, Sum;
    NoRecord();
    var v6, v5, v4 := [h.checksum], [h.createdTs, h.checksum], [h.numRows, h.createdTs, h.checksum];
    var v3, v2 := [|h.columns|] + v4, [h.version] + ([|h.columns|] + v4);
    RecordCons(h.checksum, 8, [], []);
    assert [h.checksum] + [] == v6 && [8] + [] == [8];
    RecordCons(h.createdTs, 8, v6, [8]);
    assert [h.createdTs] + v6 == v5 && [8] + [8] == [8, 8];
    RecordCons(h.numRows, 8, v5, [8, 8]);
    assert [h.numRows] + v5 == v4 && [8] + [8, 8] == [8, 8, 8];
    RecordCons(|h.columns|, 4, v4, [8, 8, 8]);
    assert [4] + [8, 8, 8] == [4, 8, 8, 8];
    RecordCons(h.version, 4, v3, [4, 8, 8, 8]);
    assert [4] + [4, 8, 8, 8] == [4, 4, 8, 8, 8];
    RecordCons(h.magic, 4, v2, [4, 4, 8, 8, 8]);
    assert [h.magic] + v2 == FixedFields(h) && [4] + [4, 4, 8, 8, 8] == FIXED_SIZES;
  }

  lemma NoRecord()
    ensures RecordBytes([], []) == []
  {
  }

  method WriteFixed(file: OutFile, ghost all: seq<Byte>, h: Header)
    requires file.Valid() && file.pos == 0 && file.bytes == all && |all| >= FIXED_SIZE
    modifies file
    ensures file.Valid() && file.pos == FIXED_SIZE
    ensures file.bytes == RecordBytes(FixedFields(h), FIXED_SIZES) + all[FIXED_SIZE..]
  {
    hide LeBytes, RecordBytes;
    assert all[0..] == all;
    var f1, f2, f3 := LeBytes(h.magic, 4), LeBytes(h.version, 4), LeBytes(|h.columns|, 4);
    var f4, f5, f6 := LeBytes(h.numRows, 8), LeBytes(h.createdTs, 8), LeBytes(h.checksum, 8);
    WriteOver(file, all, [], f1);
    assert [] + f1 == f1;
    WriteOver(file, all, f1, f2);
    WriteOver(file, all, f1 + f2, f3);
    WriteOver(file, all, f1 + f2 + f3, f4);
    WriteOver(file, all, f1 + f2 + f3 + f4, f5);
    WriteOver(file, all, f1 + f2 + f3 + f4 + f5, f6);
    FixedLayout(h);
  }

  lemma MetasStep(h: Header, i: nat)
    requires AllStorable(h.columns) && i < |h.columns|
    ensures Storable(h.columns[i]) && AllStorable(h.columns[..i]) && AllStorable(h.columns[..i + 1])
    ensures MetasBytes(h.columns[..i + 1]) == MetasBytes(h.columns[..i]) + MetaBytes(h.columns[i])
  {
    hide MetaBytes, Storable;
    assert h.columns[..i + 1][..i] == h.columns[..i];
  }

  lemma NoMetas(h: Header)
    ensures AllStorable(h.columns[..0]) && MetasBytes(h.columns[..0]) == []
  {
  }

  lemma HeaderIs(h: Header)
    requires AllStorable(h.columns)
    ensures HeaderBytes(h) == RecordBytes(FixedFields(h), FIXED_SIZES) + MetasBytes(h.columns)
  {
    hide RecordBytes, MetasBytes;
  }

  /** The header goes over the placeholder and touches nothing behind it. */
  method WriteHeader(file: OutFile, h: Header, ghost zeroes: seq<Byte>, ghost body: seq<Byte>)
    requires file.Valid() && file.pos == 0 && file.bytes == zeroes + body
    requires AllStorable(h.columns) && |zeroes| == HeaderLength(|h.columns|)
    modifies file
    ensures file.Valid() && file.bytes == HeaderBytes(h) + body
  {
    hide LeBytes, MetaBytes, HeaderBytes, AllStorable, RecordBytes, MetasBytes, Storable;
    ghost var all := zeroes + body;
    WriteFixed(file, all, h);
    FixedLayout(h);
    NoMetas(h);
    ghost var w := RecordBytes(FixedFields(h), FIXED_SIZES);
    assert w == w + MetasBytes(h.columns[..0]);
    for i := 0 to |h.columns|
      invariant file.Valid() && AllStorable(h.columns[..i])
      invariant w == RecordBytes(FixedFields(h), FIXED_SIZES) + MetasBytes(h.columns[..i])
      invariant |w| == HeaderLength(i) && file.pos == |w| && file.bytes == w + all[|w|..]
    {
      MetasStep(h, i);
      var b := MetaBytes(h.columns[i]);
      WriteOver(file, all, w, b);
      w := w + b;
    }
    assert h.columns[..|h.columns|] == h.columns;
    HeaderIs(h);
    assert all[|w|..] == body;
  }

  // ---- the reader

  class SegmentReader {
    const file: seq<Byte>
    const header: Header
    var cached: seq<Option<seq<int>>>

    /** Whatever is cached is what the file would decode to. */
    ghost predicate Valid() reads this {
      forall i :: 0 <= i < |cached| && cached[i].Some? ==>
        i < |header.columns| && cached[i].value == DecodedColumn(file, header.columns[i])
    }

    constructor (f: seq<Byte>)
      requires |f| >= FIXED_SIZE
      ensures Valid() && file == f && header == ReadHeader(f)
    {
      file, header, cached := f, ReadHeader(f), [];
    }

    method GetColumn(i: nat) returns (column: seq<int>)
      requires Valid() && i < |header.columns|
      modifies this`cached
      ensures Valid() && column == DecodedColumn(file, header.columns[i])
    {
      hide DecodedColumn;
      if i < |cached| && cached[i].Some? { return cached[i].value; }
      if |cached| <= i { cached := Resized(cached, i + 1, None); }
      column := DecodeFrom(file, header.columns[i]);
      cached := cached[i := Some(column)];
    }

    /** Any row range of a column, cached or not. */
    method GetColumnData(i: nat, offset: nat, count: nat) returns (data: seq<int>)
      requires Valid() && i < |header.columns| && offset + count <= |DecodedColumn(file, header.columns[i])|
      modifies this`cached
      ensures Valid() && data == DecodedColumn(file, header.columns[i])[offset..offset + count]
    {
      hide DecodedColumn;
      var column := GetColumn(i);
      data := column[offset..offset + count];
    }
  }

  method DecodeFrom(file: seq<Byte>, m: ColumnMeta) returns (column: seq<int>)
    ensures column == DecodedColumn(file, m)
  {
    hide AsValues, Sums, Slice;
    var encoded := Slice(file, m.offset, m.size);
    var count := m.size / TypeSize(m.dataType);
    var values := new int[count];
    if m.encoding.Plain? {
      DecodePlain(m.dataType, encoded, values, count);
    } else {
      DecodeDelta(m.dataType, encoded, values, count);
    }
    column := values[..count];
  }

  /** Reopening a finished file and reading any row range of any column gives the
      original values, whatever else the file holds. */
  lemma RangeRoundTrip(p: Plan, i: nat, values: seq<int>, offset: nat, count: nat)
    requires Writable(p) && Fits(p) && p.rowCount < TWO_64 && p.createdTs < TWO_64
    requires i < |p.columns| && Encodes(p.columns[i], values) && offset + count <= |values|
    ensures |Image(p)| >= FIXED_SIZE && i < |ReadHeader(Image(p)).columns|
    ensures |DecodedColumn(Image(p), ReadHeader(Image(p)).columns[i])| == |values|
    ensures DecodedColumn(Image(p), ReadHeader(Image(p)).columns[i])[offset..offset + count]
         == values[offset..offset + count]
  {
    hide Image, ReadHeader, DecodedColumn, MetaOf, Encodes, Fits, Writable;
    ReopenedHeader(p);
    ReopenedColumn(p, i, values);
  }
}
