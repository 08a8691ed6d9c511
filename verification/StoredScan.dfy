// From file to result: a segment written to a file, reopened and scanned.
module StoredScan {
  import opened Types
  import opened Bytes
  import opened Bits
  import opened BitStream
  import opened Predicate
  import opened Chains
  import opened Scanner
  import opened Exactness
  import H = SegmentHeader
  import F = SegmentFile
  import Z = ZoneMap
  import B = Bloom

  /** What a scan sees of an opened file. */
  function Loaded(file: seq<Byte>): Segment
    requires |file| >= H.FIXED_SIZE
  {
    var ms := H.ReadHeader(file).columns;
    Segment(H.ReadHeader(file).numRows,
            seq(|ms|, i requires 0 <= i < |ms| => ms[i].dataType),
            seq(|ms|, i requires 0 <= i < |ms| => F.DecodedColumn(file, ms[i])),
            seq(|ms|, i requires 0 <= i < |ms| => F.ZoneMapAt(file, ms[i])),
            seq(|ms|, i requires 0 <= i < |ms| => F.BloomAt(file, ms[i])))
  }

  function TypesOf(p: F.Plan): (r: seq<DataType>)
    ensures |r| == |p.columns| && forall i :: 0 <= i < |r| ==> r[i] == p.columns[i].stats.dataType
  {
    seq(|p.columns|, i requires 0 <= i < |p.columns| => p.columns[i].stats.dataType)
  }

  /** The plan stores these columns, all of the same length, in a file whose
      offsets fit and whose zone maps and filters can be read back. */
  ghost predicate Stores(p: F.Plan, values: seq<seq<int>>) {
    && F.Writable(p) && F.Fits(p) && p.rowCount < TWO_64 && p.createdTs < TWO_64 && |values| == |p.columns|
    && forall i :: 0 <= i < |values| ==> StoresColumn(p, values, i)
  }

  ghost predicate StoresColumn(p: F.Plan, values: seq<seq<int>>, i: nat)
    requires i < |p.columns| && i < |values|
  {
    && |values[i]| == p.rowCount && F.Encodes(p.columns[i], values[i])
    && (F.HasZoneMap(p, i) ==> |p.zoneMaps[i].entries| < TWO_32 && p.zoneMaps[i].blockRows < TWO_32)
    && (F.HasBloom(p, i) ==> B.WellFormed(p.blooms[i]))
  }

  /** The indexes the first comparison consults were built from its column: a zone
      map (if present) with the scan's block size and, for an equality, a filled
      bloom filter. */
  ghost predicate Indexed(hash: B.Hash, p: F.Plan, values: seq<seq<int>>, first: Comparison, ctx: ScanContext)
    requires first.column < |values| == |p.columns|
  {
    var i := first.column;
    && ZoneIndexed(p, values, i, ctx)
    && (ctx.bloomPruning && first.op == CmpOp.Eq ==>
          F.HasBloom(p, i) && BloomMatches(hash, p.blooms[i], p.columns[i].stats.dataType, values[i]))
  }

  ghost predicate ZoneIndexed(p: F.Plan, values: seq<seq<int>>, i: nat, ctx: ScanContext)
    requires i < |values|
  {
    ctx.zonePruning && F.HasZoneMap(p, i) ==> ZoneMapMatches(p.zoneMaps[i], values[i], ctx.blockSize)
  }

  /** Column i of the reopened file, with its indexes. */
  lemma LoadedColumn(p: F.Plan, values: seq<seq<int>>, i: nat)
    requires Stores(p, values) && i < |values|
    ensures |F.Image(p)| >= H.FIXED_SIZE
    ensures var s := Loaded(F.Image(p));
            && s.numRows == p.rowCount && |s.columns| == |s.types| == |s.zoneMaps| == |s.blooms| == |values|
            && s.columns[i] == values[i] && s.types[i] == p.columns[i].stats.dataType
            && s.zoneMaps[i] == (if F.HasZoneMap(p, i) then p.zoneMaps[i] else F.DEFAULT_ZONE_MAP)
            && s.blooms[i] == (if F.HasBloom(p, i) then p.blooms[i] else F.DEFAULT_BLOOM)
  {
    hide F.Image, H.ReadHeader, F.DecodedColumn, F.ZoneMapAt, F.BloomAt, F.Fits, F.Writable, F.Encodes, B.WellFormed;
    assert StoresColumn(p, values, i);
    F.ReopenedHeader(p);
    F.ReopenedColumn(p, i, values[i]);
    F.ReopenedZoneMap(p, i);
    F.ReopenedBloom(p, i);
  }

  lemma LoadedShape(p: F.Plan)
    requires F.Writable(p) && F.Fits(p) && p.rowCount < TWO_64 && p.createdTs < TWO_64
    ensures |F.Image(p)| >= H.FIXED_SIZE
    ensures var s := Loaded(F.Image(p));
            s.numRows == p.rowCount && |s.columns| == |s.types| == |s.zoneMaps| == |s.blooms| == |p.columns|
  {
    hide F.Image, H.ReadHeader, F.DecodedColumn, F.ZoneMapAt, F.BloomAt, F.Fits, F.Writable;
    F.ReopenedHeader(p);
  }

  lemma LoadedValid(p: F.Plan, values: seq<seq<int>>)
    requires Stores(p, values)
    ensures |F.Image(p)| >= H.FIXED_SIZE && ValidSegment(Loaded(F.Image(p)))
    ensures Loaded(F.Image(p)).columns == values && Loaded(F.Image(p)).types == TypesOf(p)
  {
    hide F.Image, Loaded, F.Fits, F.Writable, B.WellFormed, F.Encodes;
    LoadedShape(p);
    var s := Loaded(F.Image(p));
    forall i | 0 <= i < |values|
      ensures s.columns[i] == values[i] && s.types[i] == TypesOf(p)[i]
      ensures |s.columns[i]| == s.numRows && AllInRange(s.types[i], s.columns[i]) && B.WellFormed(s.blooms[i])
    {
      LoadedColumn(p, values, i);
      StoredFacts(p, values, i);
    }
  }

  lemma StoredFacts(p: F.Plan, values: seq<seq<int>>, i: nat)
    requires Stores(p, values) && i < |values|
    ensures AllInRange(p.columns[i].stats.dataType, values[i]) && |values[i]| == p.rowCount
    ensures B.WellFormed(if F.HasBloom(p, i) then p.blooms[i] else F.DEFAULT_BLOOM)
  {
    hide F.Fits, F.Writable;
    assert StoresColumn(p, values, i);
  }

  /** The reopened file is a valid segment over the plan's schema, and scanning it
      gives exactly the rows of the row-by-row filter. */
  ghost predicate FileScansExactly(hash: B.Hash, p: F.Plan, ch: Chain, ctx: ScanContext)
    requires F.Writable(p) && ValidContext(ctx) && ChainFits(ch, TypesOf(p))
  {
    && |F.Image(p)| >= H.FIXED_SIZE && ValidSegment(Loaded(F.Image(p))) && Loaded(F.Image(p)).types == TypesOf(p)
    && ScanIsExact(hash, Loaded(F.Image(p)), ch, ctx)
  }

  /** For every stored segment, sound chain, block size and setting of the pruning
      flags: scanning the reopened file delivers exactly the rows of the original
      columns that satisfy the predicate. */
  lemma StoredScanExact(hash: B.Hash, p: F.Plan, values: seq<seq<int>>, ch: Chain, ctx: ScanContext)
    requires Stores(p, values) && ValidContext(ctx) && ChainFits(ch, TypesOf(p)) && Sound(TypesOf(p), ch, ctx)
    requires Indexed(hash, p, values, ch.first, ctx)
    ensures FileScansExactly(hash, p, ch, ctx) && Loaded(F.Image(p)).columns == values
  {
    hide F.Image, Loaded, ScanIsExact, Sound, ValidSegment;
    hide StoresColumn, F.Writable, F.Fits, ZoneMapMatches, BloomMatches;
    LoadedValid(p, values);
    LoadedIndexes(hash, p, values, ch, ctx);
    ScanExact(hash, Loaded(F.Image(p)), ch, ctx);
  }

  lemma LoadedIndexes(hash: B.Hash, p: F.Plan, values: seq<seq<int>>, ch: Chain, ctx: ScanContext)
    requires Stores(p, values) && ch.first.column < |values| && Indexed(hash, p, values, ch.first, ctx)
    requires |F.Image(p)| >= H.FIXED_SIZE && ValidSegment(Loaded(F.Image(p))) && Loaded(F.Image(p)).columns == values
    ensures IndexesMatch(hash, Loaded(F.Image(p)), ch.first, ctx)
  {
    hide F.Image, Loaded, StoresColumn, F.Writable, F.Fits, BloomMatches, ValidSegment;
    LoadedColumn(p, values, ch.first.column);
  }

  // ---- columns stored without a bloom filter

  /** Such a column reads back a filter that holds no key at all. */
  lemma MissingBloomHoldsNothing(hash: B.Hash, key: nat)
    ensures F.DEFAULT_BLOOM.numBits > 0 && !B.Contains(hash, F.DEFAULT_BLOOM, key)
  {
    hide B.Position, Bit;
    var f := F.DEFAULT_BLOOM;
    var q := B.Position(hash, key, 0, f.numBits);
    BitZero(q % 64);
    assert !StreamBit(f.bits, 64, q);
  }

  /** So an equality on it prunes every block. */
  lemma MissingBloomPrunes(hash: B.Hash, p: F.Plan, values: seq<seq<int>>, ch: Chain, ctx: ScanContext, b: nat)
    requires Stores(p, values) && ch.first.column < |values| && !F.HasBloom(p, ch.first.column)
    requires ctx.bloomPruning && ch.first.op == CmpOp.Eq
    ensures |F.Image(p)| >= H.FIXED_SIZE && Pruned(hash, Loaded(F.Image(p)), ChainPred(ch), ctx, b)
  {
    hide F.Image, Loaded, ChainPred, B.Contains, StoresColumn, F.Writable, F.Fits;
    LoadedColumn(p, values, ch.first.column);
    FirstTestOf(ch);
    MissingBloomHoldsNothing(hash, ProbeKey(ch.first.value));
  }

  /** Scans are exact on every file over this schema that has no filter on the
      first comparison's column and a matching zone map there or none. */
  ghost predicate ExactWithoutFilter(types: seq<DataType>, ch: Chain, ctx: ScanContext)
    requires ValidContext(ctx) && ChainFits(ch, types)
  {
    forall p, values | Unfiltered(p, values, types, ch.first.column, ctx) :: FileScansExactly(B.MURMUR, p, ch, ctx)
  }

  ghost predicate Unfiltered(p: F.Plan, values: seq<seq<int>>, types: seq<DataType>, c: nat, ctx: ScanContext) {
    && Stores(p, values) && TypesOf(p) == types && c < |values|
    && !F.HasBloom(p, c) && ZoneIndexed(p, values, c, ctx)
  }

  /** Nothing to find: pruning cannot lose anything. */
  lemma UnsatisfiableIsExact(hash: B.Hash, seg: Segment, ch: Chain, ctx: ScanContext)
    requires ValidSegment(seg) && ValidContext(ctx) && ChainFits(ch, seg.types) && Unsatisfiable(seg.types, ch)
    requires Sound(seg.types, ch, ctx.(bloomPruning := false))
    ensures ScanIsExact(hash, seg, ch, ctx)
  {
    hide ChainPred, ChainValue, Runnable, Ids, RowTest, Pruned;
    ChainRunnable(seg, ch);
    var kept, naive := KeptMask(hash, seg, ChainPred(ch), ctx, seg.numRows), NaiveMask(seg, ch);
    forall r | 0 <= r < seg.numRows ensures !kept[r] && !naive[r] {
      UnsatisfiableRow(seg, ch, ctx, r);
    }
    assert kept == naive;
  }

  lemma UnsatisfiableRow(seg: Segment, ch: Chain, ctx: ScanContext, r: nat)
    requires ValidSegment(seg) && ChainFits(ch, seg.types) && Unsatisfiable(seg.types, ch) && r < seg.numRows
    requires Sound(seg.types, ch, ctx)
    ensures Runnable(ChainPred(ch), seg) && !RowTest(seg, ChainPred(ch), r) && !ChainValue(ch, RowAt(seg, r))
  {
    hide ChainPred, Runnable, RowTest, SingleAgrees, Wrap, Compare;
    RowTestOf(seg, ch, r);
    assert TypedRow(seg.types, RowAt(seg, r));
    var c, f := ch.first.column, ch.first;
    if ch.links == [] { AgreesEverywhere(seg.types[c], f.op, f.value, ch.nots, seg.columns[c][r]); }
  }

  // ---- one-row files

  function OneRowColumn(t: DataType, v: int): F.Planned
    requires InRange(t, v)
  {
    F.Planned(ValuesBytes(t, [v]), H.Plain, H.ColumnStats(t, 0, 1, 1, v, v, true))
  }

  /** The row stored plainly, without zone maps or filters. */
  function OneRowPlan(types: seq<DataType>, row: seq<int>): (p: F.Plan)
    requires |row| == |types| && forall c :: 0 <= c < |types| ==> InRange(types[c], row[c])
    ensures |p.columns| == |types| && forall c :: 0 <= c < |types| ==> p.columns[c] == OneRowColumn(types[c], row[c])
  {
    F.Plan(seq(|types|, c requires 0 <= c < |types| => OneRowColumn(types[c], row[c])), [], [], 1, 0)
  }

  function OneRowValues(row: seq<int>): (v: seq<seq<int>>)
    ensures |v| == |row| && forall c :: 0 <= c < |row| ==> v[c] == [row[c]]
  {
    seq(|row|, c requires 0 <= c < |row| => [row[c]])
  }

  /** Room for the header records and one value per column under 32-bit offsets. */
  predicate OneRowFits(types: seq<DataType>) { H.HeaderLength(|types|) + 8 * |types| < TWO_32 }

  lemma {:induction false} OneRowBody(types: seq<DataType>, row: seq<int>, k: nat)
    requires TypedRow(types, row) && k <= |types|
    ensures F.Writable(OneRowPlan(types, row)) && |F.Body(OneRowPlan(types, row), k)| <= 8 * k
  {
    hide OneRowPlan;
    OneRowWritable(types, row);
    if k > 0 {
      OneRowBody(types, row, k - 1);
      ValuesBytesLength(types[k - 1], [row[k - 1]]);
    }
  }

  lemma OneRowWritable(types: seq<DataType>, row: seq<int>)
    requires TypedRow(types, row)
    ensures F.Writable(OneRowPlan(types, row))
    ensures OneRowPlan(types, row).zoneMaps == [] && OneRowPlan(types, row).blooms == []
  {
    hide ValuesBytes;
  }

  lemma OneRowStored(types: seq<DataType>, row: seq<int>, c: nat, ctx: ScanContext)
    requires TypedRow(types, row) && OneRowFits(types) && c < |types|
    ensures Unfiltered(OneRowPlan(types, row), OneRowValues(row), types, c, ctx)
  {
    hide ValuesBytes, F.Body;
    var p := OneRowPlan(types, row);
    OneRowBody(types, row, |types|);
    forall i | 0 <= i < |types| ensures |p.columns[i].data| < TWO_32 && StoresColumn(p, OneRowValues(row), i) {
      ValuesBytesLength(types[i], [row[i]]);
    }
  }

  /** On every file over the schema without a filter on its first column, a chain
      that is sound without bloom pruning scans exactly if and only if bloom
      pruning is off, its first operator is not an equality, or it matches nothing. */
  lemma ExactWithoutFilterIff(types: seq<DataType>, ch: Chain, ctx: ScanContext)
    requires ValidContext(ctx) && ChainFits(ch, types) && OneRowFits(types)
    requires Sound(types, ch, ctx.(bloomPruning := false))
    ensures ExactWithoutFilter(types, ch, ctx)
       <==> !ctx.bloomPruning || ch.first.op != CmpOp.Eq || Unsatisfiable(types, ch)
  {
    if !ctx.bloomPruning || ch.first.op != CmpOp.Eq || Unsatisfiable(types, ch) {
      forall p, values | Unfiltered(p, values, types, ch.first.column, ctx)
        ensures FileScansExactly(B.MURMUR, p, ch, ctx) {
        WithoutFilterExact(p, values, types, ch, ctx);
      }
    } else {
      var row :| TypedRow(types, row) && ChainValue(ch, row);
      MatchLost(types, row, ch, ctx);
      OneRowStored(types, row, ch.first.column, ctx);
    }
  }

  lemma WithoutFilterExact(p: F.Plan, values: seq<seq<int>>, types: seq<DataType>, ch: Chain, ctx: ScanContext)
    requires ValidContext(ctx) && ChainFits(ch, types) && Unfiltered(p, values, types, ch.first.column, ctx)
    requires Sound(types, ch, ctx.(bloomPruning := false))
    requires !ctx.bloomPruning || ch.first.op != CmpOp.Eq || Unsatisfiable(types, ch)
    ensures FileScansExactly(B.MURMUR, p, ch, ctx)
  {
    hide F.Image, Loaded, ScanIsExact, Unsatisfiable, ImpliesFirst, SingleAgrees;
    hide ValidSegment, F.Writable, F.Fits, StoresColumn, ChainFits, ZoneMapMatches;
    if !ctx.bloomPruning || ch.first.op != CmpOp.Eq {
      StoredScanExact(B.MURMUR, p, values, ch, ctx);
    } else {
      LoadedValid(p, values);
      UnsatisfiableIsExact(B.MURMUR, Loaded(F.Image(p)), ch, ctx);
    }
  }

  /** The one-row file of a matching row: the filter selects the row, the scan of
      the reopened file delivers nothing. */
  lemma MatchLost(types: seq<DataType>, row: seq<int>, ch: Chain, ctx: ScanContext)
    requires TypedRow(types, row) && OneRowFits(types) && ValidContext(ctx) && ChainFits(ch, types)
    requires ChainValue(ch, row)
    requires ctx.bloomPruning && ch.first.op == CmpOp.Eq
    ensures F.Writable(OneRowPlan(types, row)) && TypesOf(OneRowPlan(types, row)) == types
    ensures !FileScansExactly(B.MURMUR, OneRowPlan(types, row), ch, ctx)
    ensures LosesItsRow(OneRowPlan(types, row), ch, ctx)
  {
    hide F.Image, Loaded, ChainValue, ChainPred, Runnable;
    hide F.Fits, StoresColumn, RowTest, Pruned, OneRowPlan, F.Writable;
    var p, c := OneRowPlan(types, row), ch.first.column;
    OneRowStored(types, row, c, ctx);
    var values := OneRowValues(row);
    LoadedValid(p, values);
    LoadedShape(p);
    var seg := Loaded(F.Image(p));
    OneRowCount(types, row);
    assert RowAt(seg, 0) == row;
    ChainRunnable(seg, ch);
    MissingBloomPrunes(B.MURMUR, p, values, ch, ctx, Z.BlockOf(ctx.blockSize, 0));
    var kept, naive := KeptMask(B.MURMUR, seg, ChainPred(ch), ctx, 1), NaiveMask(seg, ch);
    assert kept == [false] && naive == [true];
    assert Ids([false], 0) == [] && Ids([true], 0) == [0];
  }

  lemma OneRowCount(types: seq<DataType>, row: seq<int>)
    requires TypedRow(types, row)
    ensures OneRowPlan(types, row).rowCount == 1
  {
  }

  ghost predicate LosesItsRow(p: F.Plan, ch: Chain, ctx: ScanContext)
    requires F.Writable(p) && ValidContext(ctx)
  {
    && |F.Image(p)| >= H.FIXED_SIZE
    && var seg := Loaded(F.Image(p));
       && ValidSegment(seg) && ChainFits(ch, seg.types) && Runnable(ChainPred(ch), seg)
       && NaiveRows(seg, ch) == [0] && KeptRows(B.MURMUR, seg, ChainPred(ch), ctx, seg.numRows) == []
  }

  /** One Int64 value stored without a filter and looked up by equality, with the
      default flags: the file loses its only row. */
  lemma StoredRowLost(v: int)
    requires InRange(Int64, v)
    ensures TypedRow([Int64], [v])
    ensures F.Writable(OneRowPlan([Int64], [v]))
    ensures LosesItsRow(OneRowPlan([Int64], [v]), Chain(Comparison(CmpOp.Eq, 0, v), 0, []),
                        ScanContext(SCAN_BLOCK_SIZE, true, true))
  {
    hide LosesItsRow, FileScansExactly, OneRowPlan, F.Writable;
    MatchLost([Int64], [v], Chain(Comparison(CmpOp.Eq, 0, v), 0, []), ScanContext(SCAN_BLOCK_SIZE, true, true));
  }
}
