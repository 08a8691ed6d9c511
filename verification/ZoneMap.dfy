// Per-block minimum/maximum statistics (include/columnar/zone_map.h), for
// integer columns. The floating-point fields are carried as raw 64-bit images.
module ZoneMap {
  import opened Types
  import opened Bytes

  datatype Entry = Entry(
    minInt: int, maxInt: int, minFp: nat, maxFp: nat,
    nullCount: nat, rowCount: nat, hasMinMax: bool, hasNulls: bool)

  const FRESH := Entry(0, 0, 0, 0, 0, 0, false, false)

  /** `nulls` is either absent (empty) or one flag per row. */
  predicate NullsFor(data: seq<int>, nulls: seq<bool>) { nulls == [] || |nulls| == |data| }

  predicate Null(nulls: seq<bool>, i: nat) { i < |nulls| && nulls[i] }

  /** Some non-null row satisfies the comparison. */
  ghost predicate SomeMatch(data: seq<int>, nulls: seq<bool>, op: CmpOp, v: int) {
    exists i :: 0 <= i < |data| && !Null(nulls, i) && Compare(op, data[i], v)
  }

  ghost predicate SomeValid(data: seq<int>, nulls: seq<bool>) {
    exists i :: 0 <= i < |data| && !Null(nulls, i)
  }

  ghost predicate IsFirstValid(data: seq<int>, nulls: seq<bool>, f: nat) {
    && f <= |data| && (f < |data| ==> !Null(nulls, f))
    && forall i :: 0 <= i < f ==> Null(nulls, i)
  }

  /** lo and hi are attained by, and bound, the non-null rows below n. */
  ghost predicate Bounds(data: seq<int>, nulls: seq<bool>, n: nat, lo: int, hi: int)
    requires n <= |data|
  {
    && (exists i :: 0 <= i < n && !Null(nulls, i) && data[i] == lo)
    && (exists i :: 0 <= i < n && !Null(nulls, i) && data[i] == hi)
    && forall i :: 0 <= i < n && !Null(nulls, i) ==> lo <= data[i] <= hi
  }

  function CountNulls(nulls: seq<bool>, start: nat, stop: nat): (n: nat)
    requires start <= stop
    ensures n <= stop - start
    decreases stop
  {
    if start == stop then 0 else CountNulls(nulls, start, stop - 1) + (if Null(nulls, stop - 1) then 1 else 0)
  }

  /** The entry of a fresh map for one block of rows, given its first valid row. */
  ghost predicate EntryFor(e: Entry, data: seq<int>, nulls: seq<bool>, f: nat) {
    && IsFirstValid(data, nulls, f)
    && if f == |data| then
         if data == [] then e == FRESH
         else e == FRESH.(nullCount := |data|, rowCount := |data|, hasNulls := true)
       else
         && Bounds(data, nulls, |data|, e.minInt, e.maxInt)
         && e.minFp == 0 && e.maxFp == 0 && e.rowCount == |data| && e.hasMinMax
         && e.nullCount == CountNulls(nulls, f + 1, |data|) && e.hasNulls == (e.nullCount > 0)
  }

  ghost predicate Summarises(e: Entry, data: seq<int>, nulls: seq<bool>) {
    exists f: nat :: EntryFor(e, data, nulls, f)
  }

  /** ZoneMapEntry::Update on a fresh entry. */
  method Update(data: seq<int>, nulls: seq<bool>) returns (e: Entry)
    requires NullsFor(data, nulls) && |data| < TWO_32
    ensures Summarises(e, data, nulls)
  {
    e := FRESH;
    if |data| == 0 { assert EntryFor(e, data, nulls, 0); return; }
    var f := 0;
    while f < |data| && Null(nulls, f)
      invariant 0 <= f <= |data| && forall i :: 0 <= i < f ==> Null(nulls, i)
    {
      f := f + 1;
    }
    assert IsFirstValid(data, nulls, f);
    if f >= |data| {
      e := FRESH.(nullCount := |data|, rowCount := |data|, hasNulls := true);
      assert EntryFor(e, data, nulls, f);
      return;
    }
    var lo, hi, count := ValidExtremes(data, nulls, f);
    e := Entry(lo, hi, 0, 0, count, |data|, true, count > 0);
    assert EntryFor(e, data, nulls, f);
  }

  /** The loop over the rows after the first valid one. */
  method ValidExtremes(data: seq<int>, nulls: seq<bool>, f: nat) returns (lo: int, hi: int, count: nat)
    requires f < |data| && IsFirstValid(data, nulls, f)
    ensures Bounds(data, nulls, |data|, lo, hi) && count == CountNulls(nulls, f + 1, |data|)
  {
    lo, hi, count := data[f], data[f], 0;
    var i := f + 1;
    while i < |data|
      invariant f < i <= |data|
      invariant Bounds(data, nulls, i, lo, hi)
      invariant count == CountNulls(nulls, f + 1, i)
    {
      if Null(nulls, i) {
        count := count + 1;
      } else {
        if data[i] < lo { lo := data[i]; }
        if data[i] > hi { hi := data[i]; }
      }
      i := i + 1;
    }
  }

  /** The entry of a non-empty block of one repeated value. */
  lemma ConstantBlock(data: seq<int>, v: int)
    requires data != [] && forall i :: 0 <= i < |data| ==> data[i] == v
    ensures Summarises(Entry(v, v, 0, 0, 0, |data|, true, false), data, [])
  {
    assert !Null([], 0) && data[0] == v;
    CountNullsZero([], 1, |data|);
    assert EntryFor(Entry(v, v, 0, 0, 0, |data|, true, false), data, [], 0);
  }

  // ---- what an entry answers

  /** CanMatch for a comparison: without statistics, scan. */
  predicate CanMatch(e: Entry, op: CmpOp, v: int) {
    if !e.hasMinMax then true
    else if e.rowCount == 0 then false
    else
      match op
      case Eq => e.minInt <= v <= e.maxInt
      case Ne => !(e.minInt == v && e.maxInt == v)
      case Lt => e.minInt < v
      case Le => e.minInt <= v
      case Gt => e.maxInt > v
      case Ge => e.maxInt >= v
  }

  predicate MightHold(e: Entry, pred: PredicateType, v: int) {
    match pred
    case Cmp(op) => CanMatch(e, op, v)
    case IsNull => e.hasNulls
    case IsNotNull => e.rowCount > e.nullCount
  }

  /** Pruning is sound: a block answered "no" has no matching row. */
  lemma PrunesOnlyMisses(e: Entry, data: seq<int>, nulls: seq<bool>, op: CmpOp, v: int)
    requires Summarises(e, data, nulls) && !CanMatch(e, op, v)
    ensures !SomeMatch(data, nulls, op, v)
  {
  }

  /** And tight: on a block with a valid row, every comparison but Equal is
      answered exactly; Equal is answered by the hull of the values. */
  lemma AnswersExactly(e: Entry, data: seq<int>, nulls: seq<bool>, op: CmpOp, v: int)
    requires Summarises(e, data, nulls) && SomeValid(data, nulls)
    ensures op != CmpOp.Eq ==> (CanMatch(e, op, v) <==> SomeMatch(data, nulls, op, v))
    ensures CanMatch(e, CmpOp.Eq, v) <==> SomeMatch(data, nulls, CmpOp.Le, v) && SomeMatch(data, nulls, CmpOp.Ge, v)
  {
    var f: nat :| EntryFor(e, data, nulls, f);
    var i :| 0 <= i < |data| && !Null(nulls, i) && data[i] == e.minInt;
    var j :| 0 <= j < |data| && !Null(nulls, j) && data[j] == e.maxInt;
    assert Compare(CmpOp.Le, data[i], v) == (e.minInt <= v);
    assert Compare(CmpOp.Ge, data[j], v) == (e.maxInt >= v);
  }

  /** "Some row is not null" is answered exactly, all-null blocks included. */
  lemma NotNullExact(e: Entry, data: seq<int>, nulls: seq<bool>)
    requires Summarises(e, data, nulls)
    ensures MightHold(e, IsNotNull, 0) <==> SomeValid(data, nulls)
  {
    var f: nat :| EntryFor(e, data, nulls, f);
    if f < |data| { assert !Null(nulls, f); }
  }

  ghost predicate SomeNull(data: seq<int>, nulls: seq<bool>) {
    exists i :: 0 <= i < |data| && Null(nulls, i)
  }

  ghost predicate NoNullAfter(data: seq<int>, nulls: seq<bool>, f: nat) {
    forall i :: f < i < |data| ==> !Null(nulls, i)
  }

  lemma SomeNullAt(data: seq<int>, nulls: seq<bool>, f: nat)
    requires IsFirstValid(data, nulls, f)
    ensures SomeNull(data, nulls) <==> f > 0 || !NoNullAfter(data, nulls, f)
  {
    if f > 0 { assert Null(nulls, 0); }
  }

  /** Nulls before the first valid row are not counted, so "some row is null" is
      answered exactly except when the block's only nulls are leading ones. */
  lemma NullExactUnlessOnlyLeading(e: Entry, data: seq<int>, nulls: seq<bool>)
    requires Summarises(e, data, nulls)
    ensures (MightHold(e, IsNull, 0) <==> SomeNull(data, nulls)) <==> !OnlyLeadingNulls(data, nulls)
  {
    hide SomeNull, NoNullAfter, OnlyLeadingNulls, Bounds, CountNulls;
    var f: nat :| EntryFor(e, data, nulls, f);
    OnlyLeadingAt(data, nulls, f);
    SomeNullAt(data, nulls, f);
    if f < |data| { CountNullsAfter(data, nulls, f); } else { NothingAfter(data, nulls); }
  }

  lemma NothingAfter(data: seq<int>, nulls: seq<bool>)
    ensures NoNullAfter(data, nulls, |data|)
  {
  }

  lemma CountNullsAfter(data: seq<int>, nulls: seq<bool>, f: nat)
    requires f < |data|
    ensures CountNulls(nulls, f + 1, |data|) == 0 <==> NoNullAfter(data, nulls, f)
  {
    CountNullsZero(nulls, f + 1, |data|);
  }

  lemma OnlyLeadingAt(data: seq<int>, nulls: seq<bool>, f: nat)
    requires IsFirstValid(data, nulls, f)
    ensures OnlyLeadingNulls(data, nulls) <==> 0 < f < |data| && NoNullAfter(data, nulls, f)
  {
    if OnlyLeadingNulls(data, nulls) {
      var g: nat :| 0 < g < |data| && IsFirstValid(data, nulls, g) && NoNullAfter(data, nulls, g);
      assert g == f;
    }
  }

  /** The block starts with nulls, has a valid row, and no null after it. */
  ghost predicate OnlyLeadingNulls(data: seq<int>, nulls: seq<bool>) {
    exists f: nat :: 0 < f < |data| && IsFirstValid(data, nulls, f) && NoNullAfter(data, nulls, f)
  }

  /** A null followed by a value: the entry says there is no null to scan for. */
  lemma LeadingNullMissed(e: Entry, v: int)
    requires Summarises(e, [0, v], [true, false])
    ensures SomeNull([0, v], [true, false]) && !MightHold(e, IsNull, 0)
  {
    hide Summarises, MightHold;
    var data, nulls := [0, v], [true, false];
    assert IsFirstValid(data, nulls, 1) && NoNullAfter(data, nulls, 1);
    assert Null(nulls, 0);
    NullExactUnlessOnlyLeading(e, data, nulls);
  }

  lemma {:induction false} CountNullsZero(nulls: seq<bool>, start: nat, stop: nat)
    requires start <= stop
    ensures CountNulls(nulls, start, stop) == 0 <==> forall i :: start <= i < stop ==> !Null(nulls, i)
    decreases stop
  {
    if start < stop { CountNullsZero(nulls, start, stop - 1); }
  }

  /** It is the number of null rows in the range. */
  lemma {:induction false} CountNullsMeaning(nulls: seq<bool>, start: nat, stop: nat)
    requires start <= stop
    ensures CountNulls(nulls, start, stop) == |set i: nat | start <= i < stop && Null(nulls, i)|
    decreases stop
  {
    var all := set i: nat | start <= i < stop && Null(nulls, i);
    if start == stop {
      assert all == {};
    } else {
      CountNullsMeaning(nulls, start, stop - 1);
      var before := set i: nat | start <= i < stop - 1 && Null(nulls, i);
      assert all == if Null(nulls, stop - 1) then before + {stop - 1} else before;
      assert stop - 1 !in before;
    }
  }

  // ---- blocks of a column

  function BlockStart(blockRows: nat, b: nat): nat { b * blockRows }

  function BlockEnd(blockRows: nat, count: nat, b: nat): nat {
    if BlockStart(blockRows, b) + blockRows < count then BlockStart(blockRows, b) + blockRows else count
  }

  /** (count + block_rows - 1) / block_rows */
  function NumBlocks(blockRows: nat, count: nat): nat
    requires blockRows > 0
  {
    (count + blockRows - 1) / blockRows
  }

  lemma {:induction false} BlockStartMono(blockRows: nat, a: nat, b: nat)
    requires a < b
    ensures BlockStart(blockRows, a) + blockRows <= BlockStart(blockRows, b)
    decreases b
  {
    if a < b - 1 { BlockStartMono(blockRows, a, b - 1); }
  }

  /** Block indices below NumBlocks are those that start inside the column. */
  lemma BlockCount(blockRows: nat, count: nat, b: nat)
    requires blockRows > 0
    ensures b < NumBlocks(blockRows, count) <==> BlockStart(blockRows, b) < count
  {
    var n := NumBlocks(blockRows, count);
    var r := (count + blockRows - 1) % blockRows;
    assert count + blockRows - 1 == n * blockRows + r;
    assert BlockStart(blockRows, n) == n * blockRows;
    if b < n {
      BlockStartMono(blockRows, b, n);
    } else if n < b {
      BlockStartMono(blockRows, n, b);
    }
  }

  predicate InBlock(blockRows: nat, count: nat, b: nat, row: nat) {
    BlockStart(blockRows, b) <= row < BlockEnd(blockRows, count, b)
  }

  function BlockOf(blockRows: nat, row: nat): nat
    requires blockRows > 0
  {
    row / blockRows
  }

  /** The blocks partition the rows: every row is in exactly one block. */
  lemma BlocksPartition(blockRows: nat, count: nat, row: nat, b: nat)
    requires blockRows > 0 && row < count
    ensures BlockOf(blockRows, row) < NumBlocks(blockRows, count)
    ensures InBlock(blockRows, count, b, row) <==> b == BlockOf(blockRows, row)
  {
    var q := BlockOf(blockRows, row);
    assert row == q * blockRows + row % blockRows;
    assert BlockStart(blockRows, q) == q * blockRows;
    BlockCount(blockRows, count, q);
    if b < q { BlockStartMono(blockRows, b, q); }
    if q < b { BlockStartMono(blockRows, q, b); }
  }

  // ---- whole maps

  datatype Map = Map(entries: seq<Entry>, blockRows: nat)

  ghost predicate BlockSummarised(e: Entry, blockRows: nat, data: seq<int>, nulls: seq<bool>, b: nat)
    requires NullsFor(data, nulls)
  {
    var s, t := BlockStart(blockRows, b), BlockEnd(blockRows, |data|, b);
    s <= t && Summarises(e, data[s..t], if nulls == [] then [] else nulls[s..t])
  }

  /** The map was built from this column. */
  ghost predicate BuiltFrom(zm: Map, data: seq<int>, nulls: seq<bool>) {
    && zm.blockRows > 0 && NullsFor(data, nulls)
    && |zm.entries| == NumBlocks(zm.blockRows, |data|)
    && forall b :: 0 <= b < |zm.entries| ==> BlockSummarised(zm.entries[b], zm.blockRows, data, nulls, b)
  }

  method BuildFromColumn(blockRows: nat, data: seq<int>, nulls: seq<bool>) returns (zm: Map)
    requires 0 < blockRows < TWO_32 && NullsFor(data, nulls)
    ensures zm.blockRows == blockRows && BuiltFrom(zm, data, nulls)
  {
    hide Summarises, BlockStart;
    var numBlocks := NumBlocks(blockRows, |data|);
    var entries: seq<Entry> := [];
    for b := 0 to numBlocks
      invariant |entries| == b
      invariant forall k :: 0 <= k < b ==> BlockSummarised(entries[k], blockRows, data, nulls, k)
    {
      BlockCount(blockRows, |data|, b);
      var start, end := BlockStart(blockRows, b), BlockEnd(blockRows, |data|, b);
      var e := Update(data[start..end], if nulls == [] then [] else nulls[start..end]);
      entries := entries + [e];
    }
    zm := Map(entries, blockRows);
  }

  /** ShouldScanBlock: an index past the entries has no statistics, so scan. */
  predicate ShouldScan(zm: Map, b: nat, pred: PredicateType, v: int) {
    b >= |zm.entries| || MightHold(zm.entries[b], pred, v)
  }

  /** A block the map of a null-free column rules out holds no matching row. */
  lemma PrunedBlockHasNoMatch(zm: Map, data: seq<int>, b: nat, op: CmpOp, v: int, row: nat)
    requires BuiltFrom(zm, data, []) && !ShouldScan(zm, b, Cmp(op), v)
    requires row < |data| && InBlock(zm.blockRows, |data|, b, row)
    ensures !Compare(op, data[row], v)
  {
    hide BlockStart, Summarises, CanMatch;
    assert BlockSummarised(zm.entries[b], zm.blockRows, data, [], b);
    var s, t := BlockStart(zm.blockRows, b), BlockEnd(zm.blockRows, |data|, b);
    PrunesOnlyMisses(zm.entries[b], data[s..t], [], op, v);
    assert data[s..t][row - s] == data[row];
  }

  // ---- the map's block size and the scan's

  /** Asking a map of b-row blocks about s-row scan blocks never skips a match. */
  ghost predicate LosesNothing(b: nat, s: nat)
    requires s > 0
  {
    forall zm: Map, data, row: nat, op, v
      {:trigger BuiltFrom(zm, data, []), Compare(op, data[row], v)}
      | zm.blockRows == b && BuiltFrom(zm, data, []) && row < |data| && Compare(op, data[row], v) ::
      ShouldScan(zm, BlockOf(s, row), Cmp(op), v)
  }

  /** b zeros and a one: two blocks of a b-row map. */
  function TwoBlocks(b: nat): (data: seq<int>)
    ensures |data| == b + 1 && data[b] == 1 && forall i :: 0 <= i < b ==> data[i] == 0
  {
    seq(b, _ => 0) + [1]
  }

  function TwoBlockMap(b: nat): Map {
    Map([Entry(0, 0, 0, 0, 0, b, true, false), Entry(1, 1, 0, 0, 0, 1, true, false)], b)
  }

  lemma TwoBlockMapBuilt(b: nat)
    requires b > 0
    ensures BuiltFrom(TwoBlockMap(b), TwoBlocks(b), [])
  {
    var data, zm := TwoBlocks(b), TwoBlockMap(b);
    BlockCount(b, b + 1, 1);
    BlockCount(b, b + 1, 2);
    ConstantBlock(data[0..b], 0);
    ConstantBlock(data[b..b + 1], 1);
    assert BlockSummarised(zm.entries[0], b, data, [], 0);
    assert BlockSummarised(zm.entries[1], b, data, [], 1);
  }

  lemma FirstBlocks(s: nat, row: nat)
    requires s > 0
    ensures row < s ==> BlockOf(s, row) == 0
    ensures row == s ==> BlockOf(s, row) == 1
  {
    BlocksPartition(s, row + 1, row, 0);
    BlocksPartition(s, row + 1, row, 1);
  }

  /** Entry b of the map speaks for scan block b exactly when the sizes agree: with
      any two different sizes there is a column on which a matching row is skipped. */
  lemma BlockSizesMustAgree(b: nat, s: nat)
    requires b > 0 && s > 0
    ensures LosesNothing(b, s) <==> b == s
  {
    hide BuiltFrom, BlockOf, BlockStart;
    if b == s {
      forall zm: Map, data, row: nat, op, v
        | zm.blockRows == b && BuiltFrom(zm, data, []) && row < |data| && Compare(op, data[row], v)
        ensures ShouldScan(zm, BlockOf(s, row), Cmp(op), v)
      {
        hide ShouldScan;
        BlocksPartition(b, |data|, row, BlockOf(s, row));
        if !ShouldScan(zm, BlockOf(s, row), Cmp(op), v) {
          PrunedBlockHasNoMatch(zm, data, BlockOf(s, row), op, v, row);
        }
      }
    } else {
      TwoBlockMapBuilt(b);
      var row := if b < s then b else s;
      FirstBlocks(s, row);
      var v := if b < s then 1 else 0;
      assert Compare(CmpOp.Eq, TwoBlocks(b)[row], v);
      assert !ShouldScan(TwoBlockMap(b), BlockOf(s, row), Cmp(CmpOp.Eq), v);
    }
  }

  // ---- the byte image

  const ENTRY_SIZES: seq<nat> := [8, 8, 8, 8, 4, 4, 1, 1]
  const ENTRY_SIZE: nat := 42

  function EntryFields(e: Entry): seq<nat>
    requires IsInt64(e.minInt) && IsInt64(e.maxInt)
  {
    [Unsigned(Int64, e.minInt), Unsigned(Int64, e.maxInt), e.minFp, e.maxFp,
     e.nullCount, e.rowCount, Flag(e.hasMinMax), Flag(e.hasNulls)]
  }

  predicate Storable(e: Entry) {
    && IsInt64(e.minInt) && IsInt64(e.maxInt) && e.minFp < TWO_64 && e.maxFp < TWO_64
    && e.nullCount < TWO_32 && e.rowCount < TWO_32
  }

  ghost predicate AllStorable(es: seq<Entry>) { forall i :: 0 <= i < |es| ==> Storable(es[i]) }

  function EntryBytes(e: Entry): (r: seq<Byte>)
    requires Storable(e)
    ensures |r| == ENTRY_SIZE
  {
    RecordBytes(EntryFields(e), ENTRY_SIZES)
  }

  function ReadEntry(b: seq<Byte>): Entry
    requires |b| >= ENTRY_SIZE
  {
    var f := ReadRecord(b, ENTRY_SIZES);
    Entry(Signed(Int64, f[0] % TWO_64), Signed(Int64, f[1] % TWO_64), f[2], f[3], f[4], f[5], f[6] != 0, f[7] != 0)
  }

  lemma EntryFits(e: Entry)
    requires Storable(e)
    ensures |EntryFields(e)| == |ENTRY_SIZES|
    ensures forall i :: 0 <= i < |ENTRY_SIZES| ==> EntryFields(e)[i] < Pow256(ENTRY_SIZES[i])
  {
    Pow256Sizes();
  }

  lemma EntryRoundTrip(e: Entry, rest: seq<Byte>)
    requires Storable(e)
    ensures ReadEntry(EntryBytes(e) + rest) == e
  {
    hide RecordBytes, ReadRecord, Pow256;
    EntryFits(e);
    RecordRoundTrip(EntryFields(e), ENTRY_SIZES, rest);
  }

  function EntriesBytes(es: seq<Entry>): seq<Byte>
    requires AllStorable(es)
  {
    if es == [] then [] else EntryBytes(es[0]) + EntriesBytes(es[1..])
  }

  function ReadEntries(b: seq<Byte>, n: nat): (es: seq<Entry>)
    ensures |es| == n
    decreases n
  {
    if n == 0 then []
    else if |b| < ENTRY_SIZE then seq(n, _ => FRESH)
    else [ReadEntry(b)] + ReadEntries(b[ENTRY_SIZE..], n - 1)
  }

  lemma {:induction false} EntriesRoundTrip(es: seq<Entry>, rest: seq<Byte>)
    requires AllStorable(es)
    ensures ReadEntries(EntriesBytes(es) + rest, |es|) == es
  {
    if es != [] {
      EntriesRoundTrip(es[1..], rest);
      var tail := EntriesBytes(es[1..]) + rest;
      assert EntriesBytes(es) + rest == EntryBytes(es[0]) + tail;
      hide ReadEntries, EntriesBytes, ReadEntry, EntryBytes;
      EntryRoundTrip(es[0], tail);
    }
  }

  function Image(zm: Map): seq<Byte>
    requires AllStorable(zm.entries)
  {
    LeBytes(|zm.entries|, 4) + (LeBytes(zm.blockRows, 4) + EntriesBytes(zm.entries))
  }

  method WriteEntries(es: seq<Entry>, out: Buffer)
    requires out.Valid() && AllStorable(es)
    modifies out
    ensures out.Valid() && out.Contents() == old(out.Contents()) + EntriesBytes(es)
  {
    hide EntryBytes;
    ghost var start := out.Contents();
    assert es[0..] == es;
    for i := 0 to |es|
      invariant out.Valid() && out.Contents() + EntriesBytes(es[i..]) == start + EntriesBytes(es)
    {
      assert es[i..][1..] == es[i + 1..];
      out.Append(EntryBytes(es[i]));
    }
    assert EntriesBytes(es[|es|..]) == [];
  }

  method Write(zm: Map, out: Buffer)
    requires out.Valid() && AllStorable(zm.entries)
    modifies out
    ensures out.Valid() && out.Contents() == old(out.Contents()) + Image(zm)
  {
    hide LeBytes, EntriesBytes;
    out.Append(LeBytes(|zm.entries|, 4));
    out.Append(LeBytes(zm.blockRows, 4));
    WriteEntries(zm.entries, out);
  }

  function Read(data: seq<Byte>): Map
    requires |data| >= 8
  {
    Map(ReadEntries(data[8..], LeValue(data[..4])), LeValue(data[4..][..4]))
  }

  /** Reading back a written map gives the same map, so every answer survives. */
  lemma ImageRoundTrip(zm: Map, rest: seq<Byte>)
    requires AllStorable(zm.entries) && |zm.entries| < TWO_32 && zm.blockRows < TWO_32
    ensures |Image(zm)| >= 8 && Read(Image(zm) + rest) == zm
  {
    hide LeBytes, LeValue, EntriesBytes, ReadEntries;
    Pow256Sizes();
    var tail := EntriesBytes(zm.entries) + rest;
    var data := Image(zm) + rest;
    assert data == LeBytes(|zm.entries|, 4) + (LeBytes(zm.blockRows, 4) + tail);
    FieldRoundTrip(|zm.entries|, 4, LeBytes(zm.blockRows, 4) + tail);
    FieldRoundTrip(zm.blockRows, 4, tail);
    assert data[8..] == tail;
    EntriesRoundTrip(zm.entries, rest);
  }
}
