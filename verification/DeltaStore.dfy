// The in-memory delta store (include/columnar/delta_store.h): per-column ordered
// maps of inserted versions and delete times, a pending-row counter, a clock and
// a flushing flag.
module DeltaStore {
  import opened Types
  import opened Bytes

  datatype Version = Version(ts: nat, data: seq<Byte>)

  datatype ColumnDelta = ColumnDelta(inserts: map<nat, Version>, deletes: map<nat, nat>)

  /** The counters are 64-bit and wrap. */
  datatype Store = Store(columns: seq<ColumnDelta>, pending: nat, clock: nat, flushing: bool)

  const EMPTY := ColumnDelta(map[], map[])

  function Empty(n: nat): Store { Store(seq(n, _ => EMPTY), 0, 0, false) }

  function Add64(a: nat, k: nat): (r: nat)
    ensures r < TWO_64 && (a + k < TWO_64 ==> r == a + k)
  {
    (a + k) % TWO_64
  }

  function Sub64(a: nat, k: nat): (r: nat)
    ensures r < TWO_64 && (0 <= a - k < TWO_64 ==> r == a - k)
  {
    (a - k) % TWO_64
  }

  // ---- one column step each

  function PutInsert(col: ColumnDelta, row: nat, v: Version): ColumnDelta { col.(inserts := col.inserts[row := v]) }

  function PutDelete(col: ColumnDelta, row: nat, ts: nat): ColumnDelta { col.(deletes := col.deletes[row := ts]) }

  // ---- whole calls

  /** The columns an insert reaches: those it has data for. */
  function Inserted(columns: seq<ColumnDelta>, row: nat, data: seq<seq<Byte>>, ts: nat): (r: seq<ColumnDelta>)
    ensures |r| == |columns|
  {
    seq(|columns|, c requires 0 <= c < |columns| =>
      if c < |data| then PutInsert(columns[c], row, Version(ts, data[c])) else columns[c])
  }

  function Deleted(columns: seq<ColumnDelta>, row: nat, ts: nat): (r: seq<ColumnDelta>)
    ensures |r| == |columns|
  {
    seq(|columns|, c requires 0 <= c < |columns| => PutDelete(columns[c], row, ts))
  }

  /** A zero timestamp means: take the next tick of the store's clock. */
  function ClockAfter(s: Store, ts: nat): nat { if ts == 0 then Add64(s.clock, 1) else s.clock }

  function StampOf(s: Store, ts: nat): nat { if ts == 0 then Add64(s.clock, 1) else ts }

  function InsertCall(s: Store, row: nat, data: seq<seq<Byte>>, ts: nat): Store {
    Store(Inserted(s.columns, row, data, StampOf(s, ts)), Add64(s.pending, 1), ClockAfter(s, ts), s.flushing)
  }

  function DeleteCall(s: Store, row: nat, ts: nat): Store {
    s.(columns := Deleted(s.columns, row, StampOf(s, ts)), clock := ClockAfter(s, ts))
  }

  function Cleared(s: Store): Store { s.(columns := seq(|s.columns|, _ => EMPTY), pending := 0) }

  /** Point reads: any recorded delete hides the row. */
  predicate PointSees(col: ColumnDelta, row: nat) { row in col.inserts && row !in col.deletes }

  /** Range reads: a delete hides the row unless it is older than the insert. */
  predicate RangeSees(col: ColumnDelta, row: nat) {
    row in col.inserts && (row in col.deletes ==> col.deletes[row] < col.inserts[row].ts)
  }

  // ---- ascending iteration of an ordered map's keys

  ghost predicate Ascending(keys: seq<nat>) { forall i, j :: 0 <= i < j < |keys| ==> keys[i] < keys[j] }

  lemma {:induction false} HasLeast(s: set<nat>, y: nat)
    requires y in s
    ensures exists m :: m in s && forall x :: x in s ==> m <= x
    decreases y
  {
    if x :| x in s && x < y {
      HasLeast(s, x);
    } else {
      assert forall x :: x in s ==> y <= x;
    }
  }

  function Least(s: set<nat>): (m: nat)
    requires s != {}
    ensures m in s && forall x :: x in s ==> m <= x
  {
    assert exists y :: y in s;
    var y: nat :| y in s;
    HasLeast(s, y);
    var m :| m in s && forall x :: x in s ==> m <= x;
    m
  }

  function Keys(s: set<nat>): (r: seq<nat>)
    ensures Ascending(r) && |r| == |s| && forall x :: x in r <==> x in s
    decreases |s|
  {
    if s == {} then [] else [Least(s)] + Keys(s - {Least(s)})
  }

  /** The order leaves no choice: ascending keys are determined by their set. */
  lemma {:induction false} AscendingUnique(a: seq<nat>, b: seq<nat>)
    requires Ascending(a) && Ascending(b) && forall x :: x in a <==> x in b
    ensures a == b
    decreases |a|
  {
    hide Ascending;
    if a == [] || b == [] {
      EmptyTogether(a, b);
    } else {
      FirstIsLeast(a, b[0]);
      FirstIsLeast(b, a[0]);
      assert a[0] in a && b[0] in b;
      forall x ensures x in a[1..] <==> x in b[1..] { TailElements(a, x); TailElements(b, x); }
      TailElements(a, 0);
      TailElements(b, 0);
      AscendingUnique(a[1..], b[1..]);
      assert a == [a[0]] + a[1..] && b == [b[0]] + b[1..];
    }
  }

  lemma EmptyTogether(a: seq<nat>, b: seq<nat>)
    requires forall x :: x in a <==> x in b
    ensures a == [] <==> b == []
  {
    if a != [] { assert a[0] in b; }
    if b != [] { assert b[0] in a; }
  }

  lemma FirstIsLeast(a: seq<nat>, x: nat)
    requires Ascending(a) && a != []
    ensures x in a ==> a[0] <= x
  {
  }

  lemma TailElements(a: seq<nat>, x: nat)
    requires Ascending(a) && a != []
    ensures Ascending(a[1..]) && (x in a[1..] <==> x in a && x != a[0])
  {
    assert a == [a[0]] + a[1..];
  }

  function InsertedRows(col: ColumnDelta): (r: seq<nat>)
    ensures Ascending(r) && |r| == |col.inserts| && forall x :: x in r <==> x in col.inserts
  {
    assert |col.inserts.Keys| == |col.inserts|;
    Keys(col.inserts.Keys)
  }

  datatype Visit = Visit(row: nat, ts: nat, data: seq<Byte>)

  function VisitAt(col: ColumnDelta, row: nat): Visit {
    if row in col.inserts then Visit(row, col.inserts[row].ts, col.inserts[row].data) else Visit(row, 0, [])
  }

  /** What VisitInserts hands out, by ascending row. */
  function Visits(col: ColumnDelta): seq<Visit> {
    var keys := InsertedRows(col);
    seq(|keys|, i requires 0 <= i < |keys| => VisitAt(col, keys[i]))
  }

  /** Every insert is visited once, deleted or not, in ascending row order. */
  lemma VisitsMeaning(col: ColumnDelta)
    ensures forall i, j :: 0 <= i < j < |Visits(col)| ==> Visits(col)[i].row < Visits(col)[j].row
    ensures forall v: Visit :: v in Visits(col) <==> v.row in col.inserts && col.inserts[v.row] == Version(v.ts, v.data)
  {
    hide InsertedRows;
    var keys := InsertedRows(col);
    forall i | 0 <= i < |keys| ensures keys[i] in col.inserts { assert keys[i] in keys; }
    forall v: Visit | v.row in col.inserts && col.inserts[v.row] == Version(v.ts, v.data) ensures v in Visits(col) {
      assert v.row in keys;
      var i :| 0 <= i < |keys| && keys[i] == v.row;
      assert Visits(col)[i] == v;
    }
  }

  /** The rows a range read of [lo, hi) must report. */
  ghost predicate RangeResult(col: ColumnDelta, lo: nat, hi: nat, rows: seq<nat>, data: seq<seq<Byte>>) {
    && |rows| == |data| && Ascending(rows)
    && (forall x :: x in rows <==> lo <= x < hi && RangeSees(col, x))
    && forall i :: 0 <= i < |rows| ==> rows[i] in col.inserts && data[i] == col.inserts[rows[i]].data
  }

  class DeltaStore {
    const numColumns: nat
    const flushThreshold: nat
    var columns: seq<ColumnDelta>
    var pending: nat
    var clock: nat
    var flushing: bool

    ghost predicate Valid() reads this { |columns| == numColumns && pending < TWO_64 && clock < TWO_64 }

    ghost function Value(): Store reads this { Store(columns, pending, clock, flushing) }

    constructor (n: nat, threshold: nat)
      ensures Valid() && Value() == Empty(n) && numColumns == n && flushThreshold == threshold
    {
      numColumns, flushThreshold := n, threshold;
      columns, pending, clock, flushing := seq(n, _ => EMPTY), 0, 0, false;
    }

    method Insert(row: nat, data: seq<seq<Byte>>, timestamp: nat)
      requires Valid()
      modifies this
      ensures Valid() && Value() == InsertCall(old(Value()), row, data, timestamp)
      ensures var ts := if timestamp == 0 then (old(clock) + 1) % TWO_64 else timestamp;
              forall c :: 0 <= c < numColumns ==>
                && columns[c].deletes == old(columns)[c].deletes
                && columns[c].inserts
                   == if c < |data| then old(columns)[c].inserts[row := Version(ts, data[c])]
                      else old(columns)[c].inserts
      ensures pending == (old(pending) + 1) % TWO_64 && flushing == old(flushing)
      ensures clock == if timestamp == 0 then (old(clock) + 1) % TWO_64 else old(clock)
    {
      var ts := timestamp;
      if ts == 0 {
        clock := Add64(clock, 1);
        ts := clock;
      }
      var col := 0;
      while col < numColumns && col < |data|
        invariant col <= numColumns && col <= |data| && |columns| == numColumns
        invariant pending == old(pending) && flushing == old(flushing) && clock == ClockAfter(old(Value()), timestamp)
        invariant forall c :: 0 <= c < numColumns ==>
          columns[c] == if c < col then Inserted(old(columns), row, data, ts)[c] else old(columns)[c]
      {
        columns := columns[col := PutInsert(columns[col], row, Version(ts, data[col]))];
        col := col + 1;
      }
      assert columns == Inserted(old(columns), row, data, ts);
      pending := Add64(pending, 1);
    }

    method Delete(row: nat, timestamp: nat)
      requires Valid()
      modifies this
      ensures Valid() && Value() == DeleteCall(old(Value()), row, timestamp)
      ensures var ts := if timestamp == 0 then (old(clock) + 1) % TWO_64 else timestamp;
              forall c :: 0 <= c < numColumns ==>
                && columns[c].inserts == old(columns)[c].inserts
                && columns[c].deletes == old(columns)[c].deletes[row := ts]
      ensures pending == old(pending) && flushing == old(flushing)
      ensures clock == if timestamp == 0 then (old(clock) + 1) % TWO_64 else old(clock)
    {
      var ts := timestamp;
      if ts == 0 {
        clock := Add64(clock, 1);
        ts := clock;
      }
      for col := 0 to numColumns
        invariant |columns| == numColumns
        invariant pending == old(pending) && flushing == old(flushing) && clock == ClockAfter(old(Value()), timestamp)
        invariant forall c :: 0 <= c < numColumns ==>
          columns[c] == if c < col then Deleted(old(columns), row, ts)[c] else old(columns)[c]
      {
        columns := columns[col := PutDelete(columns[col], row, ts)];
      }
      assert columns == Deleted(old(columns), row, ts);
    }

    method Get(col: nat, row: nat) returns (r: Option<Version>)
      requires Valid()
      ensures r.Some? <==> col < numColumns && PointSees(columns[col], row)
      ensures r.Some? ==> r.value == columns[col].inserts[row]
    {
      if col >= numColumns { return None; }
      if row in columns[col].deletes { return None; }
      if row in columns[col].inserts { return Some(columns[col].inserts[row]); }
      return None;
    }

    method GetRange(col: nat, lo: nat, hi: nat) returns (rows: seq<nat>, data: seq<seq<Byte>>)
      requires Valid()
      ensures if col < numColumns then RangeResult(columns[col], lo, hi, rows, data) else rows == [] && data == []
    {
      hide InsertedRows, RangePrefix, RangeResult;
      rows, data := [], [];
      if col >= numColumns { return; }
      var delta := columns[col];
      var keys := InsertedRows(delta);
      var k := 0;
      while k < |keys| && keys[k] < lo
        invariant 0 <= k <= |keys| && forall i :: 0 <= i < k ==> keys[i] < lo
      {
        k := k + 1;
      }
      RangeStart(delta, lo, hi, keys, k);
      while k < |keys| && keys[k] < hi
        invariant 0 <= k <= |keys|
        invariant RangePrefix(delta, lo, hi, keys, k, rows, data)
        invariant forall i :: k <= i < |keys| ==> keys[i] >= lo
      {
        var row := keys[k];
        assert row in keys;
        RangeStep(delta, lo, hi, keys, k, rows, data);
        if row !in delta.deletes || delta.deletes[row] < delta.inserts[row].ts {
          rows, data := rows + [row], data + [delta.inserts[row].data];
        }
        k := k + 1;
      }
      RangeDone(delta, lo, hi, keys, k, rows, data);
    }

    method ShouldFlush() returns (r: bool)
      ensures r <==> pending >= flushThreshold
    {
      return pending >= flushThreshold;
    }

    method BeginFlush()
      requires Valid()
      modifies this`flushing
      ensures Valid() && Value() == old(Value()).(flushing := true)
    {
      flushing := true;
    }

    method EndFlush(flushed: nat)
      requires Valid()
      modifies this`pending, this`flushing
      ensures Valid() && Value() == old(Value()).(pending := (old(pending) - flushed) % TWO_64, flushing := false)
    {
      pending := Sub64(pending, flushed);
      flushing := false;
    }

    method Clear()
      requires Valid()
      modifies this`columns, this`pending
      ensures Valid() && Value() == Cleared(old(Value())) && pending == 0
      ensures forall c :: 0 <= c < numColumns ==> columns[c].inserts == map[] && columns[c].deletes == map[]
    {
      for col := 0 to numColumns
        invariant |columns| == numColumns && pending == old(pending)
        invariant forall c :: 0 <= c < numColumns ==> columns[c] == if c < col then EMPTY else old(columns)[c]
      {
        columns := columns[col := EMPTY];
      }
      pending := 0;
      assert columns == Cleared(old(Value())).columns;
    }

    /** The visitor's calls, in order. */
    method VisitInserts(col: nat) returns (visits: seq<Visit>)
      requires Valid()
      ensures visits == if col < numColumns then Visits(columns[col]) else []
    {
      hide InsertedRows, Keys, Least, Ascending;
      visits := [];
      if col >= numColumns { return; }
      var delta := columns[col];
      var keys := InsertedRows(delta);
      for k := 0 to |keys|
        invariant |visits| == k && forall i :: 0 <= i < k ==> visits[i] == VisitAt(delta, keys[i])
      {
        assert keys[k] in keys;
        var v := delta.inserts[keys[k]];
        visits := visits + [Visit(keys[k], v.ts, v.data)];
      }
      assert visits == Visits(delta);
    }
  }

  // ---- the range loop

  /** The result so far after looking at the keys before k. */
  ghost predicate RangePrefix(col: ColumnDelta, lo: nat, hi: nat, keys: seq<nat>, k: nat, rows: seq<nat>,
                              data: seq<seq<Byte>>)
    requires k <= |keys|
  {
    && |rows| == |data| && Ascending(rows)
    && (forall x :: x in rows <==> x in keys[..k] && lo <= x < hi && RangeSees(col, x))
    && forall i :: 0 <= i < |rows| ==> rows[i] in col.inserts && data[i] == col.inserts[rows[i]].data
  }

  lemma RangeStart(col: ColumnDelta, lo: nat, hi: nat, keys: seq<nat>, k: nat)
    requires k <= |keys| && forall i :: 0 <= i < k ==> keys[i] < lo
    ensures RangePrefix(col, lo, hi, keys, k, [], [])
  {
  }

  lemma RangeStep(col: ColumnDelta, lo: nat, hi: nat, keys: seq<nat>, k: nat, rows: seq<nat>, data: seq<seq<Byte>>)
    requires Ascending(keys) && k < |keys| && lo <= keys[k] < hi && keys[k] in col.inserts
    requires RangePrefix(col, lo, hi, keys, k, rows, data)
    ensures if RangeSees(col, keys[k])
      then RangePrefix(col, lo, hi, keys, k + 1, rows + [keys[k]], data + [col.inserts[keys[k]].data])
      else RangePrefix(col, lo, hi, keys, k + 1, rows, data)
  {
    hide RangeSees;
    assert keys[..k + 1] == keys[..k] + [keys[k]];
    forall i | 0 <= i < |rows| ensures rows[i] < keys[k] { assert rows[i] in rows; }
  }

  lemma RangeDone(col: ColumnDelta, lo: nat, hi: nat, keys: seq<nat>, k: nat, rows: seq<nat>, data: seq<seq<Byte>>)
    requires Ascending(keys) && (forall x :: x in keys <==> x in col.inserts) && k <= |keys|
    requires k < |keys| ==> keys[k] >= hi
    requires RangePrefix(col, lo, hi, keys, k, rows, data)
    ensures RangeResult(col, lo, hi, rows, data)
  {
    forall x | lo <= x < hi && RangeSees(col, x) ensures x in keys[..k] {
      var i :| 0 <= i < |keys| && keys[i] == x;
      assert i < k;
    }
  }

  // ---- histories of calls

  /** A call with the timestamp given to it, 0 asking for the store's own. */
  datatype Call = Ins(row: nat, data: seq<seq<Byte>>, ts: nat) | Del(row: nat, ts: nat)

  function After(n: nat, calls: seq<Call>): (s: Store)
    ensures |s.columns| == n
  {
    if calls == [] then Empty(n) else ApplyCall(After(n, calls[..|calls| - 1]), calls[|calls| - 1])
  }

  function ApplyCall(s: Store, call: Call): Store {
    match call
    case Ins(row, data, ts) => InsertCall(s, row, data, ts)
    case Del(row, ts) => DeleteCall(s, row, ts)
  }

  /** The call writes column c of the row. */
  predicate Touches(call: Call, c: nat, row: nat) { call.row == row && (call.Ins? ==> c < |call.data|) }

  predicate EverInserted(calls: seq<Call>, c: nat, row: nat) {
    exists i :: 0 <= i < |calls| && calls[i].Ins? && Touches(calls[i], c, row)
  }

  predicate EverDeleted(calls: seq<Call>, row: nat) {
    exists i :: 0 <= i < |calls| && calls[i].Del? && calls[i].row == row
  }

  /** Call i inserts the row in column c and no later call does. */
  predicate IsLastInsert(calls: seq<Call>, c: nat, row: nat, i: nat) {
    && i < |calls| && calls[i].Ins? && Touches(calls[i], c, row)
    && forall j :: i < j < |calls| ==> !(calls[j].Ins? && Touches(calls[j], c, row))
  }

  predicate IsLastDelete(calls: seq<Call>, row: nat, i: nat) {
    && i < |calls| && calls[i].Del? && calls[i].row == row
    && forall j :: i < j < |calls| ==> !(calls[j].Del? && calls[j].row == row)
  }

  /** How many calls asked for a timestamp. */
  function Ticks(calls: seq<Call>): nat {
    if calls == [] then 0 else Ticks(calls[..|calls| - 1]) + if calls[|calls| - 1].ts == 0 then 1 else 0
  }

  /** The timestamp call i carries: its own, or its number among those that asked. */
  function StampAt(calls: seq<Call>, i: nat): nat
    requires i < |calls|
  {
    if calls[i].ts != 0 then calls[i].ts else Ticks(calls[..i + 1]) % TWO_64
  }

  /** The row is in column c exactly if it was inserted there, with the data and
      the timestamp of the last insert; deletes likewise. */
  ghost predicate Recorded(col: ColumnDelta, calls: seq<Call>, c: nat, row: nat) {
    && (row in col.inserts <==> EverInserted(calls, c, row))
    && (row in col.deletes <==> EverDeleted(calls, row))
    && (forall i: nat :: IsLastInsert(calls, c, row, i) ==> HoldsInsert(col, calls, c, row, i))
    && (forall i: nat :: IsLastDelete(calls, row, i) ==> HoldsDelete(col, calls, row, i))
  }

  predicate HoldsInsert(col: ColumnDelta, calls: seq<Call>, c: nat, row: nat, i: nat) {
    && i < |calls| && calls[i].Ins? && c < |calls[i].data|
    && row in col.inserts && col.inserts[row] == Version(StampAt(calls, i), calls[i].data[c])
  }

  predicate HoldsDelete(col: ColumnDelta, calls: seq<Call>, row: nat, i: nat) {
    i < |calls| && row in col.deletes && col.deletes[row] == StampAt(calls, i)
  }

  lemma EverSnoc(calls: seq<Call>, call: Call, c: nat, row: nat)
    ensures EverInserted(calls + [call], c, row)
       <==> EverInserted(calls, c, row) || (call.Ins? && Touches(call, c, row))
    ensures EverDeleted(calls + [call], row) <==> EverDeleted(calls, row) || (call.Del? && call.row == row)
  {
    hide Touches;
    var all := calls + [call];
    assert all[..|calls|] == calls && all[|calls|] == call;
    assert forall i :: 0 <= i < |calls| ==> all[i] == calls[i];
  }

  lemma LastSnoc(calls: seq<Call>, call: Call, c: nat, row: nat, i: nat)
    ensures IsLastInsert(calls + [call], c, row, i)
       <==> if call.Ins? && Touches(call, c, row) then i == |calls| else IsLastInsert(calls, c, row, i)
    ensures IsLastDelete(calls + [call], row, i)
       <==> if call.Del? && call.row == row then i == |calls| else IsLastDelete(calls, row, i)
  {
    hide Touches;
    var all := calls + [call];
    assert all[|calls|] == call && forall j :: 0 <= j < |calls| ==> all[j] == calls[j];
  }

  lemma StampSnoc(calls: seq<Call>, call: Call, i: nat)
    requires i <= |calls|
    ensures i < |calls| ==> StampAt(calls + [call], i) == StampAt(calls, i)
    ensures i == |calls| ==>
      StampAt(calls + [call], i) == if call.ts != 0 then call.ts else (Ticks(calls) + 1) % TWO_64
  {
    var all := calls + [call];
    if i < |calls| {
      hide Ticks;
      assert all[..i + 1] == calls[..i + 1] && all[i] == calls[i];
    } else {
      TicksSnoc(calls, call);
      hide Ticks;
      assert all[..i + 1] == all && all[i] == call;
    }
  }

  lemma TicksSnoc(calls: seq<Call>, call: Call)
    ensures Ticks(calls + [call]) == Ticks(calls) + if call.ts == 0 then 1 else 0
  {
    assert (calls + [call])[..|calls|] == calls;
  }

  lemma RecordStep(s: Store, calls: seq<Call>, call: Call, c: nat, row: nat)
    requires c < |s.columns| && Recorded(s.columns[c], calls, c, row) && s.clock == Ticks(calls) % TWO_64
    ensures |ApplyCall(s, call).columns| == |s.columns|
    ensures Recorded(ApplyCall(s, call).columns[c], calls + [call], c, row)
  {
    hide EverInserted, EverDeleted, IsLastInsert, IsLastDelete, StampAt, Ticks;
    var all := calls + [call];
    EverSnoc(calls, call, c, row);
    ClockTicks(calls);
    StampSnoc(calls, call, |calls|);
    var col := ApplyCall(s, call).columns[c];
    forall i: nat | IsLastInsert(all, c, row, i) ensures HoldsInsert(col, all, c, row, i) {
      LastBounds(all, c, row, i);
      LastSnoc(calls, call, c, row, i);
      StampSnoc(calls, call, i);
      assert i < |calls| ==> HoldsInsert(s.columns[c], calls, c, row, i);
    }
    forall i: nat | IsLastDelete(all, row, i) ensures HoldsDelete(col, all, row, i) {
      LastBounds(all, c, row, i);
      LastSnoc(calls, call, c, row, i);
      StampSnoc(calls, call, i);
      assert i < |calls| ==> HoldsDelete(s.columns[c], calls, row, i);
    }
  }

  lemma LastBounds(calls: seq<Call>, c: nat, row: nat, i: nat)
    ensures IsLastInsert(calls, c, row, i) ==> i < |calls| && calls[i].Ins? && c < |calls[i].data|
    ensures IsLastDelete(calls, row, i) ==> i < |calls|
  {
  }

  lemma ClockTicks(calls: seq<Call>)
    ensures Add64(Ticks(calls) % TWO_64, 1) == (Ticks(calls) + 1) % TWO_64
  {
  }

  lemma {:induction false} HistoryRecorded(n: nat, calls: seq<Call>, c: nat, row: nat)
    requires c < n
    ensures var s := After(n, calls); s.clock == Ticks(calls) % TWO_64 && Recorded(s.columns[c], calls, c, row)
  {
    if calls != [] {
      var m := |calls| - 1;
      HistoryRecorded(n, calls[..m], c, row);
      assert calls[..m] + [calls[m]] == calls;
      hide Recorded, Inserted, Deleted;
      var s := After(n, calls[..m]);
      RecordStep(s, calls[..m], calls[m], c, row);
      ClockTicks(calls[..m]);
    }
  }

  lemma {:induction false} LastExists(calls: seq<Call>, c: nat, row: nat)
    ensures EverInserted(calls, c, row) <==> exists i: nat :: IsLastInsert(calls, c, row, i)
    ensures EverDeleted(calls, row) <==> exists i: nat :: IsLastDelete(calls, row, i)
  {
    if calls != [] {
      var m := |calls| - 1;
      LastExists(calls[..m], c, row);
      hide EverInserted, EverDeleted, IsLastInsert, IsLastDelete;
      assert calls[..m] + [calls[m]] == calls;
      EverSnoc(calls[..m], calls[m], c, row);
      forall i: nat
        ensures IsLastInsert(calls, c, row, i)
           <==> if calls[m].Ins? && Touches(calls[m], c, row) then i == m else IsLastInsert(calls[..m], c, row, i)
        ensures IsLastDelete(calls, row, i)
           <==> if calls[m].Del? && calls[m].row == row then i == m else IsLastDelete(calls[..m], row, i)
      {
        LastSnoc(calls[..m], calls[m], c, row, i);
      }
      if calls[m].Ins? && Touches(calls[m], c, row) { assert IsLastInsert(calls, c, row, m); }
      if calls[m].Del? && calls[m].row == row { assert IsLastDelete(calls, row, m); }
    }
  }

  /** The row was inserted, and its last insert is stamped later than any last delete. */
  ghost predicate NewestIsInsert(calls: seq<Call>, c: nat, row: nat) {
    exists i: nat :: IsLastInsert(calls, c, row, i)
      && forall d: nat :: IsLastDelete(calls, row, d) ==> StampAt(calls, d) < StampAt(calls, i)
  }

  /** After every history of calls, whatever timestamps they were given: a read
      returns the data and the timestamp of the last insert; a range read reports a
      row exactly when that timestamp exceeds the last delete's; a point read,
      exactly when it was inserted and never deleted. The two differ exactly on rows
      whose newest write is an insert over a delete. */
  lemma ReadsAfterHistory(n: nat, calls: seq<Call>, c: nat, row: nat)
    requires c < n
    ensures var col := After(n, calls).columns[c];
            && Recorded(col, calls, c, row)
            && (RangeSees(col, row) <==> NewestIsInsert(calls, c, row))
            && (PointSees(col, row) <==> EverInserted(calls, c, row) && !EverDeleted(calls, row))
            && (PointSees(col, row) == RangeSees(col, row)
                <==> !(NewestIsInsert(calls, c, row) && EverDeleted(calls, row)))
  {
    hide EverInserted, EverDeleted, IsLastInsert, IsLastDelete, StampAt, After;
    HistoryRecorded(n, calls, c, row);
    LastExists(calls, c, row);
    forall i: nat, j: nat | IsLastInsert(calls, c, row, i) && IsLastInsert(calls, c, row, j) ensures i == j {
      LastUnique(calls, c, row, i, j);
    }
  }

  lemma LastUnique(calls: seq<Call>, c: nat, row: nat, i: nat, j: nat)
    requires IsLastInsert(calls, c, row, i) && IsLastInsert(calls, c, row, j)
    ensures i == j
  {
  }

  // ---- calls that all ask for the store's timestamp

  ghost predicate SelfStamped(calls: seq<Call>) { forall i :: 0 <= i < |calls| ==> calls[i].ts == 0 }

  predicate LastIsInsert(calls: seq<Call>, c: nat, row: nat) {
    calls != [] && var last := calls[|calls| - 1];
    if Touches(last, c, row) then last.Ins? else LastIsInsert(calls[..|calls| - 1], c, row)
  }

  lemma {:induction false} TicksAll(calls: seq<Call>)
    requires SelfStamped(calls)
    ensures Ticks(calls) == |calls|
  {
    if calls != [] { TicksAll(calls[..|calls| - 1]); }
  }

  /** Their stamps are their positions, so the newest write is the last one. */
  lemma {:induction false} SelfStampedOrder(calls: seq<Call>, c: nat, row: nat)
    requires SelfStamped(calls) && |calls| < TWO_64
    ensures NewestIsInsert(calls, c, row) <==> LastIsInsert(calls, c, row)
  {
    hide StampAt;
    forall i: nat | i < |calls| ensures StampAt(calls, i) == i + 1 { SelfStamp(calls, i); }
    LastByPosition(calls, c, row);
  }

  lemma SelfStamp(calls: seq<Call>, i: nat)
    requires SelfStamped(calls) && i < |calls| < TWO_64
    ensures StampAt(calls, i) == i + 1
  {
    TicksAll(calls[..i + 1]);
  }

  lemma {:induction false} LastByPosition(calls: seq<Call>, c: nat, row: nat)
    ensures LastIsInsert(calls, c, row)
       <==> exists i: nat :: IsLastInsert(calls, c, row, i) && forall d: nat :: IsLastDelete(calls, row, d) ==> d < i
  {
    if calls != [] {
      var m := |calls| - 1;
      var call := calls[m];
      LastByPosition(calls[..m], c, row);
      hide IsLastInsert, IsLastDelete;
      assert calls[..m] + [call] == calls;
      forall i: nat
        ensures IsLastInsert(calls, c, row, i)
           <==> if call.Ins? && Touches(call, c, row) then i == m else IsLastInsert(calls[..m], c, row, i)
        ensures IsLastDelete(calls, row, i)
           <==> if call.Del? && call.row == row then i == m else IsLastDelete(calls[..m], row, i)
        ensures IsLastInsert(calls[..m], c, row, i) ==> i < m
        ensures IsLastDelete(calls[..m], row, i) ==> i < m
      {
        LastSnoc(calls[..m], call, c, row, i);
        LastBounds(calls[..m], c, row, i);
      }
      if Touches(call, c, row) {
        if call.Ins? { assert IsLastInsert(calls, c, row, m); } else { assert IsLastDelete(calls, row, m); }
      } else {
        SameLast(calls, calls[..m], c, row);
      }
    }
  }

  lemma SameLast(a: seq<Call>, b: seq<Call>, c: nat, row: nat)
    requires forall i: nat :: IsLastInsert(a, c, row, i) <==> IsLastInsert(b, c, row, i)
    requires forall i: nat :: IsLastDelete(a, row, i) <==> IsLastDelete(b, row, i)
    ensures (exists i: nat :: IsLastInsert(a, c, row, i) && forall d: nat :: IsLastDelete(a, row, d) ==> d < i)
       <==> (exists i: nat :: IsLastInsert(b, c, row, i) && forall d: nat :: IsLastDelete(b, row, d) ==> d < i)
  {
    hide IsLastInsert, IsLastDelete;
    if i: nat :| IsLastInsert(a, c, row, i) && forall d: nat :: IsLastDelete(a, row, d) ==> d < i {
      assert IsLastInsert(b, c, row, i);
    }
    if i: nat :| IsLastInsert(b, c, row, i) && forall d: nat :: IsLastDelete(b, row, d) ==> d < i {
      assert IsLastInsert(a, c, row, i);
    }
  }

  /** A delete followed by a fresh insert: the range read sees the row, the point read does not. */
  lemma ReinsertedRowHidden(row: nat, data: seq<Byte>)
    ensures var col := After(1, [Ins(row, [data], 0), Del(row, 0), Ins(row, [data], 0)]).columns[0];
            RangeSees(col, row) && !PointSees(col, row)
  {
    var calls := [Ins(row, [data], 0), Del(row, 0), Ins(row, [data], 0)];
    hide After, NewestIsInsert;
    ReadsAfterHistory(1, calls, 0, row);
    SelfStampedOrder(calls, 0, row);
    assert calls[1].Del? && calls[1].row == row;
  }

  /** A timestamp given to an insert is the one a read returns. */
  lemma GivenTimestampKept(row: nat, data: seq<Byte>, ts: nat)
    requires ts != 0
    ensures var col := After(1, [Ins(row, [data], ts)]).columns[0];
            PointSees(col, row) && col.inserts[row] == Version(ts, data)
  {
    var calls := [Ins(row, [data], ts)];
    hide After;
    ReadsAfterHistory(1, calls, 0, row);
    assert IsLastInsert(calls, 0, row, 0);
    assert calls[0].Ins? && Touches(calls[0], 0, row);
  }
}
