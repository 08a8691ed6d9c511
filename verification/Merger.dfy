// Merging segments and a delta store column by column (include/columnar/merger.h).
module Merger {
  import opened Types
  import opened Bytes
  import opened Packing
  import opened Codecs
  import opened DeltaStore
  import H = SegmentHeader
  import I = DeltaInterleaving

  /** A merge input: a segment with its creation time and typed columns. */
  datatype Source = Source(createdTs: nat, numRows: nat, columns: seq<seq<int>>)

  ghost predicate ValidSources(types: seq<DataType>, segs: seq<Source>) {
    forall s :: 0 <= s < |segs| ==> ValidSource(types, segs[s])
  }

  ghost predicate ValidSource(types: seq<DataType>, seg: Source) {
    && |seg.columns| == |types|
    && forall c :: 0 <= c < |types| ==> |seg.columns[c]| == seg.numRows && AllInRange(types[c], seg.columns[c])
  }

  // ---- the stable sort of positions by timestamp

  /** a must come before b: an older timestamp, or the same one and an earlier position. */
  predicate Before(ts: seq<nat>, a: nat, b: nat) {
    a < |ts| && b < |ts| && (ts[a] < ts[b] || (ts[a] == ts[b] && a < b))
  }

  ghost predicate StableSorted(ts: seq<nat>, p: seq<nat>) { forall i, j :: 0 <= i < j < |p| ==> Before(ts, p[i], p[j]) }

  ghost predicate Covers(p: seq<nat>, n: nat) { forall k: nat :: k in p <==> k < n }

  function InsertPosition(ts: seq<nat>, p: seq<nat>, k: nat): (q: seq<nat>)
    requires k < |ts| && forall i :: 0 <= i < |p| ==> p[i] < |ts|
    ensures |q| == |p| + 1 && forall x :: x in q <==> x in p || x == k
  {
    if p == [] then [k]
    else
      var m := |p| - 1;
      if ts[p[m]] <= ts[k] then p + [k]
      else
        assert p == p[..m] + [p[m]];
        InsertPosition(ts, p[..m], k) + [p[m]]
  }

  function SortPositions(ts: seq<nat>, n: nat): (p: seq<nat>)
    requires n <= |ts|
    ensures |p| == n && Covers(p, n) && forall i :: 0 <= i < |p| ==> p[i] < |ts|
  {
    if n == 0 then []
    else
      var p := InsertPosition(ts, SortPositions(ts, n - 1), n - 1);
      assert forall i :: 0 <= i < |p| ==> p[i] in p;
      p
  }

  /** std::stable_sort of 0 .. |ts| - 1 by timestamp. */
  function StableOrder(ts: seq<nat>): (p: seq<nat>)
    ensures |p| == |ts| && Covers(p, |ts|) && forall i :: 0 <= i < |p| ==> p[i] < |ts|
  {
    SortPositions(ts, |ts|)
  }

  lemma {:induction false} InsertSorted(ts: seq<nat>, p: seq<nat>, k: nat)
    requires k < |ts| && StableSorted(ts, p) && forall i :: 0 <= i < |p| ==> p[i] < k
    ensures StableSorted(ts, InsertPosition(ts, p, k))
  {
    if p != [] {
      var m := |p| - 1;
      if ts[p[m]] <= ts[k] {
        forall i | 0 <= i < |p| ensures Before(ts, p[i], k) { assert i < m ==> Before(ts, p[i], p[m]); }
      } else {
        InsertSorted(ts, p[..m], k);
        var q := InsertPosition(ts, p[..m], k);
        forall i | 0 <= i < |q| ensures Before(ts, q[i], p[m]) {
          assert q[i] in q;
          if q[i] != k { var j :| 0 <= j < m && p[j] == q[i]; assert Before(ts, p[j], p[m]); }
        }
      }
    }
  }

  lemma {:induction false} SortSorted(ts: seq<nat>, n: nat)
    requires n <= |ts|
    ensures StableSorted(ts, SortPositions(ts, n))
  {
    if n > 0 {
      SortSorted(ts, n - 1);
      hide StableSorted;
      var p := SortPositions(ts, n - 1);
      forall i | 0 <= i < |p| ensures p[i] < n - 1 { assert p[i] in p; }
      InsertSorted(ts, p, n - 1);
    }
  }

  /** There is one stable order: sorted, stable and complete determines it. */
  lemma {:induction false} StableUnique(ts: seq<nat>, p: seq<nat>, q: seq<nat>)
    requires StableSorted(ts, p) && StableSorted(ts, q) && forall x :: x in p <==> x in q
    ensures p == q
    decreases |p|
  {
    if p == [] || q == [] {
      EmptyTogether(p, q);
    } else {
      SameFirst(ts, p, q);
      forall x ensures x in p[1..] <==> x in q[1..] { WithoutFirst(ts, p, x); WithoutFirst(ts, q, x); }
      StableUnique(ts, p[1..], q[1..]);
      assert p == [p[0]] + p[1..] && q == [q[0]] + q[1..];
    }
  }

  lemma SameFirst(ts: seq<nat>, p: seq<nat>, q: seq<nat>)
    requires StableSorted(ts, p) && StableSorted(ts, q) && p != [] && q != [] && forall x :: x in p <==> x in q
    ensures p[0] == q[0]
  {
    assert p[0] in q && q[0] in p;
    var i :| 0 <= i < |q| && q[i] == p[0];
    var j :| 0 <= j < |p| && p[j] == q[0];
    assert i > 0 ==> Before(ts, q[0], q[i]);
    assert j > 0 ==> Before(ts, p[0], p[j]);
  }

  lemma WithoutFirst(ts: seq<nat>, p: seq<nat>, x: nat)
    requires StableSorted(ts, p) && p != []
    ensures x in p[1..] <==> x in p && x != p[0]
  {
    assert p == [p[0]] + p[1..];
    if x in p[1..] { var i :| 0 <= i < |p[1..]| && p[1..][i] == x; assert Before(ts, p[0], p[i + 1]); }
  }

  /** Positions stay put exactly when the timestamps never go down. */
  lemma OrderIsIdentityIff(ts: seq<nat>)
    ensures (forall k :: 0 <= k < |ts| ==> StableOrder(ts)[k] == k)
       <==> (forall i, j :: 0 <= i < j < |ts| ==> ts[i] <= ts[j])
  {
    var p := StableOrder(ts);
    hide SortPositions, StableOrder;
    OrderSorted(ts);
    var id := Identity(|ts|);
    IdentityCovers(|ts|);
    if forall i, j :: 0 <= i < j < |ts| ==> ts[i] <= ts[j] {
      assert StableSorted(ts, id);
      assert forall x :: x in p <==> x in id;
      StableUnique(ts, p, id);
    }
    if forall k :: 0 <= k < |ts| ==> p[k] == k {
      forall i, j | 0 <= i < j < |ts| ensures ts[i] <= ts[j] { assert Before(ts, p[i], p[j]); }
    }
  }

  lemma OrderSorted(ts: seq<nat>)
    ensures StableSorted(ts, StableOrder(ts))
  {
    SortSorted(ts, |ts|);
  }

  function Identity(n: nat): (r: seq<nat>)
    ensures |r| == n && forall k :: 0 <= k < n ==> r[k] == k
  {
    seq(n, k requires 0 <= k => k)
  }

  lemma IdentityCovers(n: nat)
    ensures Covers(Identity(n), n)
  {
    forall x: nat ensures x in Identity(n) <==> x < n {
      if x < n { assert Identity(n)[x] == x; }
    }
  }

  // ---- where the merged rows come from

  datatype Origin = SegmentRow(seg: nat, row: nat) | DeltaRow(id: nat)

  predicate Exists(segs: seq<Source>, col: ColumnDelta, o: Origin) {
    match o
    case SegmentRow(s, r) => s < |segs| && r < segs[s].numRows
    case DeltaRow(id) => id in col.inserts
  }

  function TimeOf(segs: seq<Source>, col: ColumnDelta, o: Origin): nat {
    match o
    case SegmentRow(s, _) => if s < |segs| then segs[s].createdTs else 0
    case DeltaRow(id) => if id in col.inserts then col.inserts[id].ts else 0
  }

  /** Copy at most sizeof(T) bytes into a zeroed value. */
  function CellOf(t: DataType, data: seq<Byte>): (v: int)
    ensures InRange(t, v)
  {
    ReadValue(t, data + seq(TypeSize(t), _ => 0))
  }

  /** What column c, of type t, holds for the row. */
  function Cell(t: DataType, c: nat, segs: seq<Source>, col: ColumnDelta, o: Origin): int {
    match o
    case SegmentRow(s, r) =>
      if s < |segs| && c < |segs[s].columns| && r < |segs[s].columns[c]| then segs[s].columns[c][r] else 0
    case DeltaRow(id) => if id in col.inserts then CellOf(t, col.inserts[id].data) else 0
  }

  function RowsOfSegment(s: nat, n: nat): (r: seq<Origin>)
    ensures |r| == n && forall i :: 0 <= i < n ==> r[i] == SegmentRow(s, i)
  {
    seq(n, i requires 0 <= i => SegmentRow(s, i))
  }

  function SegmentOrigins(segs: seq<Source>): seq<Origin> {
    if segs == [] then [] else SegmentOrigins(segs[..|segs| - 1]) + RowsOfSegment(|segs| - 1, segs[|segs| - 1].numRows)
  }

  function DeltaOrigins(rows: seq<nat>): (r: seq<Origin>)
    ensures |r| == |rows| && forall i :: 0 <= i < |r| ==> r[i] == DeltaRow(rows[i])
  {
    seq(|rows|, i requires 0 <= i < |rows| => DeltaRow(rows[i]))
  }

  /** The order in which a column's values are collected. */
  function Origins(segs: seq<Source>,
                   col: ColumnDelta): seq<Origin> { SegmentOrigins(segs) + DeltaOrigins(InsertedRows(col)) }

  ghost predicate Distinct(os: seq<Origin>) { forall i, j :: 0 <= i < j < |os| ==> os[i] != os[j] }

  lemma {:induction false} SegmentOriginsMeaning(segs: seq<Source>)
    ensures Distinct(SegmentOrigins(segs))
    ensures forall o: Origin ::
      o in SegmentOrigins(segs) <==> o.SegmentRow? && o.seg < |segs| && o.row < segs[o.seg].numRows
  {
    if segs != [] {
      var m := |segs| - 1;
      SegmentOriginsMeaning(segs[..m]);
      var a, b := SegmentOrigins(segs[..m]), RowsOfSegment(m, segs[m].numRows);
      hide RowsOfSegment, SegmentOrigins;
      forall o: Origin ensures o in b <==> o.SegmentRow? && o.seg == m && o.row < segs[m].numRows {
        if o.SegmentRow? && o.seg == m && o.row < segs[m].numRows { assert b[o.row] == o; }
      }
      DistinctAppend(a, b);
    }
  }

  lemma DistinctAppend(a: seq<Origin>, b: seq<Origin>)
    requires Distinct(a) && Distinct(b) && forall o :: !(o in a && o in b)
    ensures Distinct(a + b)
  {
    forall i, j | 0 <= i < |a| && 0 <= j < |b| ensures a[i] != b[j] { assert a[i] in a && b[j] in b; }
  }

  /** Every segment row and every delta insert is collected exactly once. */
  lemma OriginsMeaning(segs: seq<Source>, col: ColumnDelta)
    ensures Distinct(Origins(segs, col))
    ensures forall o: Origin :: o in Origins(segs, col) <==> Exists(segs, col, o)
  {
    SegmentOriginsMeaning(segs);
    hide SegmentOrigins, InsertedRows;
    var rows := InsertedRows(col);
    var b := DeltaOrigins(rows);
    forall o: Origin ensures o in b <==> o.DeltaRow? && o.id in col.inserts {
      if o.DeltaRow? && o.id in col.inserts { var i :| 0 <= i < |rows| && rows[i] == o.id; assert b[i] == o; }
      if o in b { var i :| 0 <= i < |b| && b[i] == o; assert rows[i] in rows; }
    }
    DistinctAppend(SegmentOrigins(segs), b);
  }

  function Times(segs: seq<Source>, col: ColumnDelta, os: seq<Origin>): (r: seq<nat>)
    ensures |r| == |os| && forall i :: 0 <= i < |r| ==> r[i] == TimeOf(segs, col, os[i])
  {
    seq(|os|, i requires 0 <= i < |os| => TimeOf(segs, col, os[i]))
  }

  function Cells(t: DataType, c: nat, segs: seq<Source>, col: ColumnDelta, os: seq<Origin>): (r: seq<int>)
    ensures |r| == |os| && forall i :: 0 <= i < |r| ==> r[i] == Cell(t, c, segs, col, os[i])
  {
    seq(|os|, i requires 0 <= i < |os| => Cell(t, c, segs, col, os[i]))
  }

  function Permuted<T>(xs: seq<T>, p: seq<nat>): (r: seq<T>)
    requires forall k :: 0 <= k < |p| ==> p[k] < |xs|
    ensures |r| == |p| && forall k :: 0 <= k < |r| ==> r[k] == xs[p[k]]
  {
    seq(|p|, k requires 0 <= k < |p| => xs[p[k]])
  }

  function MergeOrder(segs: seq<Source>, col: ColumnDelta): (p: seq<nat>)
    ensures |p| == |Origins(segs, col)| && forall k :: 0 <= k < |p| ==> p[k] < |p|
  {
    StableOrder(Times(segs, col, Origins(segs, col)))
  }

  /** The rows of a merged column, in output order. */
  function MergedOrigins(segs: seq<Source>, col: ColumnDelta): seq<Origin> {
    Permuted(Origins(segs, col), MergeOrder(segs, col))
  }

  /** A merged column is the cells of its rows. */
  function MergedColumn(t: DataType, c: nat, segs: seq<Source>, col: ColumnDelta): seq<int> {
    Cells(t, c, segs, col, MergedOrigins(segs, col))
  }

  // ---- the order of a merge, without naming a permutation

  /** Collection order: segment rows by segment and row, then delta rows by id. */
  predicate Precedes(a: Origin, b: Origin) {
    match a
    case SegmentRow(s, r) => b.DeltaRow? || s < b.seg || (s == b.seg && r < b.row)
    case DeltaRow(id) => b.DeltaRow? && id < b.id
  }

  predicate Earlier(segs: seq<Source>, col: ColumnDelta, a: Origin, b: Origin) {
    var x, y := TimeOf(segs, col, a), TimeOf(segs, col, b);
    x < y || (x == y && Precedes(a, b))
  }

  ghost predicate InMergeOrder(segs: seq<Source>, col: ColumnDelta, os: seq<Origin>) {
    forall i, j :: 0 <= i < j < |os| ==> Earlier(segs, col, os[i], os[j])
  }

  ghost predicate Collected(os: seq<Origin>) { forall i, j :: 0 <= i < j < |os| ==> Precedes(os[i], os[j]) }

  lemma {:induction false} SegmentsCollected(segs: seq<Source>)
    ensures Collected(SegmentOrigins(segs))
    ensures forall i :: 0 <= i < |SegmentOrigins(segs)| ==>
        SegmentOrigins(segs)[i].SegmentRow? && SegmentOrigins(segs)[i].seg < |segs|
  {
    if segs != [] { SegmentsCollected(segs[..|segs| - 1]); }
  }

  lemma OriginsCollected(segs: seq<Source>, col: ColumnDelta)
    ensures Collected(Origins(segs, col))
  {
    SegmentsCollected(segs);
    hide SegmentOrigins, InsertedRows;
    var a, b := SegmentOrigins(segs), DeltaOrigins(InsertedRows(col));
    forall i, j | 0 <= i < j < |b| ensures Precedes(b[i], b[j]) {}
  }

  /** The merge lists every segment row and every delta insert exactly once, by
      timestamp, and in collection order among equal timestamps. */
  lemma MergedMeaning(segs: seq<Source>, col: ColumnDelta)
    ensures InMergeOrder(segs, col, MergedOrigins(segs, col))
    ensures forall o: Origin :: o in MergedOrigins(segs, col) <==> Exists(segs, col, o)
    ensures |MergedOrigins(segs, col)| == |Origins(segs, col)|
  {
    OriginsCollected(segs, col);
    OriginsMeaning(segs, col);
    OrderSorted(Times(segs, col, Origins(segs, col)));
    hide Origins, StableOrder, TimeOf, Precedes, Exists;
    var os := Origins(segs, col);
    var ts := Times(segs, col, os);
    var p, r := MergeOrder(segs, col), MergedOrigins(segs, col);
    forall i, j | 0 <= i < j < |r| ensures Earlier(segs, col, r[i], r[j]) { assert Before(ts, p[i], p[j]); }
    PermutedElements(os, p);
  }

  /** The same order in terms of the stored times: rows are listed by segment
      creation time and insert timestamp, segment rows before inserts of the same
      time, each kind in its own order. */
  lemma MergedInTimeOrder(segs: seq<Source>, col: ColumnDelta, i: nat, j: nat)
    requires i < j < |MergedOrigins(segs, col)|
    ensures var a, b := MergedOrigins(segs, col)[i], MergedOrigins(segs, col)[j];
            && Exists(segs, col, a) && Exists(segs, col, b)
            && (a.SegmentRow? && b.SegmentRow? ==>
                  || segs[a.seg].createdTs < segs[b.seg].createdTs
                  || (segs[a.seg].createdTs == segs[b.seg].createdTs
                      && (a.seg < b.seg || (a.seg == b.seg && a.row < b.row))))
            && (a.SegmentRow? && b.DeltaRow? ==> segs[a.seg].createdTs <= col.inserts[b.id].ts)
            && (a.DeltaRow? && b.SegmentRow? ==> col.inserts[a.id].ts < segs[b.seg].createdTs)
            && (a.DeltaRow? && b.DeltaRow? ==>
                  || col.inserts[a.id].ts < col.inserts[b.id].ts
                  || (col.inserts[a.id].ts == col.inserts[b.id].ts && a.id < b.id))
  {
    MergedMeaning(segs, col);
    var os := MergedOrigins(segs, col);
    hide MergedOrigins;
    assert os[i] in os && os[j] in os;
    assert Earlier(segs, col, os[i], os[j]);
  }

  lemma PermutedElements(os: seq<Origin>, p: seq<nat>)
    requires |p| == |os| && Covers(p, |os|) && forall k :: 0 <= k < |p| ==> p[k] < |os|
    ensures forall o: Origin :: o in Permuted(os, p) <==> o in os
  {
    var r := Permuted(os, p);
    forall o: Origin ensures o in r <==> o in os {
      if o in os {
        var k :| 0 <= k < |os| && os[k] == o;
        assert k in p;
        var i :| 0 <= i < |p| && p[i] == k;
        assert r[i] == o;
      }
    }
  }

  // ---- columns merged separately keep their rows together

  lemma SameInsertedRows(a: ColumnDelta, b: ColumnDelta)
    requires I.RowTimes(a) == I.RowTimes(b)
    ensures forall row :: row in a.inserts <==> row in b.inserts
    ensures forall row :: row in a.inserts ==> a.inserts[row].ts == b.inserts[row].ts
    ensures InsertedRows(a) == InsertedRows(b)
  {
    assert forall row :: row in a.inserts <==> row in I.RowTimes(a);
    assert forall row :: row in b.inserts <==> row in I.RowTimes(b);
    assert forall row :: row in a.inserts ==> I.RowTimes(a)[row] == I.RowTimes(b)[row];
    hide InsertedRows;
    AscendingUnique(InsertedRows(a), InsertedRows(b));
  }

  lemma SameMerge(segs: seq<Source>, a: ColumnDelta, b: ColumnDelta)
    requires I.RowTimes(a) == I.RowTimes(b)
    ensures MergedOrigins(segs, a) == MergedOrigins(segs, b)
  {
    hide I.RowTimes, InsertedRows, StableOrder, SegmentOrigins;
    SameInsertedRows(a, b);
    assert Times(segs, a, Origins(segs, a)) == Times(segs, b, Origins(segs, b));
  }

  /** With aligned delta columns, row k of the merged columns is one original row:
      every column shows its own cell of the same segment row or delta insert. */
  lemma MergedRowIsOneRow(types: seq<DataType>, segs: seq<Source>, delta: Store, k: nat)
    requires |delta.columns| == |types| > 0 && I.Aligned(delta) && k < |MergedOrigins(segs, delta.columns[0])|
    ensures var o := MergedOrigins(segs, delta.columns[0])[k];
            forall c :: 0 <= c < |types| ==>
              && Exists(segs, delta.columns[c], o)
              && |MergedColumn(types[c], c, segs, delta.columns[c])| == |MergedOrigins(segs, delta.columns[0])|
              && MergedColumn(types[c], c, segs, delta.columns[c])[k] == Cell(types[c], c, segs, delta.columns[c], o)
  {
    hide MergedOrigins, Cell, I.RowTimes, Exists;
    var o := MergedOrigins(segs, delta.columns[0])[k];
    forall c | 0 <= c < |types|
      ensures MergedOrigins(segs, delta.columns[c]) == MergedOrigins(segs, delta.columns[0])
      ensures Exists(segs, delta.columns[c], o)
    {
      SameMerge(segs, delta.columns[c], delta.columns[0]);
      MergedMeaning(segs, delta.columns[c]);
      assert o in MergedOrigins(segs, delta.columns[c]);
    }
  }

  ghost predicate RowsTogether(segs: seq<Source>, delta: Store) {
    forall c, d :: 0 <= c < |delta.columns| && 0 <= d < |delta.columns| ==>
      MergedOrigins(segs, delta.columns[c]) == MergedOrigins(segs, delta.columns[d])
  }

  lemma TogetherMeansSameRows(segs: seq<Source>, delta: Store, c: nat, d: nat, row: nat)
    requires RowsTogether(segs, delta) && c < |delta.columns| && d < |delta.columns|
    ensures row in delta.columns[c].inserts <==> row in delta.columns[d].inserts
  {
    hide MergedOrigins;
    MergedMeaning(segs, delta.columns[c]);
    MergedMeaning(segs, delta.columns[d]);
    assert DeltaRow(row) in MergedOrigins(segs, delta.columns[c])
      <==> DeltaRow(row) in MergedOrigins(segs, delta.columns[d]);
  }

  /** After any schedule of inserts on distinct rows has come to rest, merging the
      columns one by one keeps rows together if and only if every insert supplied
      all columns or none. */
  lemma TogetherIffFullWidth(segs: seq<Source>, ops: seq<I.Op>, n: nat, events: seq<I.Event>)
    requires I.DistinctRows(ops) && I.Quiescent(I.Run(ops, n, events))
    ensures RowsTogether(segs, I.Run(ops, n, events).store) <==> I.FullWidth(ops, n)
  {
    hide I.Run, I.Quiescent, I.DistinctRows, I.RowTimes, MergedOrigins, I.ColumnIs;
    var x := I.Run(ops, n, events);
    var delta := x.store;
    I.AlignedIffFullWidth(ops, n, events);
    I.ShapedRun(ops, n, events);
    if I.FullWidth(ops, n) {
      forall c, d | 0 <= c < |delta.columns| && 0 <= d < |delta.columns|
        ensures MergedOrigins(segs, delta.columns[c]) == MergedOrigins(segs, delta.columns[d])
      {
        SameMerge(segs, delta.columns[c], delta.columns[d]);
      }
    } else {
      var i :| 0 <= i < |ops| && ops[i].Insert? && 0 < |ops[i].data| < n;
      NarrowSeparates(segs, ops, n, events, i);
    }
  }

  lemma NarrowSeparates(segs: seq<Source>, ops: seq<I.Op>, n: nat, events: seq<I.Event>, i: nat)
    requires I.DistinctRows(ops) && I.Quiescent(I.Run(ops, n, events))
    requires i < |ops| && ops[i].Insert? && 0 < |ops[i].data| < n
    ensures !RowsTogether(segs, I.Run(ops, n, events).store)
  {
    hide I.Run, RowsTogether;
    var x, d := I.Run(ops, n, events), |ops[i].data|;
    I.QuiescentColumns(ops, n, events, 0);
    I.QuiescentColumns(ops, n, events, d);
    assert ops[i].row in x.store.columns[0].inserts && ops[i].row !in x.store.columns[d].inserts;
    if RowsTogether(segs, x.store) { TogetherMeansSameRows(segs, x.store, 0, d, ops[i].row); }
  }

  // ---- merging without a delta store

  /** The merge of a column as ExecuteMerge builds it: one segment after another. */
  function Concatenated(segs: seq<Source>, c: nat): seq<int>
    requires forall s :: 0 <= s < |segs| ==> c < |segs[s].columns|
  {
    if segs == [] then [] else Concatenated(segs[..|segs| - 1], c) + segs[|segs| - 1].columns[c]
  }

  /** Cells of a segment prefix do not depend on later segments. */
  lemma {:induction false} ConcatenatedCells(segs: seq<Source>, all: seq<Source>, col: ColumnDelta,
                                             types: seq<DataType>, c: nat)
    requires segs <= all && ValidSources(types, all) && c < |types|
    ensures forall s :: 0 <= s < |segs| ==> c < |segs[s].columns|
    ensures Cells(types[c], c, all, col, SegmentOrigins(segs)) == Concatenated(segs, c)
  {
    assert forall s :: 0 <= s < |segs| ==> segs[s] == all[s] && ValidSource(types, all[s]);
    if segs != [] {
      var m, t := |segs| - 1, types[c];
      ConcatenatedCells(segs[..m], all, col, types, c);
      var a, b := SegmentOrigins(segs[..m]), RowsOfSegment(m, segs[m].numRows);
      assert Cells(t, c, all, col, a + b) == Cells(t, c, all, col, a) + Cells(t, c, all, col, b);
      assert Cells(t, c, all, col, b) == segs[m].columns[c];
    }
  }

  /** Later non-empty segments are not older. */
  ghost predicate InTimeOrder(segs: seq<Source>) {
    forall s, u :: 0 <= s < u < |segs| && segs[s].numRows > 0 && segs[u].numRows > 0 ==>
      segs[s].createdTs <= segs[u].createdTs
  }

  lemma OriginsCount(segs: seq<Source>, col: ColumnDelta)
    ensures |Origins(segs, col)| == |MergedOrigins(segs, col)| == |SegmentOrigins(segs)| + |InsertedRows(col)|
    ensures InsertedRows(col) == [] <==> col.inserts == map[]
    ensures col.inserts == map[] ==> Origins(segs, col) == SegmentOrigins(segs)
  {
    hide SegmentOrigins, InsertedRows, StableOrder;
    var rows := InsertedRows(col);
    if col.inserts == map[] { assert rows == []; }
    if rows == [] { assert forall x :: x !in col.inserts; }
  }

  /** With no inserts to merge, the segments stay as they stand if and only if they
      come in timestamp order. */
  lemma NoInsertsIff(segs: seq<Source>, col: ColumnDelta)
    requires col.inserts == map[]
    ensures MergedOrigins(segs, col) == SegmentOrigins(segs) <==> InTimeOrder(segs)
  {
    OriginsCount(segs, col);
    SegmentOriginsMeaning(segs);
    SegmentsCollected(segs);
    hide SegmentOrigins, Origins, StableOrder;
    var os := SegmentOrigins(segs);
    var ts := Times(segs, col, os);
    OrderIsIdentityIff(ts);
    var p := MergeOrder(segs, col);
    if InTimeOrder(segs) {
      forall i, j | 0 <= i < j < |ts| ensures ts[i] <= ts[j] {
        assert os[i] in os && os[j] in os && Precedes(os[i], os[j]);
      }
    }
    if MergedOrigins(segs, col) == os {
      forall k | 0 <= k < |ts| ensures p[k] == k { assert os[p[k]] == os[k]; }
      forall s, u | 0 <= s < u < |segs| && segs[s].numRows > 0 && segs[u].numRows > 0
        ensures segs[s].createdTs <= segs[u].createdTs
      {
        FirstRowsOrdered(segs, col, os, ts, s, u);
      }
    }
  }

  lemma FirstRowsOrdered(segs: seq<Source>, col: ColumnDelta, os: seq<Origin>, ts: seq<nat>, s: nat, u: nat)
    requires s < u < |segs| && SegmentRow(s, 0) in os && SegmentRow(u, 0) in os && Collected(os)
    requires ts == Times(segs, col, os) && forall i, j :: 0 <= i < j < |ts| ==> ts[i] <= ts[j]
    ensures segs[s].createdTs <= segs[u].createdTs
  {
    var i :| 0 <= i < |os| && os[i] == SegmentRow(s, 0);
    var j :| 0 <= j < |os| && os[j] == SegmentRow(u, 0);
    assert ts[i] == segs[s].createdTs && ts[j] == segs[u].createdTs;
  }

  /** The timestamp merge lists the segments' rows one segment after another, and
      nothing else, if and only if the delta column has no inserts and the segments
      come in timestamp order. */
  lemma MergeIsConcatenationIff(segs: seq<Source>, col: ColumnDelta)
    ensures MergedOrigins(segs, col) == SegmentOrigins(segs) <==> col.inserts == map[] && InTimeOrder(segs)
  {
    hide MergedOrigins, SegmentOrigins, InsertedRows, InTimeOrder, Origins;
    OriginsCount(segs, col);
    if col.inserts == map[] { NoInsertsIff(segs, col); }
  }

  // ---- the two merges of a column, on all contents

  ghost predicate MergesEqual(types: seq<DataType>, segs: seq<Source>, col: ColumnDelta, c: nat)
    requires ValidSources(types, segs) && c < |types|
  {
    assert forall s :: 0 <= s < |segs| ==> ValidSource(types, segs[s]);
    MergedColumn(types[c], c, segs, col) == Concatenated(segs, c)
  }

  predicate SameShape(a: seq<Source>, b: seq<Source>) {
    |a| == |b| && forall s :: 0 <= s < |a| ==> a[s].createdTs == b[s].createdTs && a[s].numRows == b[s].numRows
  }

  lemma {:induction false} ShapeDecides(a: seq<Source>, b: seq<Source>)
    requires SameShape(a, b)
    ensures SegmentOrigins(a) == SegmentOrigins(b)
  {
    if a != [] { ShapeDecides(a[..|a| - 1], b[..|b| - 1]); }
  }

  lemma ShapeDecidesMerge(a: seq<Source>, b: seq<Source>, col: ColumnDelta)
    requires SameShape(a, b)
    ensures SegmentOrigins(a) == SegmentOrigins(b) && MergedOrigins(a, col) == MergedOrigins(b, col)
  {
    ShapeDecides(a, b);
    hide SegmentOrigins, InsertedRows, StableOrder;
    assert Times(a, col, Origins(a, col)) == Times(b, col, Origins(b, col));
  }

  /** Segments of the same shape holding 1 in one row and 0 elsewhere. */
  function Marked(types: seq<DataType>, segs: seq<Source>, o: Origin): (r: seq<Source>)
    ensures |r| == |segs| && forall s :: 0 <= s < |segs| ==> r[s] == MarkedSource(types, segs[s], s, o)
  {
    seq(|segs|, s requires 0 <= s < |segs| => MarkedSource(types, segs[s], s, o))
  }

  function MarkedSource(types: seq<DataType>, seg: Source, s: nat, o: Origin): Source {
    Source(seg.createdTs, seg.numRows, seq(|types|, _ => MarkedColumn(seg.numRows, s, o)))
  }

  function MarkedColumn(n: nat, s: nat, o: Origin): (r: seq<int>)
    ensures |r| == n && forall i :: 0 <= i < n ==> r[i] == if o == SegmentRow(s, i) then 1 else 0
  {
    seq(n, i requires 0 <= i => if o == SegmentRow(s, i) then 1 else 0)
  }

  lemma MarkedValid(types: seq<DataType>, segs: seq<Source>, o: Origin)
    ensures ValidSources(types, Marked(types, segs, o)) && SameShape(Marked(types, segs, o), segs)
  {
    hide MarkedColumn;
    forall s | 0 <= s < |segs| ensures ValidSource(types, MarkedSource(types, segs[s], s, o)) {}
  }

  lemma MarkedCell(types: seq<DataType>, segs: seq<Source>, col: ColumnDelta, c: nat, o: Origin, x: Origin)
    requires c < |types| && x.SegmentRow? && x.seg < |segs| && x.row < segs[x.seg].numRows
    ensures Cell(types[c], c, Marked(types, segs, o), col, x) == if o == x then 1 else 0
  {
  }

  /** If the rows come in different orders, some contents tell the merges apart. */
  lemma OrdersTellApart(types: seq<DataType>, segs: seq<Source>, col: ColumnDelta, c: nat)
    requires c < |types| && col.inserts == map[] && MergedOrigins(segs, col) != SegmentOrigins(segs)
    ensures exists o :: ValidSources(types, Marked(types, segs, o)) && SameShape(Marked(types, segs, o), segs)
                        && !MergesEqual(types, Marked(types, segs, o), col, c)
  {
    var merged, os := MergedOrigins(segs, col), SegmentOrigins(segs);
    OriginsCount(segs, col);
    MergedMeaning(segs, col);
    SegmentOriginsMeaning(segs);
    hide MergedOrigins, SegmentOrigins, Cell, Concatenated, InsertedRows, Origins;
    var k :| 0 <= k < |os| && merged[k] != os[k];
    var o := os[k];
    var marked := Marked(types, segs, o);
    MarkedValid(types, segs, o);
    ShapeDecidesMerge(marked, segs, col);
    ConcatenatedCells(marked, marked, col, types, c);
    assert o in os && merged[k] in merged;
    MarkedCell(types, segs, col, c, o, o);
    MarkedCell(types, segs, col, c, o, merged[k]);
    var a, b := MergedColumn(types[c], c, marked, col), Concatenated(marked, c);
    assert a[k] == 0 && b[k] == 1;
  }

  /** ColumnMerger and ExecuteMerge give a column the same values, whatever the
      segments of this shape hold, if and only if the delta column has no inserts
      and the segments come in timestamp order. */
  lemma MergesAgreeIff(types: seq<DataType>, segs: seq<Source>, col: ColumnDelta, c: nat)
    requires ValidSources(types, segs) && c < |types|
    ensures (forall other | SameShape(other, segs) && ValidSources(types, other) :: MergesEqual(types, other, col, c))
       <==> col.inserts == map[] && InTimeOrder(segs)
  {
    hide MergedOrigins, SegmentOrigins, Concatenated, Cell, ValidSources, Origins, InsertedRows;
    if col.inserts == map[] && InTimeOrder(segs) {
      forall other | SameShape(other, segs) && ValidSources(types, other) ensures MergesEqual(types, other, col, c) {
        MergeIsConcatenationIff(other, col);
        ConcatenatedCells(other, other, col, types, c);
      }
    } else {
      MergeIsConcatenationIff(segs, col);
      OriginsCount(segs, col);
      ConcatenatedCells(segs, segs, col, types, c);
      if col.inserts == map[] {
        OrdersTellApart(types, segs, col, c);
      } else {
        assert !MergesEqual(types, segs, col, c);
      }
    }
  }

  /** One insert: ColumnMerger's column holds its value, ExecuteMerge's does not. */
  lemma InsertLost(t: DataType, id: nat, ts: nat, v: int)
    requires InRange(t, v)
    ensures var col := ColumnDelta(map[id := Version(ts, ValueBytes(t, v))], map[]);
            MergedColumn(t, 0, [], col) == [v] && Concatenated([], 0) == []
  {
    hide CellOf, InsertedRows, StableOrder;
    var col := ColumnDelta(map[id := Version(ts, ValueBytes(t, v))], map[]);
    CellOfValue(t, v, []);
    AscendingUnique(InsertedRows(col), [id]);
    var os := Origins([], col);
    assert os == [DeltaRow(id)];
    assert MergeOrder([], col)[0] == 0;
  }

  // ---- deletes

  /** The merged column lists only rows that a range read of the delta reports. */
  ghost predicate ListsOnlyVisible(segs: seq<Source>, col: ColumnDelta) {
    forall id :: DeltaRow(id) in MergedOrigins(segs, col) ==> RangeSees(col, id)
  }

  /** After any history of calls, a merged column lists only visible rows if and
      only if every row ever inserted in it has an insert as its newest write. */
  lemma ListsOnlyVisibleIff(segs: seq<Source>, n: nat, calls: seq<Call>, c: nat)
    requires c < n
    ensures ListsOnlyVisible(segs, After(n, calls).columns[c])
       <==> forall row :: EverInserted(calls, c, row) ==> NewestIsInsert(calls, c, row)
  {
    hide MergedOrigins, After, EverInserted, NewestIsInsert, RangeSees;
    var col := After(n, calls).columns[c];
    MergedMeaning(segs, col);
    forall row ensures DeltaRow(row) in MergedOrigins(segs, col) <==> EverInserted(calls, c, row)
               ensures RangeSees(col, row) <==> NewestIsInsert(calls, c, row)
    {
      ReadsAfterHistory(n, calls, c, row);
      assert Exists(segs, col, DeltaRow(row)) <==> DeltaRow(row) in MergedOrigins(segs, col);
    }
  }

  /** A row inserted and then deleted: no read reports it, the merge lists it. */
  lemma DeletedRowMerged(segs: seq<Source>, row: nat, data: seq<Byte>)
    ensures var col := After(1, [Ins(row, [data], 0), Del(row, 0)]).columns[0];
            DeltaRow(row) in MergedOrigins(segs, col) && !RangeSees(col, row) && !PointSees(col, row)
  {
    hide MergedOrigins, After, NewestIsInsert;
    var calls := [Ins(row, [data], 0), Del(row, 0)];
    var col := After(1, calls).columns[0];
    ReadsAfterHistory(1, calls, 0, row);
    SelfStampedOrder(calls, 0, row);
    MergedMeaning(segs, col);
    assert calls[0].Ins? && Touches(calls[0], 0, row);
    assert calls[1].Del? && calls[1].row == row;
    assert Exists(segs, col, DeltaRow(row));
  }

  // ---- the values a merge holds

  /** A value's own bytes, with anything after them, read as the value. */
  lemma CellOfValue(t: DataType, v: int, rest: seq<Byte>)
    requires InRange(t, v)
    ensures CellOf(t, ValueBytes(t, v)) == v && CellOf(t, ValueBytes(t, v) + rest) == v
  {
    hide ReadValue, ValueBytes;
    var zeros: seq<Byte> := seq(TypeSize(t), _ => 0);
    ValueRoundTrip(t, v, zeros);
    ValueRoundTrip(t, v, rest + zeros);
    assert ValueBytes(t, v) + rest + zeros == ValueBytes(t, v) + (rest + zeros);
  }

  /** Fewer bytes than the type has are its low bytes, the rest being zero. */
  lemma CellOfShort(t: DataType, data: seq<Byte>)
    requires |data| < TypeSize(t)
    ensures LeValue(data) < Modulus(t) && CellOf(t, data) == Signed(t, LeValue(data))
  {
    var zeros: seq<Byte> := seq(TypeSize(t), _ => 0);
    var k := TypeSize(t) - |data|;
    assert (data + zeros)[..TypeSize(t)] == data + zeros[..k];
    ZeroExtended(data, zeros[..k]);
    LeValueBound(data + zeros[..k]);
    Pow256Sizes();
  }

  lemma {:induction false} ZeroExtended(data: seq<Byte>, zeros: seq<Byte>)
    requires forall i :: 0 <= i < |zeros| ==> zeros[i] == 0
    ensures LeValue(data + zeros) == LeValue(data)
    decreases |data|, |zeros|
  {
    if data != [] {
      assert (data + zeros)[1..] == data[1..] + zeros;
      ZeroExtended(data[1..], zeros);
    } else if zeros != [] {
      assert data + zeros == zeros && data + zeros[1..] == zeros[1..];
      ZeroExtended(data, zeros[1..]);
    }
  }

  /** Lists without repeats and with the same elements are the same multiset. */
  lemma {:induction false} SameElements(xs: seq<Origin>, ys: seq<Origin>)
    requires Distinct(xs) && Distinct(ys) && forall o :: o in xs <==> o in ys
    ensures multiset(xs) == multiset(ys)
  {
    forall o: Origin ensures multiset(xs)[o] == multiset(ys)[o] {
      DistinctCount(xs, o);
      DistinctCount(ys, o);
    }
  }

  lemma {:induction false} DistinctCount(xs: seq<Origin>, o: Origin)
    requires Distinct(xs)
    ensures multiset(xs)[o] == if o in xs then 1 else 0
  {
    if xs != [] {
      var n := |xs| - 1;
      DistinctCount(xs[..n], o);
      assert xs == xs[..n] + [xs[n]];
    }
  }

  /** The same rows in another order have the same cells in another order. */
  lemma {:induction false} SameCells(t: DataType, c: nat, segs: seq<Source>, col: ColumnDelta, xs: seq<Origin>,
                                   ys: seq<Origin>)
    requires multiset(xs) == multiset(ys)
    ensures multiset(Cells(t, c, segs, col, xs)) == multiset(Cells(t, c, segs, col, ys))
    decreases |xs|
  {
    hide Cell;
    if xs == [] {
      assert |multiset(ys)| == |ys|;
      assert ys == [];
    } else {
      var n := |xs| - 1;
      assert xs == xs[..n] + [xs[n]];
      assert xs[n] in multiset(ys);
      var j :| 0 <= j < |ys| && ys[j] == xs[n];
      var rest := ys[..j] + ys[j + 1..];
      RemoveOne(ys, j);
      DropSame(multiset(xs[..n]), multiset(rest), xs[n]);
      SameCells(t, c, segs, col, xs[..n], rest);
      CellsWithout(t, c, segs, col, ys, j);
      CellsWithout(t, c, segs, col, xs, n);
      assert xs[..n] + xs[n + 1..] == xs[..n];
    }
  }

  lemma DropSame<T>(a: multiset<T>, b: multiset<T>, x: T)
    requires a + multiset{x} == b + multiset{x}
    ensures a == b
  {
    forall y ensures a[y] == b[y] { assert (a + multiset{x})[y] == (b + multiset{x})[y]; }
  }

  lemma RemoveOne<T>(ys: seq<T>, j: nat)
    requires j < |ys|
    ensures multiset(ys) == multiset(ys[..j] + ys[j + 1..]) + multiset{ys[j]}
  {
    assert ys == ys[..j] + [ys[j]] + ys[j + 1..];
  }

  lemma CellsWithout(t: DataType, c: nat, segs: seq<Source>, col: ColumnDelta, ys: seq<Origin>, j: nat)
    requires j < |ys|
    ensures multiset(Cells(t, c, segs, col, ys))
         == multiset(Cells(t, c, segs, col, ys[..j] + ys[j + 1..])) + multiset{Cell(t, c, segs, col, ys[j])}
  {
    hide Cell;
    var cells := Cells(t, c, segs, col, ys);
    RemoveOne(cells, j);
    assert Cells(t, c, segs, col, ys[..j] + ys[j + 1..]) == cells[..j] + cells[j + 1..];
  }

  ghost predicate DistinctIds(ids: seq<nat>) { forall i, j :: 0 <= i < j < |ids| ==> ids[i] != ids[j] }

  /** What the inserts of a column, listed by row id in any order, read as. */
  function InsertValues(t: DataType, col: ColumnDelta, ids: seq<nat>): (r: seq<int>)
    requires forall i :: 0 <= i < |ids| ==> ids[i] in col.inserts
    ensures |r| == |ids| && forall i :: 0 <= i < |r| ==> r[i] == CellOf(t, col.inserts[ids[i]].data)
  {
    seq(|ids|, i requires 0 <= i < |ids| => CellOf(t, col.inserts[ids[i]].data))
  }

  /** A merged column holds exactly the segments' values and the inserts' values. */
  lemma MergedValues(types: seq<DataType>, segs: seq<Source>, col: ColumnDelta, c: nat, ids: seq<nat>)
    requires ValidSources(types, segs) && c < |types|
    requires DistinctIds(ids) && forall id :: id in ids <==> id in col.inserts
    ensures forall s :: 0 <= s < |segs| ==> c < |segs[s].columns|
    ensures forall i :: 0 <= i < |ids| ==> ids[i] in col.inserts
    ensures multiset(MergedColumn(types[c], c, segs, col))
         == multiset(Concatenated(segs, c) + InsertValues(types[c], col, ids))
  {
    hide MergedOrigins, SegmentOrigins, Concatenated, Cell, Cells, InsertValues, DeltaOrigins, ValidSource;
    var t := types[c];
    assert forall i :: 0 <= i < |ids| ==> ids[i] in ids;
    ConcatenatedCells(segs, segs, col, types, c);
    ListedOnce(segs, col, ids);
    SameCells(t, c, segs, col, MergedOrigins(segs, col), SegmentOrigins(segs) + DeltaOrigins(ids));
    CellsOfInserts(t, c, segs, col, SegmentOrigins(segs), ids);
  }

  lemma CellsOfInserts(t: DataType, c: nat, segs: seq<Source>, col: ColumnDelta, os: seq<Origin>, ids: seq<nat>)
    requires forall i :: 0 <= i < |ids| ==> ids[i] in col.inserts
    ensures Cells(t, c, segs, col, os + DeltaOrigins(ids)) == Cells(t, c, segs, col, os) + InsertValues(t, col, ids)
  {
    hide CellOf;
  }

  lemma ListedOnce(segs: seq<Source>, col: ColumnDelta, ids: seq<nat>)
    requires DistinctIds(ids) && forall id :: id in ids <==> id in col.inserts
    ensures multiset(MergedOrigins(segs, col)) == multiset(SegmentOrigins(segs) + DeltaOrigins(ids))
  {
    var merged, os, ds := MergedOrigins(segs, col), SegmentOrigins(segs), DeltaOrigins(ids);
    SegmentOriginsMeaning(segs);
    MergedMeaning(segs, col);
    MergedDistinct(segs, col);
    hide MergedOrigins, SegmentOrigins, Earlier, TimeOf;
    forall o: Origin ensures o in ds <==> o.DeltaRow? && o.id in ids {
      if o.DeltaRow? && o.id in ids { var i :| 0 <= i < |ids| && ids[i] == o.id; assert ds[i] == o; }
    }
    DistinctAppend(os, ds);
    SameElements(merged, os + ds);
  }

  lemma MergedDistinct(segs: seq<Source>, col: ColumnDelta)
    ensures Distinct(MergedOrigins(segs, col))
  {
    MergedMeaning(segs, col);
    hide MergedOrigins, TimeOf;
    var os := MergedOrigins(segs, col);
    forall i, j | 0 <= i < j < |os| ensures os[i] != os[j] { assert Earlier(segs, col, os[i], os[j]); }
  }

  /** After inserts of whole rows of typed values on distinct row ids, in any
      schedule come to rest, each merged column holds exactly the inserted values
      beside the segments' values. */
  lemma MergeHoldsInserts(types: seq<DataType>, segs: seq<Source>, ops: seq<I.Op>, values: seq<seq<int>>,
                          events: seq<I.Event>, c: nat)
    requires ValidSources(types, segs) && c < |types| && |values| == |ops| && I.DistinctRows(ops)
    requires forall i :: 0 <= i < |ops| ==> |values[i]| == |types| && SuppliesRow(types, ops[i], values[i])
    requires I.Quiescent(I.Run(ops, |types|, events))
    ensures forall s :: 0 <= s < |segs| ==> c < |segs[s].columns|
    ensures var x := I.Run(ops, |types|, events);
            && |x.store.columns| == |types|
            && multiset(MergedColumn(types[c], c, segs, x.store.columns[c]))
               == multiset(Concatenated(segs, c) + ColumnOf(values, c, |types|))
  {
    hide I.Run, MergedColumn, Concatenated, CellOf;
    I.QuiescentColumns(ops, |types|, events, c);
    var x := I.Run(ops, |types|, events);
    var col, ids := x.store.columns[c], RowIds(ops);
    assert forall i :: 0 <= i < |ops| ==> SuppliesRow(types, ops[i], values[i]);
    forall id ensures id in ids <==> id in col.inserts {
      if id in col.inserts {
        var i :| 0 <= i < |ops| && ops[i].Insert? && c < |ops[i].data| && ops[i].row == id;
        assert ids[i] == id;
      }
    }
    MergedValues(types, segs, col, c, ids);
    forall i | 0 <= i < |ops| ensures CellOf(types[c], col.inserts[ids[i]].data) == values[i][c] {
      CellOfValue(types[c], values[i][c], []);
    }
    assert InsertValues(types[c], col, ids) == ColumnOf(values, c, |types|);
  }

  /** The insert's bytes are those of a row of typed values. */
  ghost predicate SuppliesRow(types: seq<DataType>, op: I.Op, row: seq<int>) {
    && op.Insert? && |row| == |op.data| == |types|
    && forall c :: 0 <= c < |types| ==> InRange(types[c], row[c]) && op.data[c] == ValueBytes(types[c], row[c])
  }

  function RowIds(ops: seq<I.Op>): (r: seq<nat>)
    ensures |r| == |ops| && forall i :: 0 <= i < |r| ==> r[i] == ops[i].row
  {
    seq(|ops|, i requires 0 <= i < |ops| => ops[i].row)
  }

  function ColumnOf(rows: seq<seq<int>>, c: nat, width: nat): (r: seq<int>)
    requires c < width && forall i :: 0 <= i < |rows| ==> |rows[i]| == width
    ensures |r| == |rows| && forall i :: 0 <= i < |r| ==> r[i] == rows[i][c]
  {
    seq(|rows|, i requires 0 <= i < |rows| => rows[i][c])
  }

  // ---- the merge loops

  /** The delta column a merger reads: none without a store or past its columns. */
  function DeltaColumn(delta: Option<Store>, c: nat): ColumnDelta {
    if delta.Some? && c < |delta.value.columns| then delta.value.columns[c] else EMPTY
  }

  lemma OriginsStep(segs: seq<Source>, s: nat)
    requires s < |segs|
    ensures SegmentOrigins(segs[..s]) + RowsOfSegment(s, 0) == SegmentOrigins(segs[..s])
    ensures SegmentOrigins(segs[..s + 1]) == SegmentOrigins(segs[..s]) + RowsOfSegment(s, segs[s].numRows)
  {
    assert segs[..s + 1][..s] == segs[..s];
  }

  /** All values of column c with their timestamps, in collection order. */
  method Collect(t: DataType, c: nat, segs: seq<Source>, delta: Option<Store>)
    returns (values: seq<int>, times: seq<nat>)
    requires forall s :: 0 <= s < |segs| ==> c < |segs[s].columns| && |segs[s].columns[c]| == segs[s].numRows
    ensures var col := DeltaColumn(delta, c);
            values == Cells(t, c, segs, col, Origins(segs, col)) && times == Times(segs, col, Origins(segs, col))
  {
    hide Cells, Times, SegmentOrigins, RowsOfSegment, DeltaOrigins, InsertedRows;
    ghost var col := DeltaColumn(delta, c);
    values, times := CollectSegments(t, c, segs, col);
    if delta.Some? && c < |delta.value.columns| {
      values, times := CollectDelta(t, c, segs, delta.value.columns[c], values, times);
    } else {
      OriginsCount(segs, col);
    }
  }

  method CollectSegments(t: DataType, c: nat, segs: seq<Source>, ghost col: ColumnDelta)
    returns (values: seq<int>, times: seq<nat>)
    requires forall s :: 0 <= s < |segs| ==> c < |segs[s].columns| && |segs[s].columns[c]| == segs[s].numRows
    ensures values == Cells(t, c, segs, col, SegmentOrigins(segs)) && times == Times(segs, col, SegmentOrigins(segs))
  {
    hide SegmentOrigins, RowsOfSegment;
    ghost var os: seq<Origin> := [];
    values, times := [], [];
    assert segs[..0] == [];
    assert SegmentOrigins(segs[..0]) == [] by { NoSegments(); }
    for s := 0 to |segs|
      invariant os == SegmentOrigins(segs[..s])
      invariant values == Cells(t, c, segs, col, os) && times == Times(segs, col, os)
    {
      ghost var before := os;
      OriginsStep(segs, s);
      for i := 0 to segs[s].numRows
        invariant os == before + RowsOfSegment(s, i)
        invariant values == Cells(t, c, segs, col, os) && times == Times(segs, col, os)
      {
        values, times := values + [segs[s].columns[c][i]], times + [segs[s].createdTs];
        os := os + [SegmentRow(s, i)];
      }
    }
    assert segs[..|segs|] == segs;
  }

  lemma NoSegments()
    ensures SegmentOrigins([]) == []
  {
  }

  method CollectDelta(t: DataType, c: nat, segs: seq<Source>, col: ColumnDelta, values0: seq<int>, times0: seq<nat>)
    returns (values: seq<int>, times: seq<nat>)
    requires values0 == Cells(t, c, segs, col, SegmentOrigins(segs)) && times0 == Times(segs, col, SegmentOrigins(segs))
    ensures values == Cells(t, c, segs, col, Origins(segs, col)) && times == Times(segs, col, Origins(segs, col))
  {
    hide SegmentOrigins, InsertedRows;
    values, times := values0, times0;
    ghost var os := SegmentOrigins(segs);
    ghost var rows := InsertedRows(col);
    var visits := Visits(col);
    for k := 0 to |visits|
      invariant os == SegmentOrigins(segs) + DeltaOrigins(rows[..k])
      invariant values == Cells(t, c, segs, col, os) && times == Times(segs, col, os)
    {
      assert rows[k] in rows;
      assert visits[k] == VisitAt(col, rows[k]);
      assert DeltaOrigins(rows[..k + 1]) == DeltaOrigins(rows[..k]) + [DeltaRow(rows[k])];
      values, times := values + [CellOf(t, visits[k].data)], times + [visits[k].ts];
      os := os + [DeltaRow(rows[k])];
    }
    assert rows[..|rows|] == rows;
  }

  /** Merge one column: its image is the plain encoding of the merged column, and
      the statistics hold its exact extremes. */
  method MergeColumn(types: seq<DataType>, c: nat, segs: seq<Source>, delta: Option<Store>, was: H.ColumnStats)
    returns (output: seq<Byte>, stats: H.ColumnStats)
    requires ValidSources(types, segs) && c < |types|
    ensures var merged := MergedColumn(types[c], c, segs, DeltaColumn(delta, c));
            && AllInRange(types[c], merged) && output == ValuesBytes(types[c], merged)
            && stats.dataType == types[c] && stats.totalCount == |merged| && stats.nullCount == 0
            && (if merged == []
                then (stats.hasMinMax, stats.minInt, stats.maxInt) == (was.hasMinMax, was.minInt, was.maxInt)
                else stats.hasMinMax && Extremes(merged, stats.minInt, stats.maxInt))
  {
    hide ValuesBytes, Extremes, StableOrder, Cells, Times;
    var t := types[c];
    assert forall s :: 0 <= s < |segs| ==> ValidSource(types, segs[s]);
    var values, times := Collect(t, c, segs, delta);
    ghost var col := DeltaColumn(delta, c);
    var indices := StableOrder(times);
    var sorted := Gather(values, indices);
    MergedIsGathered(types, c, segs, col, values);
    hide MergedColumn;
    var buffer := new Buffer();
    EncodePlain(t, sorted, buffer);
    output := buffer.data[..buffer.size];
    stats := was.(dataType := t, totalCount := |sorted|, nullCount := 0);
    if |sorted| > 0 {
      var lo, hi := MinMax(sorted);
      stats := stats.(hasMinMax := true, minInt := lo, maxInt := hi);
    }
  }

  method Gather(values: seq<int>, indices: seq<nat>) returns (sorted: seq<int>)
    requires forall k :: 0 <= k < |indices| ==> indices[k] < |values|
    ensures sorted == Permuted(values, indices)
  {
    sorted := [];
    for i := 0 to |indices|
      invariant |sorted| == i && forall k :: 0 <= k < i ==> sorted[k] == values[indices[k]]
    {
      sorted := sorted + [values[indices[i]]];
    }
  }

  /** Permuting the cells gives the cells of the permuted rows, all in range. */
  lemma MergedIsGathered(types: seq<DataType>, c: nat, segs: seq<Source>, col: ColumnDelta, values: seq<int>)
    requires ValidSources(types, segs) && c < |types| && values == Cells(types[c], c, segs, col, Origins(segs, col))
    ensures Permuted(values, MergeOrder(segs, col)) == MergedColumn(types[c], c, segs, col)
    ensures AllInRange(types[c], MergedColumn(types[c], c, segs, col))
  {
    hide Origins, StableOrder, MergeOrder;
    var merged := MergedColumn(types[c], c, segs, col);
    var os := MergedOrigins(segs, col);
    forall k | 0 <= k < |merged| ensures InRange(types[c], merged[k]) {}
  }

  function TotalRows(segs: seq<Source>): nat {
    if segs == [] then 0 else TotalRows(segs[..|segs| - 1]) + segs[|segs| - 1].numRows
  }

  lemma {:induction false} ConcatenatedLength(types: seq<DataType>, segs: seq<Source>, c: nat)
    requires ValidSources(types, segs) && c < |types|
    ensures forall s :: 0 <= s < |segs| ==> c < |segs[s].columns|
    ensures |Concatenated(segs, c)| == TotalRows(segs)
  {
    assert forall s :: 0 <= s < |segs| ==> ValidSource(types, segs[s]);
    if segs != [] { ConcatenatedLength(types, segs[..|segs| - 1], c); }
  }

  method ConcatColumn(segs: seq<Source>, c: nat) returns (data: seq<int>)
    requires forall s :: 0 <= s < |segs| ==> c < |segs[s].columns|
    ensures data == Concatenated(segs, c)
  {
    data := [];
    for s := 0 to |segs|
      invariant data == Concatenated(segs[..s], c)
    {
      assert segs[..s + 1][..s] == segs[..s];
      data := data + segs[s].columns[c];
    }
    assert segs[..|segs|] == segs;
  }

  /** The merge the background worker runs: segments concatenated column by column,
      every segment row kept, whatever delta store the task carries. A lone segment
      is returned as it is. The writer's creation time is 0 whatever it was set to. */
  method ExecuteMerge(types: seq<DataType>, segs: seq<Source>, delta: Option<Store>) returns (r: Source)
    requires ValidSources(types, segs)
    ensures segs == [] ==> r == Source(0, 0, [])
    ensures |segs| == 1 ==> r == segs[0]
    ensures |segs| > 1 ==> r.createdTs == 0 && r.numRows == (if types == [] then 0 else TotalRows(segs))
    ensures |segs| > 1 ==> |r.columns| == |types| && forall c :: 0 <= c < |types| ==>
      (forall s :: 0 <= s < |segs| ==> c < |segs[s].columns|) && r.columns[c] == Concatenated(segs, c)
    ensures |segs| > 1 ==> forall c :: 0 <= c < |types| ==>
        LacksInserts(types[c], c, segs, DeltaColumn(delta, c), r.columns[c])
  {
    hide Concatenated, TotalRows, LacksInserts;
    if segs == [] { return Source(0, 0, []); }
    if |segs| == 1 { return segs[0]; }
    assert forall s :: 0 <= s < |segs| ==> ValidSource(types, segs[s]);
    var columns: seq<seq<int>> := [];
    var rowCount := 0;
    for c := 0 to |segs[0].columns|
      invariant |columns| == c && rowCount == if c == 0 then 0 else TotalRows(segs)
      invariant forall d :: 0 <= d < c ==> columns[d] == Concatenated(segs, d)
    {
      var data := ConcatColumn(segs, c);
      ConcatenatedLength(types, segs, c);
      columns := columns + [data];
      rowCount := if |data| > rowCount then |data| else rowCount;
    }
    r := Source(0, rowCount, columns);
    forall c | 0 <= c < |types| ensures LacksInserts(types[c], c, segs, DeltaColumn(delta, c), r.columns[c]) {
      InsertsMissing(types, segs, DeltaColumn(delta, c), c);
    }
  }

  /** The column is shorter than the full merge by the delta inserts it leaves out,
      and equals it when there are none and the segments are in timestamp order. */
  ghost predicate LacksInserts(t: DataType, c: nat, segs: seq<Source>, col: ColumnDelta, column: seq<int>) {
    && |MergedColumn(t, c, segs, col)| == |column| + |InsertedRows(col)|
    && (col.inserts == map[] && InTimeOrder(segs) ==> column == MergedColumn(t, c, segs, col))
  }

  lemma InsertsMissing(types: seq<DataType>, segs: seq<Source>, col: ColumnDelta, c: nat)
    requires ValidSources(types, segs) && c < |types|
    ensures forall s :: 0 <= s < |segs| ==> c < |segs[s].columns|
    ensures LacksInserts(types[c], c, segs, col, Concatenated(segs, c))
  {
    hide MergedOrigins, SegmentOrigins, Concatenated, Cell, InsertedRows, Origins;
    OriginsCount(segs, col);
    ConcatenatedCells(segs, segs, col, types, c);
    MergeIsConcatenationIff(segs, col);
  }
}
