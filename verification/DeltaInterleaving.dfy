// Concurrent calls on one delta store (include/columnar/delta_store.h): drawing
// a timestamp, writing one column under its lock and bumping the row counter are
// separate atomic steps, and a schedule interleaves them in any order.
module DeltaInterleaving {
  import opened Types
  import opened Bytes
  import opened DeltaStore

  /** A call in progress; a zero timestamp asks for the store's own. */
  datatype Op = Insert(row: nat, data: seq<seq<Byte>>, ts: nat) | Delete(row: nat, ts: nat)

  datatype Pc = Idle | Writing(ts: nat, next: nat) | Done(ts: nat)

  datatype Conc = Conc(store: Store, pcs: seq<Pc>, flushed: nat)

  datatype Event = Step(op: nat) | StartFlush | FinishFlush(rows: nat)

  function Initial(n: nat, ops: seq<Op>): Conc { Conc(Empty(n), seq(|ops|, _ => Idle), 0) }

  /** The call's loop still has column c to write. */
  predicate Reaches(op: Op, n: nat, c: nat) { c < n && (op.Insert? ==> c < |op.data|) }

  function WrittenColumn(col: ColumnDelta, op: Op, ts: nat, c: nat): ColumnDelta
    requires op.Insert? ==> c < |op.data|
  {
    match op
    case Insert(row, data, _) => PutInsert(col, row, Version(ts, data[c]))
    case Delete(row, _) => PutDelete(col, row, ts)
  }

  /** One atomic step of call i. */
  function Stepped(ops: seq<Op>, x: Conc, i: nat): Conc
    requires i < |ops| == |x.pcs|
  {
    var op, s := ops[i], x.store;
    match x.pcs[i]
    case Done(_) => x
    case Idle => Conc(s.(clock := ClockAfter(s, op.ts)), x.pcs[i := Writing(StampOf(s, op.ts), 0)], x.flushed)
    case Writing(ts, c) =>
      if Reaches(op, |s.columns|, c) then
        Conc(s.(columns := s.columns[c := WrittenColumn(s.columns[c], op, ts, c)]), x.pcs[i := Writing(ts, c + 1)],
             x.flushed)
      else
        Conc(if op.Insert? then s.(pending := Add64(s.pending, 1)) else s, x.pcs[i := Done(ts)], x.flushed)
  }

  function Next(ops: seq<Op>, x: Conc, e: Event): Conc {
    match e
    case Step(i) => if i < |ops| == |x.pcs| then Stepped(ops, x, i) else x
    case StartFlush => x.(store := x.store.(flushing := true))
    case FinishFlush(rows) =>
      Conc(x.store.(pending := Sub64(x.store.pending, rows), flushing := false), x.pcs, x.flushed + rows)
  }

  function RunFrom(ops: seq<Op>, x: Conc, events: seq<Event>): Conc
    decreases |events|
  {
    if events == [] then x else RunFrom(ops, Next(ops, x, events[0]), events[1..])
  }

  function Run(ops: seq<Op>, n: nat, events: seq<Event>): Conc { RunFrom(ops, Initial(n, ops), events) }

  ghost predicate Quiescent(x: Conc) { forall i :: 0 <= i < |x.pcs| ==> x.pcs[i].Done? }

  ghost predicate DistinctRows(ops: seq<Op>) {
    forall i, j :: 0 <= i < j < |ops| && ops[i].Insert? && ops[j].Insert? ==> ops[i].row != ops[j].row
  }

  predicate Shaped(ops: seq<Op>, n: nat, x: Conc) { |x.pcs| == |ops| && |x.store.columns| == n }

  // ---- what each column holds

  predicate Past(pc: Pc, c: nat) {
    match pc
    case Idle => false
    case Writing(_, k) => c < k
    case Done(_) => true
  }

  function Stamp(pc: Pc): nat { if pc.Idle? then 0 else pc.ts }

  /** Call i has put its version into column c. */
  predicate Wrote(ops: seq<Op>, pcs: seq<Pc>, c: nat, i: nat) {
    i < |ops| == |pcs| && ops[i].Insert? && c < |ops[i].data| && Past(pcs[i], c)
  }

  /** Column c holds exactly the versions written to it so far. */
  ghost predicate ColumnHolds(ops: seq<Op>, x: Conc, c: nat)
    requires c < |x.store.columns|
  {
    var ins := x.store.columns[c].inserts;
    && (forall i: nat :: Wrote(ops, x.pcs, c, i) ==>
          ops[i].row in ins && ins[ops[i].row] == Version(Stamp(x.pcs[i]), ops[i].data[c]))
    && forall row :: row in ins ==> exists i: nat :: Wrote(ops, x.pcs, c, i) && ops[i].row == row
  }

  lemma {:induction false} ShapeKept(ops: seq<Op>, n: nat, x: Conc, events: seq<Event>)
    requires Shaped(ops, n, x)
    ensures Shaped(ops, n, RunFrom(ops, x, events))
    decreases |events|
  {
    if events != [] { ShapeKept(ops, n, Next(ops, x, events[0]), events[1..]); }
  }

  /** A step that changes neither the column nor what was written to it. */
  lemma HoldsUnchanged(ops: seq<Op>, x: Conc, y: Conc, c: nat)
    requires |x.store.columns| == |y.store.columns| && c < |x.store.columns| && ColumnHolds(ops, x, c)
    requires |x.pcs| == |y.pcs| == |ops|
    requires y.store.columns[c].inserts == x.store.columns[c].inserts
    requires forall i: nat :: Wrote(ops, y.pcs, c, i) == Wrote(ops, x.pcs, c, i)
    requires forall i: nat :: Wrote(ops, x.pcs, c, i) ==> Stamp(y.pcs[i]) == Stamp(x.pcs[i])
    ensures ColumnHolds(ops, y, c)
  {
    hide Wrote, Stamp;
  }

  lemma HoldsWrite(ops: seq<Op>, n: nat, x: Conc, i: nat)
    requires DistinctRows(ops) && Shaped(ops, n, x) && i < |ops| && x.pcs[i].Writing?
    requires Reaches(ops[i], n, x.pcs[i].next) && ops[i].Insert? && ColumnHolds(ops, x, x.pcs[i].next)
    ensures ColumnHolds(ops, Stepped(ops, x, i), x.pcs[i].next)
  {
    var c := x.pcs[i].next;
    var y := Stepped(ops, x, i);
    var was, now := x.store.columns[c].inserts, y.store.columns[c].inserts;
    forall j: nat | Wrote(ops, y.pcs, c, j)
      ensures ops[j].row in now && now[ops[j].row] == Version(Stamp(y.pcs[j]), ops[j].data[c])
    {
      if j != i { assert Wrote(ops, x.pcs, c, j); }
    }
    forall row | row in now ensures exists j: nat :: Wrote(ops, y.pcs, c, j) && ops[j].row == row {
      if row == ops[i].row {
        assert Wrote(ops, y.pcs, c, i);
      } else {
        var j: nat :| Wrote(ops, x.pcs, c, j) && ops[j].row == row;
        assert Wrote(ops, y.pcs, c, j);
      }
    }
  }

  lemma StepHolds(ops: seq<Op>, n: nat, x: Conc, i: nat, c: nat)
    requires DistinctRows(ops) && Shaped(ops, n, x) && i < |ops| && c < n && ColumnHolds(ops, x, c)
    ensures Shaped(ops, n, Stepped(ops, x, i)) && ColumnHolds(ops, Stepped(ops, x, i), c)
  {
    var op, y := ops[i], Stepped(ops, x, i);
    if x.pcs[i].Writing? && x.pcs[i].next == c && op.Insert? && c < |op.data| {
      HoldsWrite(ops, n, x, i);
    } else {
      hide ColumnHolds, DistinctRows;
      HoldsUnchanged(ops, x, y, c);
    }
  }

  lemma {:induction false} RunHolds(ops: seq<Op>, n: nat, x: Conc, events: seq<Event>, c: nat)
    requires DistinctRows(ops) && Shaped(ops, n, x) && c < n && ColumnHolds(ops, x, c)
    ensures Shaped(ops, n, RunFrom(ops, x, events)) && ColumnHolds(ops, RunFrom(ops, x, events), c)
    decreases |events|
  {
    if events != [] {
      hide Stepped, DistinctRows;
      match events[0] {
        case Step(i) => if i < |ops| { StepHolds(ops, n, x, i, c); }
        case _ =>
      }
      RunHolds(ops, n, Next(ops, x, events[0]), events[1..], c);
    }
  }

  /** At rest, column c holds for each insert that reached it exactly that insert's
      version, and nothing else, whatever the schedule. */
  lemma QuiescentColumns(ops: seq<Op>, n: nat, events: seq<Event>, c: nat)
    requires DistinctRows(ops) && c < n
    ensures var x := Run(ops, n, events);
            && Shaped(ops, n, x)
            && (Quiescent(x) ==> ColumnIs(ops, x, c))
  {
    hide RunFrom, DistinctRows;
    RunHolds(ops, n, Initial(n, ops), events, c);
    var x := Run(ops, n, events);
    if Quiescent(x) { AtRest(ops, n, x, c); }
  }

  ghost predicate ColumnIs(ops: seq<Op>, x: Conc, c: nat)
    requires |x.pcs| == |ops| && c < |x.store.columns|
  {
    var ins := x.store.columns[c].inserts;
    && (forall i :: 0 <= i < |ops| && ops[i].Insert? && c < |ops[i].data| ==>
          ops[i].row in ins && ins[ops[i].row] == Version(Stamp(x.pcs[i]), ops[i].data[c]))
    && forall row :: row in ins ==>
         exists i :: 0 <= i < |ops| && ops[i].Insert? && c < |ops[i].data| && ops[i].row == row
  }

  lemma AtRest(ops: seq<Op>, n: nat, x: Conc, c: nat)
    requires Shaped(ops, n, x) && c < n && Quiescent(x) && ColumnHolds(ops, x, c)
    ensures ColumnIs(ops, x, c)
  {
    forall i | 0 <= i < |ops| && ops[i].Insert? && c < |ops[i].data| ensures Wrote(ops, x.pcs, c, i) {}
    var ins := x.store.columns[c].inserts;
    forall row | row in ins
      ensures exists i :: 0 <= i < |ops| && ops[i].Insert? && c < |ops[i].data| && ops[i].row == row {
      var i: nat :| Wrote(ops, x.pcs, c, i) && ops[i].row == row;
    }
  }

  // ---- alignment of the columns

  function RowTimes(col: ColumnDelta): map<nat, nat> { map row | row in col.inserts :: col.inserts[row].ts }

  /** All columns hold the same rows with the same timestamps. */
  ghost predicate Aligned(s: Store) {
    forall c, d :: 0 <= c < |s.columns| && 0 <= d < |s.columns| ==> RowTimes(s.columns[c]) == RowTimes(s.columns[d])
  }

  ghost predicate FullWidth(ops: seq<Op>, n: nat) {
    forall i :: 0 <= i < |ops| && ops[i].Insert? ==> |ops[i].data| == 0 || |ops[i].data| >= n
  }

  lemma SameColumns(ops: seq<Op>, n: nat, x: Conc, c: nat, d: nat)
    requires Shaped(ops, n, x) && c < n && d < n && FullWidth(ops, n) && ColumnIs(ops, x, c) && ColumnIs(ops, x, d)
    ensures forall row :: row in x.store.columns[c].inserts ==>
      row in x.store.columns[d].inserts && x.store.columns[d].inserts[row].ts == x.store.columns[c].inserts[row].ts
  {
    forall row | row in x.store.columns[c].inserts
      ensures row in x.store.columns[d].inserts
      ensures x.store.columns[d].inserts[row].ts == x.store.columns[c].inserts[row].ts
    {
      var i :| 0 <= i < |ops| && ops[i].Insert? && c < |ops[i].data| && ops[i].row == row;
    }
  }

  /** With distinct row ids, every schedule that comes to rest leaves the columns
      aligned if and only if every insert supplies all columns or none. */
  lemma AlignedIffFullWidth(ops: seq<Op>, n: nat, events: seq<Event>)
    requires DistinctRows(ops) && Quiescent(Run(ops, n, events))
    ensures Aligned(Run(ops, n, events).store) <==> FullWidth(ops, n)
  {
    hide Run, DistinctRows, ColumnIs;
    var x := Run(ops, n, events);
    ShapedRun(ops, n, events);
    forall c | 0 <= c < n ensures ColumnIs(ops, x, c) { QuiescentColumns(ops, n, events, c); }
    if FullWidth(ops, n) {
      forall c, d | 0 <= c < n && 0 <= d < n ensures RowTimes(x.store.columns[c]) == RowTimes(x.store.columns[d]) {
        SameColumns(ops, n, x, c, d);
        SameColumns(ops, n, x, d, c);
      }
    }
    forall i | 0 <= i < |ops| && ops[i].Insert? && 0 < |ops[i].data| < n ensures !Aligned(x.store) {
      NarrowInsert(ops, n, events, i);
    }
  }

  lemma ShapedRun(ops: seq<Op>, n: nat, events: seq<Event>)
    ensures Shaped(ops, n, Run(ops, n, events))
  {
    ShapeKept(ops, n, Initial(n, ops), events);
  }

  lemma NarrowInsert(ops: seq<Op>, n: nat, events: seq<Event>, i: nat)
    requires DistinctRows(ops) && Quiescent(Run(ops, n, events))
    requires i < |ops| && ops[i].Insert? && 0 < |ops[i].data| < n
    ensures !Aligned(Run(ops, n, events).store)
  {
    hide Run, Aligned;
    var x, d := Run(ops, n, events), |ops[i].data|;
    QuiescentColumns(ops, n, events, 0);
    QuiescentColumns(ops, n, events, d);
    var row := ops[i].row;
    assert row in RowTimes(x.store.columns[0]);
    assert row !in RowTimes(x.store.columns[d]);
    NotAligned(x.store, 0, d);
  }

  lemma NotAligned(s: Store, c: nat, d: nat)
    requires c < |s.columns| && d < |s.columns| && RowTimes(s.columns[c]) != RowTimes(s.columns[d])
    ensures !Aligned(s)
  {
  }

  // ---- counters

  /** Inserts whose counter step is done. */
  function Completed(ops: seq<Op>, pcs: seq<Pc>): nat
    requires |ops| == |pcs|
  {
    if ops == [] then 0
    else
      var m := |ops| - 1;
      Completed(ops[..m], pcs[..m]) + if ops[m].Insert? && pcs[m].Done? then 1 else 0
  }

  /** Calls that have drawn their own timestamp. */
  function Drawn(ops: seq<Op>, pcs: seq<Pc>): nat
    requires |ops| == |pcs|
  {
    if ops == [] then 0
    else
      var m := |ops| - 1;
      Drawn(ops[..m], pcs[..m]) + if ops[m].ts == 0 && !pcs[m].Idle? then 1 else 0
  }

  lemma {:induction false} CountsUpdate(ops: seq<Op>, pcs: seq<Pc>, i: nat, pc: Pc)
    requires i < |ops| == |pcs|
    requires !pcs[i].Done? && !pc.Idle?
    ensures Completed(ops, pcs[i := pc]) == Completed(ops, pcs) + if ops[i].Insert? && pc.Done? then 1 else 0
    ensures Drawn(ops, pcs[i := pc]) == Drawn(ops, pcs) + if ops[i].ts == 0 && pcs[i].Idle? then 1 else 0
  {
    var m := |ops| - 1;
    if i < m {
      CountsUpdate(ops[..m], pcs[..m], i, pc);
      assert pcs[i := pc][..m] == pcs[..m][i := pc];
    } else {
      assert pcs[i := pc][..m] == pcs[..m];
    }
  }

  lemma {:induction false} DrawnBound(ops: seq<Op>, pcs: seq<Pc>)
    requires |ops| == |pcs|
    ensures Drawn(ops, pcs) <= |ops|
    ensures (exists i :: 0 <= i < |ops| && pcs[i].Idle?) ==> Drawn(ops, pcs) < |ops|
  {
    if ops != [] { DrawnBound(ops[..|ops| - 1], pcs[..|ops| - 1]); }
  }

  lemma {:induction false} NoneDrawn(ops: seq<Op>, pcs: seq<Pc>)
    requires |ops| == |pcs| && forall i :: 0 <= i < |pcs| ==> pcs[i].Idle?
    ensures Drawn(ops, pcs) == 0 && Completed(ops, pcs) == 0
  {
    if ops != [] { NoneDrawn(ops[..|ops| - 1], pcs[..|ops| - 1]); }
  }

  lemma {:induction false} AllCompleted(ops: seq<Op>, pcs: seq<Pc>)
    requires |ops| == |pcs| && forall i :: 0 <= i < |pcs| ==> pcs[i].Done?
    ensures Completed(ops, pcs) == InsertCount(ops)
  {
    if ops != [] { AllCompleted(ops[..|ops| - 1], pcs[..|ops| - 1]); }
  }

  function InsertCount(ops: seq<Op>): nat {
    if ops == [] then 0 else InsertCount(ops[..|ops| - 1]) + if ops[|ops| - 1].Insert? then 1 else 0
  }

  /** 64-bit difference of two counts. */
  function Diff64(a: nat, b: nat): nat { (a - b) % TWO_64 }

  lemma DiffAdd(a: nat, b: nat)
    ensures Add64(Diff64(a, b), 1) == Diff64(a + 1, b)
  {
  }

  lemma DiffSub(a: nat, b: nat, k: nat)
    ensures Sub64(Diff64(a, b), k) == Diff64(a, b + k)
  {
  }

  /** The pending counter is completed inserts minus flushed rows. */
  predicate PendingOk(ops: seq<Op>, x: Conc)
    requires |ops| == |x.pcs|
  {
    x.store.pending == Diff64(Completed(ops, x.pcs), x.flushed)
  }

  ghost predicate OwnStamp(ops: seq<Op>, x: Conc, i: nat)
    requires |ops| == |x.pcs|
  {
    i < |ops| && ops[i].ts == 0 && !x.pcs[i].Idle?
  }

  /** Own timestamps are positive, up to the clock, and pairwise distinct; given
      ones are used as given. */
  ghost predicate StampsOk(ops: seq<Op>, x: Conc)
    requires |ops| == |x.pcs|
  {
    && x.store.clock == Drawn(ops, x.pcs)
    && (forall i: nat :: OwnStamp(ops, x, i) ==> 1 <= Stamp(x.pcs[i]) <= x.store.clock)
    && (forall i :: 0 <= i < |ops| && ops[i].ts != 0 && !x.pcs[i].Idle? ==> Stamp(x.pcs[i]) == ops[i].ts)
    && forall i: nat, j: nat :: OwnStamp(ops, x, i) && OwnStamp(ops, x, j) && i != j ==>
        Stamp(x.pcs[i]) != Stamp(x.pcs[j])
  }

  lemma StepCounters(ops: seq<Op>, x: Conc, i: nat)
    requires |ops| == |x.pcs| && i < |ops| && PendingOk(ops, x)
    ensures |Stepped(ops, x, i).pcs| == |ops| && PendingOk(ops, Stepped(ops, x, i))
  {
    hide Completed, Drawn, Add64, Diff64, Reaches;
    var y := Stepped(ops, x, i);
    if !x.pcs[i].Done? { CountsUpdate(ops, x.pcs, i, y.pcs[i]); }
    DiffAdd(Completed(ops, x.pcs), x.flushed);
  }

  lemma StepStamps(ops: seq<Op>, x: Conc, i: nat)
    requires |ops| == |x.pcs| && i < |ops| < TWO_64 && StampsOk(ops, x)
    ensures |Stepped(ops, x, i).pcs| == |ops| && StampsOk(ops, Stepped(ops, x, i))
  {
    hide Completed, Drawn, Reaches;
    var y := Stepped(ops, x, i);
    DrawnBound(ops, x.pcs);
    if !x.pcs[i].Done? { CountsUpdate(ops, x.pcs, i, y.pcs[i]); }
    assert forall j: nat :: j < |ops| && j != i ==> y.pcs[j] == x.pcs[j];
  }

  lemma {:induction false} RunCounters(ops: seq<Op>, x: Conc, events: seq<Event>)
    requires |ops| == |x.pcs| && PendingOk(ops, x)
    ensures |RunFrom(ops, x, events).pcs| == |ops| && PendingOk(ops, RunFrom(ops, x, events))
    decreases |events|
  {
    if events != [] {
      hide Stepped, Completed, Diff64, Sub64;
      match events[0] {
        case Step(i) => if i < |ops| { StepCounters(ops, x, i); }
        case FinishFlush(rows) => DiffSub(Completed(ops, x.pcs), x.flushed, rows);
        case StartFlush =>
      }
      RunCounters(ops, Next(ops, x, events[0]), events[1..]);
    }
  }

  lemma {:induction false} RunStamps(ops: seq<Op>, x: Conc, events: seq<Event>)
    requires |ops| == |x.pcs| && |ops| < TWO_64 && StampsOk(ops, x)
    ensures |RunFrom(ops, x, events).pcs| == |ops| && StampsOk(ops, RunFrom(ops, x, events))
    decreases |events|
  {
    if events != [] {
      hide Stepped, Drawn;
      match events[0] {
        case Step(i) => if i < |ops| { StepStamps(ops, x, i); }
        case _ =>
      }
      RunStamps(ops, Next(ops, x, events[0]), events[1..]);
    }
  }

  /** In every state of every run the pending counter is completed inserts minus
      flushed rows (64-bit), and self-drawn timestamps are pairwise distinct; at
      rest every insert has been counted. */
  lemma CountersAlways(ops: seq<Op>, n: nat, events: seq<Event>)
    requires |ops| < TWO_64
    ensures var x := Run(ops, n, events);
            && |x.pcs| == |ops|
            && PendingOk(ops, x) && StampsOk(ops, x)
            && (Quiescent(x) ==> x.store.pending == Diff64(InsertCount(ops), x.flushed))
  {
    var s := Initial(n, ops);
    NoneDrawn(ops, s.pcs);
    RunCounters(ops, s, events);
    RunStamps(ops, s, events);
    hide RunFrom, Diff64, Completed, InsertCount;
    var x := Run(ops, n, events);
    if Quiescent(x) { AllCompleted(ops, x.pcs); }
  }

  // ---- the same row twice

  /** A self-stamped insert that supplies all n columns. */
  predicate WholeRow(op: Op, n: nat) { op.Insert? && op.ts == 0 && |op.data| >= n }

  ghost predicate AlwaysAligned(ops: seq<Op>, n: nat) {
    forall events: seq<Event> :: Quiescent(Run(ops, n, events)) ==> Aligned(Run(ops, n, events).store)
  }

  function Times(e: Event, k: nat): seq<Event> { if k == 0 then [] else [e] + Times(e, k - 1) }

  lemma {:induction false} RunAppend(ops: seq<Op>, x: Conc, a: seq<Event>, b: seq<Event>)
    ensures RunFrom(ops, x, a + b) == RunFrom(ops, RunFrom(ops, x, a), b)
    decreases |a|
  {
    if a == [] {
      assert a + b == b;
    } else {
      assert (a + b)[0] == a[0] && (a + b)[1..] == a[1..] + b;
      RunAppend(ops, Next(ops, x, a[0]), a[1..], b);
    }
  }

  lemma RunCons(ops: seq<Op>, x: Conc, e: Event, rest: seq<Event>)
    ensures RunFrom(ops, x, [e] + rest) == RunFrom(ops, Next(ops, x, e), rest)
  {
    assert ([e] + rest)[1..] == rest;
  }

  /** How many columns a call writes. */
  function Width(op: Op, n: nat): nat { if op.Insert? && |op.data| < n then |op.data| else n }

  /** State y is x after call i finished alone from column k on. */
  ghost predicate Drove(ops: seq<Op>, n: nat, x: Conc, y: Conc, i: nat, ts: nat, k: nat)
    requires Shaped(ops, n, x) && i < |ops|
  {
    && Shaped(ops, n, y) && y.pcs == x.pcs[i := Done(ts)]
    && (forall c :: 0 <= c < n ==>
         y.store.columns[c]
         == if k <= c < Width(ops[i], n) then WrittenColumn(x.store.columns[c], ops[i], ts, c) else x.store.columns[c])
    && y.store.pending == (if ops[i].Insert? then Add64(x.store.pending, 1) else x.store.pending)
    && y.store.clock == x.store.clock && y.store.flushing == x.store.flushing
  }

  lemma {:induction false} Drive(ops: seq<Op>, n: nat, x: Conc, i: nat, ts: nat, k: nat)
    requires Shaped(ops, n, x) && i < |ops| && x.pcs[i] == Writing(ts, k) && k <= Width(ops[i], n)
    ensures Drove(ops, n, x, RunFrom(ops, x, Times(Step(i), Width(ops[i], n) - k + 1)), i, ts, k)
    decreases Width(ops[i], n) - k
  {
    hide WrittenColumn, Add64;
    var w := Width(ops[i], n);
    var y := Stepped(ops, x, i);
    RunCons(ops, x, Step(i), Times(Step(i), w - k));
    if k < w {
      Drive(ops, n, y, i, ts, k + 1);
      hide RunFrom;
      var z := RunFrom(ops, y, Times(Step(i), w - k));
      assert x.pcs[i := Done(ts)] == y.pcs[i := Done(ts)];
    }
  }

  function CallEffect(s: Store, op: Op): Store {
    match op
    case Insert(row, data, ts) => InsertCall(s, row, data, ts)
    case Delete(row, ts) => DeleteCall(s, row, ts)
  }

  /** A call whose steps are not interleaved with others has the method's effect. */
  lemma SerialCall(ops: seq<Op>, n: nat, x: Conc, i: nat)
    requires Shaped(ops, n, x) && i < |ops| && x.pcs[i].Idle?
    ensures RunFrom(ops, x, [Step(i)] + Times(Step(i), Width(ops[i], n) + 1)).store
         == CallEffect(x.store, ops[i])
  {
    hide Add64;
    var y := Stepped(ops, x, i);
    RunCons(ops, x, Step(i), Times(Step(i), Width(ops[i], n) + 1));
    Drive(ops, n, y, i, y.pcs[i].ts, 0);
    hide RunFrom, Times, Stepped;
    var z := RunFrom(ops, y, Times(Step(i), Width(ops[i], n) + 1));
    if ops[i].Insert? {
      assert z.store.columns == Inserted(x.store.columns, ops[i].row, ops[i].data, y.pcs[i].ts);
    } else {
      assert z.store.columns == Deleted(x.store.columns, ops[i].row, y.pcs[i].ts);
    }
  }

  /** Calls before m other than i and j have run; the others have not begun. */
  ghost predicate OthersDone(ops: seq<Op>, x: Conc, m: nat, i: nat, j: nat) {
    |x.pcs| == |ops| && forall k :: 0 <= k < |ops| ==>
        if k < m && k != i && k != j then x.pcs[k].Done? else x.pcs[k].Idle?
  }

  function WholeCall(n: nat, k: nat): seq<Event> { [Step(k)] + Times(Step(k), n + 1) }

  function OthersSchedule(n: nat, m: nat, i: nat, j: nat): seq<Event> {
    if m == 0 then []
    else OthersSchedule(n, m - 1, i, j) + if m - 1 == i || m - 1 == j then [] else WholeCall(n, m - 1)
  }

  lemma RunWhole(ops: seq<Op>, n: nat, x: Conc, i: nat)
    requires Shaped(ops, n, x) && i < |ops| && WholeRow(ops[i], n) && x.pcs[i].Idle?
    ensures var y := RunFrom(ops, x, WholeCall(n, i));
            Shaped(ops, n, y) && y.pcs[i].Done? && y.pcs == x.pcs[i := y.pcs[i]]
  {
    var y := Stepped(ops, x, i);
    RunCons(ops, x, Step(i), Times(Step(i), n + 1));
    Drive(ops, n, y, i, y.pcs[i].ts, 0);
    hide RunFrom, Times;
  }

  lemma OneMoreDone(ops: seq<Op>, n: nat, x: Conc, m: nat, i: nat, j: nat)
    requires 0 < m <= |ops| && Shaped(ops, n, x) && WholeRow(ops[m - 1], n) && OthersDone(ops, x, m - 1, i, j)
    requires m - 1 != i && m - 1 != j
    ensures var y := RunFrom(ops, x, WholeCall(n, m - 1)); Shaped(ops, n, y) && OthersDone(ops, y, m, i, j)
  {
    hide RunFrom, WholeCall, WholeRow;
    RunWhole(ops, n, x, m - 1);
  }

  lemma NothingRun(ops: seq<Op>, n: nat, i: nat, j: nat)
    ensures Shaped(ops, n, Run(ops, n, [])) && OthersDone(ops, Run(ops, n, []), 0, i, j)
  {
  }

  /** Skipping one of the two chosen calls. */
  lemma SkipChosen(ops: seq<Op>, x: Conc, m: nat, i: nat, j: nat)
    requires 0 < m && OthersDone(ops, x, m - 1, i, j) && (m - 1 == i || m - 1 == j)
    ensures OthersDone(ops, x, m, i, j)
  {
  }

  lemma {:induction false} RunOthers(ops: seq<Op>, n: nat, m: nat, i: nat, j: nat)
    requires m <= |ops| && forall k :: 0 <= k < |ops| ==> WholeRow(ops[k], n)
    ensures Shaped(ops, n, Run(ops, n, OthersSchedule(n, m, i, j)))
    ensures OthersDone(ops, Run(ops, n, OthersSchedule(n, m, i, j)), m, i, j)
  {
    hide RunFrom, WholeRow, WholeCall, Shaped, Initial;
    if m == 0 {
      NothingRun(ops, n, i, j);
    } else {
      RunOthers(ops, n, m - 1, i, j);
      var x, before := Initial(n, ops), OthersSchedule(n, m - 1, i, j);
      hide OthersDone;
      if m - 1 == i || m - 1 == j {
        assert before + [] == before;
        SkipChosen(ops, Run(ops, n, before), m, i, j);
      } else {
        RunAppend(ops, x, before, WholeCall(n, m - 1));
        OneMoreDone(ops, n, RunFrom(ops, x, before), m, i, j);
      }
    }
  }

  function TornSchedule(n: nat, i: nat, j: nat): seq<Event> {
    [Step(i)] + ([Step(j)] + ([Step(i)] + (Times(Step(j), n + 1) + Times(Step(i), n))))
  }

  /** Call i writes column 0, call j runs to its end, call i writes the rest:
      column 0 keeps j's version, the other columns i's. */
  lemma TornRun(ops: seq<Op>, n: nat, x: Conc, i: nat, j: nat)
    requires Shaped(ops, n, x) && n >= 2 && i < |ops| && j < |ops| && i != j && WholeRow(ops[i], n)
    requires WholeRow(ops[j], n)
    requires x.pcs[i].Idle? && x.pcs[j].Idle? && ops[i].row == ops[j].row
    ensures var y := RunFrom(ops, x, TornSchedule(n, i, j));
            Shaped(ops, n, y) && Torn(x, y, ops[i].row, i, j)
  {
    hide RunFrom, Stepped, Times, WrittenColumn;
    var last := Times(Step(j), n + 1) + Times(Step(i), n);
    var c := Opened(ops, x, i, j);
    TornOpening(ops, n, x, i, j, last);
    var ti, tj := c.pcs[i].ts, c.pcs[j].ts;
    Drive(ops, n, c, j, tj, 0);
    var d := RunFrom(ops, c, Times(Step(j), n + 1));
    Drive(ops, n, d, i, ti, 1);
    RunAppend(ops, c, Times(Step(j), n + 1), Times(Step(i), n));
    var y := RunFrom(ops, d, Times(Step(i), n));
    WrittenVersion(d.store.columns[1], ops[i], ti, 1);
    WrittenVersion(c.store.columns[0], ops[j], tj, 0);
  }

  lemma WrittenVersion(col: ColumnDelta, op: Op, ts: nat, c: nat)
    requires op.Insert? && c < |op.data|
    ensures op.row in WrittenColumn(col, op, ts, c).inserts
    ensures WrittenColumn(col, op, ts, c).inserts[op.row].ts == ts
  {
  }

  function Opened(ops: seq<Op>, x: Conc, i: nat, j: nat): Conc
    requires i < |ops| == |x.pcs| && j < |ops|
  {
    Stepped(ops, Stepped(ops, Stepped(ops, x, i), j), i)
  }

  /** The first three steps: both calls stamped, call i past column 0. */
  lemma TornOpening(ops: seq<Op>, n: nat, x: Conc, i: nat, j: nat, rest: seq<Event>)
    requires Shaped(ops, n, x) && n >= 2 && i < |ops| && j < |ops| && i != j && WholeRow(ops[i], n)
    requires WholeRow(ops[j], n)
    requires x.pcs[i].Idle? && x.pcs[j].Idle?
    ensures var c := Opened(ops, x, i, j);
            && RunFrom(ops, x, [Step(i)] + ([Step(j)] + ([Step(i)] + rest))) == RunFrom(ops, c, rest)
            && Shaped(ops, n, c) && c.pcs[i].Writing? && c.pcs[j].Writing? && c.pcs[i].next == 1 && c.pcs[j].next == 0
            && c.pcs == x.pcs[i := c.pcs[i]][j := c.pcs[j]]
  {
    hide RunFrom;
    var a := Stepped(ops, x, i);
    var b := Stepped(ops, a, j);
    RunCons(ops, x, Step(i), [Step(j)] + ([Step(i)] + rest));
    RunCons(ops, a, Step(j), [Step(i)] + rest);
    RunCons(ops, b, Step(i), rest);
  }

  ghost predicate Torn(x: Conc, y: Conc, row: nat, i: nat, j: nat) {
    && |y.pcs| == |x.pcs| && i < |x.pcs| && j < |x.pcs| && |y.store.columns| >= 2
    && y.pcs[i].Done? && y.pcs[j].Done?
    && (forall k :: 0 <= k < |x.pcs| && k != i && k != j ==> y.pcs[k] == x.pcs[k])
    && var col0, col1 := y.store.columns[0].inserts, y.store.columns[1].inserts;
       row in col0 && row in col1 && col0[row].ts == y.pcs[j].ts && col1[row].ts == y.pcs[i].ts
  }

  lemma SameRowTears(ops: seq<Op>, n: nat, i: nat, j: nat)
    requires n >= 2 && |ops| < TWO_64 && i < j < |ops| && ops[i].row == ops[j].row
    requires forall k :: 0 <= k < |ops| ==> WholeRow(ops[k], n)
    ensures !AlwaysAligned(ops, n)
  {
    var before := OthersSchedule(n, |ops|, i, j);
    RunOthers(ops, n, |ops|, i, j);
    var x := Run(ops, n, before);
    TornRun(ops, n, x, i, j);
    RunAppend(ops, Initial(n, ops), before, TornSchedule(n, i, j));
    var all := before + TornSchedule(n, i, j);
    hide RunFrom, OthersSchedule, TornSchedule, WholeRow;
    var y := Run(ops, n, all);
    assert Quiescent(y);
    CountersAlways(ops, n, all);
    assert WholeRow(ops[i], n) && WholeRow(ops[j], n);
    TornNotAligned(ops, n, x, y, i, j);
  }

  lemma TornNotAligned(ops: seq<Op>, n: nat, x: Conc, y: Conc, i: nat, j: nat)
    requires i < j < |ops| == |y.pcs| && WholeRow(ops[i], n) && WholeRow(ops[j], n)
    requires Torn(x, y, ops[i].row, i, j) && StampsOk(ops, y)
    ensures !Aligned(y.store)
  {
    hide Aligned, Drawn;
    assert OwnStamp(ops, y, i) && OwnStamp(ops, y, j);
    var row := ops[i].row;
    assert RowTimes(y.store.columns[0])[row] != RowTimes(y.store.columns[1])[row];
    NotAligned(y.store, 0, 1);
  }

  /** For whole-row inserts into two or more columns: every schedule comes to rest
      aligned if and only if no two inserts share a row id. */
  lemma AlignedIffDistinct(ops: seq<Op>, n: nat)
    requires n >= 2 && |ops| < TWO_64 && forall k :: 0 <= k < |ops| ==> WholeRow(ops[k], n)
    ensures AlwaysAligned(ops, n) <==> DistinctRows(ops)
  {
    if DistinctRows(ops) {
      forall events: seq<Event> | Quiescent(Run(ops, n, events)) ensures Aligned(Run(ops, n, events).store) {
        hide Run, Quiescent, Aligned, DistinctRows;
        AlignedIffFullWidth(ops, n, events);
      }
    } else {
      var i: nat, j: nat :| i < j < |ops| && ops[i].Insert? && ops[j].Insert? && ops[i].row == ops[j].row;
      SameRowTears(ops, n, i, j);
    }
  }
}
