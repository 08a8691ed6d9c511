// What a compaction discards when it runs between the steps of writers and the
// flusher (include/columnar/delta_store.h, CompactStores).
module CompactionLoss {
  import opened Types
  import opened DeltaStore
  import opened FlushInterleaving
  import I = DeltaInterleaving

  // ---- what compaction loses

  /** The step that a compaction does not survive without loss: its counter test
      passes while an insert into the store has written a column and not counted,
      or, between the test and the reset, an insert into the store writes a column
      still to be cleared or counts. */
  ghost predicate Conflict(k: Setup, x: System, e: Event)
    requires Shaped(k, x)
  {
    match e
    case Compact =>
      && x.lock.Compacting? && x.lock.stage == AtCount && x.cells[x.lock.store].store.pending == 0
      && exists u :: 0 <= u < |k.ops| && UnderWay(k, x, x.lock.store, u)
    case Step(u) =>
      && u < |k.ops| && k.ops[u].Insert? && x.pcs[u].Writing?
      && x.lock.Compacting? && x.lock.stage.Clearing? && x.lock.store == x.pcs[u].store
      && (I.Reaches(k.ops[u], k.columns, x.pcs[u].next) ==> x.pcs[u].next >= x.lock.stage.column)
    case _ => false
  }

  /** Insert u is between its first column write and its count on store s. */
  predicate UnderWay(k: Setup, x: System, s: nat, u: nat)
    requires u < |k.ops| == |x.pcs|
  {
    k.ops[u].Insert? && x.pcs[u].Writing? && x.pcs[u].store == s && x.pcs[u].next > 0
  }

  ghost predicate NothingLost(x: System) { x.wiped == {} && x.uncounted == {} }

  /** What is still to be cleared or reset holds only accounted inserts. */
  ghost predicate RestAccounted(k: Setup, x: System)
    requires Shaped(k, x)
  {
    x.lock.Compacting? && x.lock.stage.Clearing? ==>
      && x.cells[x.lock.store].owed == {}
      && forall c, u :: x.lock.stage.column <= c < k.columns && u in x.cells[x.lock.store].held[c] ==> u in x.accounted
  }

  /** Something still to be cleared or reset is not accounted for. */
  ghost predicate Doomed(k: Setup, x: System)
    requires Shaped(k, x)
  {
    && x.lock.Compacting? && x.lock.stage.Clearing?
    && (x.cells[x.lock.store].owed != {}
        || exists c, u ::
             x.lock.stage.column <= c < k.columns && u in x.cells[x.lock.store].held[c] && u !in x.accounted)
  }

  // -- no conflict, no loss

  /** When the test passes with no insert under way, everything held is accounted. */
  lemma QuietTest(k: Setup, x: System, s: nat)
    requires Shaped(k, x) && Books(k, x) && NothingLost(x) && s < |x.cells| && x.cells[s].store.pending == 0
    requires forall u :: 0 <= u < |k.ops| ==> !UnderWay(k, x, s, u)
    ensures x.cells[s].owed == {}
    ensures forall c, u :: 0 <= c < k.columns && u in x.cells[s].held[c] ==> u in x.accounted
  {
    assert OwedOk(k, x, s) && HeldOk(k, x, s);
    forall c, u | 0 <= c < k.columns && u in x.cells[s].held[c] ensures u in x.accounted {
      assert Wrote(k, x.pcs, s, c, u);
      assert !UnderWay(k, x, s, u);
      assert Counted(k, x.pcs, s, u);
    }
  }

  lemma SafeCompact(k: Setup, x: System)
    requires Shaped(k, x) && Books(k, x) && NothingLost(x) && RestAccounted(k, x) && !Conflict(k, x, Compact)
    ensures Shaped(k, Compacted(k, x)) && NothingLost(Compacted(k, x)) && RestAccounted(k, Compacted(k, x))
  {
    NextShaped(k, x, Compact);
    hide Books, Wrote, Counted, Stepped, Taken;
    if x.lock.Compacting? && x.lock.stage == AtCount && x.cells[x.lock.store].store.pending == 0 {
      QuietTest(k, x, x.lock.store);
    }
  }

  lemma SafeStep(k: Setup, x: System, u: nat)
    requires Shaped(k, x) && u < |k.ops| && NothingLost(x) && RestAccounted(k, x) && !Conflict(k, x, Step(u))
    ensures Shaped(k, Stepped(k, x, u)) && NothingLost(Stepped(k, x, u)) && RestAccounted(k, Stepped(k, x, u))
  {
    SteppedShaped(k, x, u);
  }

  lemma SafeNext(k: Setup, x: System, e: Event)
    requires Shaped(k, x) && Books(k, x) && NothingLost(x) && RestAccounted(k, x) && !Conflict(k, x, e)
    ensures Shaped(k, Next(k, x, e)) && NothingLost(Next(k, x, e)) && RestAccounted(k, Next(k, x, e))
  {
    NextShaped(k, x, e);
    hide Stepped, Compacted;
    match e
    case Step(u) => if u < |k.ops| { SafeStep(k, x, u); }
    case Compact => SafeCompact(k, x);
    case Subtract(s) => if s < |x.cells| { assert OwedOk(k, x, s) && ReportOk(x, s); }
    case _ =>
  }

  // -- a conflict is a loss, once compaction is through

  lemma ConflictDooms(k: Setup, x: System, e: Event)
    requires Shaped(k, x) && Books(k, x) && Conflict(k, x, e)
    ensures Shaped(k, Next(k, x, e))
    ensures !NothingLost(Next(k, x, e)) || Doomed(k, Next(k, x, e))
  {
    NextShaped(k, x, e);
    match e
    case Compact => TestDooms(k, x);
    case Step(u) => StepDooms(k, x, u);
  }

  lemma TestDooms(k: Setup, x: System)
    requires Shaped(k, x) && Books(k, x) && Conflict(k, x, Compact) && Shaped(k, Compacted(k, x))
    ensures !NothingLost(Compacted(k, x)) || Doomed(k, Compacted(k, x))
  {
    var s := x.lock.store;
    var u :| 0 <= u < |k.ops| && UnderWay(k, x, s, u);
    hide Stepped, Taken;
    FirstColumnWritten(k, x, s, u);
    assert u in x.cells[s].held[0] || (u, 0) in x.wiped || u in x.accounted;
    assert u !in x.accounted;
  }

  /** A call past its first column wrote column 0. */
  lemma FirstColumnWritten(k: Setup, x: System, s: nat, u: nat)
    requires Shaped(k, x) && Books(k, x) && u < |k.ops| && UnderWay(k, x, s, u)
    ensures k.columns > 0 && Wrote(k, x.pcs, s, 0, u)
  {
    assert PcShaped(k, x.pcs[u], k.ops[u], |x.cells|);
  }

  lemma StepDooms(k: Setup, x: System, u: nat)
    requires Shaped(k, x) && Books(k, x) && Conflict(k, x, Step(u)) && Shaped(k, Stepped(k, x, u))
    ensures Doomed(k, Stepped(k, x, u))
  {
    var y, s, c := Stepped(k, x, u), x.pcs[u].store, x.pcs[u].next;
    assert u !in x.accounted;
    if I.Reaches(k.ops[u], k.columns, c) {
      assert u in y.cells[s].held[c];
    } else {
      assert u in y.cells[s].owed;
    }
  }

  lemma DoomedCompact(k: Setup, x: System)
    requires Shaped(k, x) && Books(k, x) && (!NothingLost(x) || Doomed(k, x)) && Shaped(k, Compacted(k, x))
    ensures !NothingLost(Compacted(k, x)) || Doomed(k, Compacted(k, x))
  {
    hide Stepped, Taken, Wrote, Counted;
    var y := Compacted(k, x);
    if NothingLost(x) {
      var s, c := x.lock.store, x.lock.stage.column;
      assert OwedOk(k, x, s);
      if x.cells[s].owed == {} {
        var d, u :| c <= d < k.columns && u in x.cells[s].held[d] && u !in x.accounted;
        if d == c { assert (u, c) in y.wiped; } else { assert u in y.cells[s].held[d]; }
      } else if c >= k.columns {
        var u :| u in x.cells[s].owed;
        assert u in y.uncounted;
      }
    }
  }

  lemma DoomedStep(k: Setup, x: System, v: nat)
    requires Shaped(k, x) && v < |k.ops| && (!NothingLost(x) || Doomed(k, x)) && Shaped(k, Stepped(k, x, v))
    ensures !NothingLost(Stepped(k, x, v)) || Doomed(k, Stepped(k, x, v))
  {
    var y := Stepped(k, x, v);
    SteppedGrows(k, x, v);
    hide Stepped;
    if NothingLost(x) && x.cells[x.lock.store].owed == {} {
      var d, u :| x.lock.stage.column <= d < k.columns && u in x.cells[x.lock.store].held[d] && u !in x.accounted;
      assert u in y.cells[x.lock.store].held[d];
    }
  }

  lemma SteppedGrows(k: Setup, x: System, v: nat)
    requires Shaped(k, x) && v < |k.ops|
    ensures var y := Stepped(k, x, v);
            && y.lock == x.lock && |y.cells| == |x.cells|
            && (y.accounted, y.wiped, y.uncounted) == (x.accounted, x.wiped, x.uncounted)
            && forall s :: 0 <= s < |x.cells| ==> Grows(x.cells[s], y.cells[s])
  {
  }

  predicate Grows(a: Cell, b: Cell) {
    a.owed <= b.owed && |a.held| == |b.held| && forall c :: 0 <= c < |a.held| ==> a.held[c] <= b.held[c]
  }

  /** Accounting happens on flushed stores only, never on the one being cleared. */
  lemma DoomedSubtract(k: Setup, x: System, s: nat)
    requires Shaped(k, x) && Books(k, x) && FlushOk(k, x) && (!NothingLost(x) || Doomed(k, x))
    requires Shaped(k, Subtracting(k, x, s))
    ensures !NothingLost(Subtracting(k, x, s)) || Doomed(k, Subtracting(k, x, s))
  {
    hide Stepped, Taken;
    var y := Subtracting(k, x, s);
    if NothingLost(x) && s < |x.cells| && x.cells[s].flush.Reported? {
      var i := x.lock.store;
      assert i != s;
      assert OwedOk(k, x, s) && ReportOk(x, s) && HeldOk(k, x, i);
      if x.cells[i].owed == {} {
        var d, u :| x.lock.stage.column <= d < k.columns && u in x.cells[i].held[d] && u !in x.accounted;
        assert Wrote(k, x.pcs, i, d, u);
        assert u !in x.cells[s].owed;
      }
    }
  }

  lemma DoomedNext(k: Setup, x: System, e: Event)
    requires Shaped(k, x) && Books(k, x) && FlushOk(k, x) && (!NothingLost(x) || Doomed(k, x))
    ensures Shaped(k, Next(k, x, e))
    ensures !NothingLost(Next(k, x, e)) || Doomed(k, Next(k, x, e))
  {
    NextShaped(k, x, e);
    hide Stepped, Compacted, Subtracting, Books;
    match e
    case Step(u) => if u < |k.ops| { DoomedStep(k, x, u); }
    case Compact => DoomedCompact(k, x);
    case Subtract(s) => DoomedSubtract(k, x, s);
    case _ => DoomedOther(k, x, e);
  }

  lemma DoomedOther(k: Setup, x: System, e: Event)
    requires Shaped(k, x) && (!NothingLost(x) || Doomed(k, x)) && Shaped(k, Next(k, x, e))
    requires !e.Step? && !e.Compact? && !e.Subtract?
    ensures !NothingLost(Next(k, x, e)) || Doomed(k, Next(k, x, e))
  {
    hide Stepped, Compacted, Subtracting;
    var y := Next(k, x, e);
    if NothingLost(x) {
      var i := x.lock.store;
      assert y.lock == x.lock && y.cells[i].owed == x.cells[i].owed && y.cells[i].held == x.cells[i].held;
      if x.cells[i].owed == {} {
        var d, u :| x.lock.stage.column <= d < k.columns && u in x.cells[i].held[d] && u !in x.accounted;
        assert u in y.cells[i].held[d];
      }
    }
  }

  // -- over whole runs

  /** Some event of the run conflicts with a compaction. */
  ghost predicate Conflicts(k: Setup, events: seq<Event>) {
    exists i :: 0 <= i < |events| && Conflict(k, Run(k, events[..i]), events[i])
  }

  lemma {:induction false} ConflictsSnoc(k: Setup, events: seq<Event>)
    requires events != []
    ensures var n := |events| - 1;
            Conflicts(k, events) <==> Conflicts(k, events[..n]) || Conflict(k, Run(k, events[..n]), events[n])
  {
    hide Conflict, Run;
    var n := |events| - 1;
    if Conflicts(k, events) {
      var i :| 0 <= i < |events| && Conflict(k, Run(k, events[..i]), events[i]);
      if i < n { assert events[..n][..i] == events[..i] && events[..n][i] == events[i]; }
    }
    if Conflicts(k, events[..n]) {
      var i :| 0 <= i < n && Conflict(k, Run(k, events[..n][..i]), events[..n][i]);
      assert events[..n][..i] == events[..i] && events[..n][i] == events[i];
    }
  }

  lemma {:induction false} RunLosses(k: Setup, events: seq<Event>)
    requires |k.ops| < TWO_64
    ensures var x := Run(k, events);
            if Conflicts(k, events) then !NothingLost(x) || Doomed(k, x) else NothingLost(x) && RestAccounted(k, x)
  {
    if events == [] {
      assert !Conflicts(k, events);
    } else {
      var n := |events| - 1;
      RunLosses(k, events[..n]);
      RunInv(k, events[..n]);
      ConflictsSnoc(k, events);
      hide Conflicts, Conflict, NothingLost, Doomed, RestAccounted, Next, Books, FlushOk;
      var x := Run(k, events[..n]);
      if Conflicts(k, events[..n]) {
        DoomedNext(k, x, events[n]);
      } else if Conflict(k, x, events[n]) {
        ConflictDooms(k, x, events[n]);
      } else {
        SafeNext(k, x, events[n]);
      }
    }
  }

  /** Compaction discards only what finished flushes accounted for if and only if
      no event conflicts with it: over every run in which no compaction is left
      half way, nothing is wiped or uncounted exactly when at each passed counter
      test no insert into that store was under way, and before each reset none
      wrote a column still to be cleared or counted. */
  lemma NothingLostIff(k: Setup, events: seq<Event>)
    requires |k.ops| < TWO_64 && !(Run(k, events).lock.Compacting? && Run(k, events).lock.stage.Clearing?)
    ensures NothingLost(Run(k, events)) <==> !Conflicts(k, events)
  {
    hide Run, Conflicts, NothingLost;
    RunLosses(k, events);
  }

  // ---- what that means for the stored rows

  /** A row is in column c of the store exactly when some insert of it is held. */
  ghost predicate RowsHeld(k: Setup, cell: Cell) {
    && CellShaped(k, cell)
    && forall c, row :: 0 <= c < k.columns ==>
        (row in cell.store.columns[c].inserts <==> SomeHeld(k, cell.held[c], row))
  }

  ghost predicate SomeHeld(k: Setup, held: set<nat>, row: nat) {
    exists u: nat :: u in held && u < |k.ops| && k.ops[u].row == row
  }

  /** A wiped column was written and no longer holds the insert. */
  ghost predicate WipedOk(k: Setup, x: System)
    requires Shaped(k, x)
  {
    forall u, c :: (u, c) in x.wiped ==>
      && u < |k.ops| && !x.pcs[u].Waiting? && Wrote(k, x.pcs, x.pcs[u].store, c, u)
      && u !in x.cells[x.pcs[u].store].held[c]
  }

  ghost predicate Contents(k: Setup, x: System)
    requires Shaped(k, x)
  {
    (forall s :: 0 <= s < |x.cells| ==> RowsHeld(k, x.cells[s])) && WipedOk(k, x)
  }

  lemma WroteRows(k: Setup, cell: Cell, u: nat, ts: nat, c: nat)
    requires RowsHeld(k, cell) && u < |k.ops| && I.Reaches(k.ops[u], k.columns, c)
    ensures RowsHeld(k, WroteCell(cell, k.ops[u], u, ts, c))
  {
    var after := WroteCell(cell, k.ops[u], u, ts, c);
    forall d, row | 0 <= d < k.columns
      ensures row in after.store.columns[d].inserts <==> SomeHeld(k, after.held[d], row)
    {
      assert row in cell.store.columns[d].inserts <==> SomeHeld(k, cell.held[d], row);
      if SomeHeld(k, cell.held[d], row) {
        var v: nat :| v in cell.held[d] && v < |k.ops| && k.ops[v].row == row;
        assert v in after.held[d];
      }
      if k.ops[u].Insert? && d == c && row == k.ops[u].row { assert u in after.held[d]; }
    }
  }

  lemma ClearedRows(k: Setup, cell: Cell, c: nat)
    requires RowsHeld(k, cell) && c < k.columns
    ensures RowsHeld(k, ClearedCell(cell, c))
  {
    hide SomeHeld;
    var after := ClearedCell(cell, c);
    forall d, row | 0 <= d < k.columns
      ensures row in after.store.columns[d].inserts <==> SomeHeld(k, after.held[d], row)
    {
      assert row in cell.store.columns[d].inserts <==> SomeHeld(k, cell.held[d], row);
      NoneHeld(k, row);
    }
  }

  lemma NoneHeld(k: Setup, row: nat)
    ensures !SomeHeld(k, {}, row)
  {
  }

  lemma StepContents(k: Setup, x: System, u: nat)
    requires Shaped(k, x) && Contents(k, x) && u < |k.ops|
    ensures Shaped(k, Stepped(k, x, u)) && Contents(k, Stepped(k, x, u))
  {
    SteppedShaped(k, x, u);
    var y := Stepped(k, x, u);
    var p := x.pcs[u];
    if p.Writing? && I.Reaches(k.ops[u], k.columns, p.next) {
      assert RowsHeld(k, x.cells[p.store]);
      WroteRows(k, x.cells[p.store], u, p.ts, p.next);
      hide RowsHeld;
    } else {
      hide SomeHeld;
      forall s | 0 <= s < |y.cells| ensures RowsHeld(k, y.cells[s]) { assert RowsHeld(k, x.cells[s]); }
    }
  }

  lemma CompactContents(k: Setup, x: System)
    requires Shaped(k, x) && Contents(k, x) && Books(k, x)
    ensures Shaped(k, Compacted(k, x)) && Contents(k, Compacted(k, x))
  {
    NextShaped(k, x, Compact);
    hide SomeHeld;
    var y := Compacted(k, x);
    if x.lock.Compacting? && x.lock.stage.Clearing? && x.lock.stage.column < k.columns {
      var s, c := x.lock.store, x.lock.stage.column;
      assert RowsHeld(k, x.cells[s]) && HeldOk(k, x, s);
      ClearedRows(k, x.cells[s], c);
      hide RowsHeld;
    } else {
      forall s | 0 <= s < |y.cells| ensures RowsHeld(k, y.cells[s]) { assert RowsHeld(k, x.cells[s]); }
    }
  }

  lemma FreshContents(k: Setup)
    ensures RowsHeld(k, FreshCell(k.columns))
  {
  }

  lemma OtherContents(k: Setup, x: System, e: Event)
    requires Shaped(k, x) && Contents(k, x) && !e.Step? && !e.Compact?
    ensures Shaped(k, Next(k, x, e)) && Contents(k, Next(k, x, e))
  {
    NextShaped(k, x, e);
    FreshContents(k);
    hide SomeHeld, Wrote, Stepped, Compacted, FreshCell;
    var y := Next(k, x, e);
    forall s | 0 <= s < |y.cells| ensures RowsHeld(k, y.cells[s]) {
      if s < |x.cells| { assert RowsHeld(k, x.cells[s]); }
    }
  }

  lemma {:induction false} RunContents(k: Setup, events: seq<Event>)
    requires |k.ops| < TWO_64
    ensures Contents(k, Run(k, events))
  {
    if events == [] {
      FreshContents(k);
    } else {
      var n := |events| - 1;
      RunContents(k, events[..n]);
      RunInv(k, events[..n]);
      hide Contents, Books, FlushOk, Stepped, Compacted;
      var x, e := Run(k, events[..n]), events[n];
      match e
      case Step(u) => if u < |k.ops| { StepContents(k, x, u); }
      case Compact => CompactContents(k, x);
      case _ => OtherContents(k, x, e);
    }
  }

  lemma ColumnKept(k: Setup, x: System, s: nat, c: nat, u: nat)
    requires Shaped(k, x) && Books(k, x) && Contents(k, x) && x.wiped == {}
    requires s < |x.cells| && u !in x.accounted && Wrote(k, x.pcs, s, c, u)
    ensures c < |x.cells[s].store.columns| && k.ops[u].row in x.cells[s].store.columns[c].inserts
  {
    hide Past, OwedOk, HeldOk, ReportOk;
    assert RowsHeld(k, x.cells[s]);
    assert u in x.cells[s].held[c];
    assert SomeHeld(k, x.cells[s].held[c], k.ops[u].row);
  }

  lemma CountKept(k: Setup, x: System, s: nat, u: nat)
    requires Shaped(k, x) && Books(k, x) && x.uncounted == {}
    requires s < |x.cells| && u !in x.accounted && Counted(k, x.pcs, s, u)
    ensures u in x.cells[s].owed && x.cells[s].store.pending == |x.cells[s].owed|
  {
    hide Wrote, HeldOk, ReportOk;
    assert OwedOk(k, x, s);
  }

  /** In a run without conflicts, every column an insert has written is in its
      store, and every insert that counted is in its pending count, until a
      finished flush has accounted for the insert. */
  lemma InsertsKept(k: Setup, events: seq<Event>, s: nat, u: nat)
    requires |k.ops| < TWO_64 && !Conflicts(k, events) && s < |Run(k, events).cells| && u !in Run(k, events).accounted
    ensures var x := Run(k, events);
            && (forall c: nat :: Wrote(k, x.pcs, s, c, u) ==>
                  c < |x.cells[s].store.columns| && k.ops[u].row in x.cells[s].store.columns[c].inserts)
            && (Counted(k, x.pcs, s, u) ==> u in x.cells[s].owed && x.cells[s].store.pending == |x.cells[s].owed|)
  {
    RunInv(k, events);
    RunLosses(k, events);
    RunContents(k, events);
    hide Run, Conflicts, Books, Contents, Wrote, Counted, FlushOk, RestAccounted;
    var x := Run(k, events);
    forall c: nat | Wrote(k, x.pcs, s, c, u)
      ensures c < |x.cells[s].store.columns| && k.ops[u].row in x.cells[s].store.columns[c].inserts
    {
      ColumnKept(k, x, s, c, u);
    }
    if Counted(k, x.pcs, s, u) { CountKept(k, x, s, u); }
  }

  lemma WipedGone(k: Setup, x: System, u: nat, c: nat)
    requires Shaped(k, x) && Books(k, x) && Contents(k, x) && I.DistinctRows(k.ops) && (u, c) in x.wiped
    ensures u < |k.ops| && !x.pcs[u].Waiting? && Wrote(k, x.pcs, x.pcs[u].store, c, u)
    ensures k.ops[u].row !in x.cells[x.pcs[u].store].store.columns[c].inserts
  {
    hide Past, OwedOk, ReportOk;
    var s := x.pcs[u].store;
    assert RowsHeld(k, x.cells[s]) && HeldOk(k, x, s);
    forall v: nat | v in x.cells[s].held[c] && v < |k.ops| ensures k.ops[v].row != k.ops[u].row {
      assert Wrote(k, x.pcs, s, c, v);
    }
  }

  /** A wiped column is gone: with distinct row ids, the row is not in it. */
  lemma WipedRowsGone(k: Setup, events: seq<Event>, u: nat, c: nat)
    requires |k.ops| < TWO_64 && I.DistinctRows(k.ops) && (u, c) in Run(k, events).wiped
    ensures var x := Run(k, events);
            && u < |k.ops| && !x.pcs[u].Waiting? && Wrote(k, x.pcs, x.pcs[u].store, c, u)
            && k.ops[u].row !in x.cells[x.pcs[u].store].store.columns[c].inserts
  {
    RunInv(k, events);
    RunContents(k, events);
    hide Run, Books, Contents, I.DistinctRows, Wrote, FlushOk;
    WipedGone(k, Run(k, events), u, c);
  }
}
