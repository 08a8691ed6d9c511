// Schedules of the delta store manager (include/columnar/delta_store.h): two that
// lose an insert, and the calls as they run without interleaving.
module FlushSchedules {
  import opened Bytes
  import opened DeltaStore
  import opened FlushInterleaving
  import I = DeltaInterleaving
  import M = FlushManager

  // ---- two schedules that lose an insert

  function OneInsert(row: nat, data: seq<Byte>, threshold: nat): Setup {
    Setup([I.Insert(row, [data], 0)], 1, threshold)
  }

  /** The counter test passes, a whole insert runs, the clear and the reset follow. */
  const INSERT_AFTER_TEST: seq<Event> :=
    [StartCompaction, Compact, Compact, Step(0), Step(0), Step(0), Step(0), Compact, Compact, Compact]

  /** The insert writes, the compaction runs, the insert counts. */
  const COUNT_AFTER_RESET: seq<Event> :=
    [Step(0), Step(0), Step(0), StartCompaction, Compact, Compact, Compact, Compact, Compact, Step(0)]

  lemma RunSnoc(k: Setup, events: seq<Event>, e: Event)
    ensures Run(k, events + [e]) == Next(k, Run(k, events), e)
  {
    assert (events + [e])[..|events|] == events;
  }

  lemma {:induction false} RunFromSnoc(k: Setup, before: seq<Event>, after: seq<Event>)
    ensures Run(k, before + after) == RunFrom(k, Run(k, before), after)
    decreases |after|
  {
    hide Next;
    if after == [] {
      assert before + after == before;
    } else {
      RunSnoc(k, before, after[0]);
      RunFromSnoc(k, before + [after[0]], after[1..]);
      assert before + after == (before + [after[0]]) + after[1..];
    }
  }

  function RunFrom(k: Setup, x: System, events: seq<Event>): System
    requires Shaped(k, x)
    decreases |events|
  {
    if events == [] then x
    else
      NextShaped(k, x, events[0]);
      RunFrom(k, Next(k, x, events[0]), events[1..])
  }

  lemma RunFromCons(k: Setup, x: System, e: Event, rest: seq<Event>)
    requires Shaped(k, x) && Shaped(k, Next(k, x, e))
    ensures RunFrom(k, x, [e] + rest) == RunFrom(k, Next(k, x, e), rest)
  {
    hide Next, Shaped;
    assert ([e] + rest)[1..] == rest;
  }

  /** One store of one column and one call. */
  function Small(cell: Cell, lock: Lock, pc: Pc, wiped: set<(nat, nat)>): System {
    System([cell], 0, lock, [pc], {}, wiped, {})
  }

  predicate SmallShaped(k: Setup, cell: Cell, pc: Pc) {
    && k.columns == 1 && |k.ops| == 1 && |cell.store.columns| == |cell.held| == 1 && PcShaped(k, pc, k.ops[0], 1)
  }

  /** An idle store with nothing pending passes both tests. */
  lemma TestPasses(k: Setup, cell: Cell, pc: Pc, rest: seq<Event>)
    requires SmallShaped(k, cell, pc) && !cell.store.flushing && cell.store.pending == 0
    ensures Shaped(k, Small(cell, Free, pc, {})) && Shaped(k, Small(cell, Compacting(0, Clearing(0)), pc, {}))
    ensures RunFrom(k, Small(cell, Free, pc, {}), [StartCompaction] + ([Compact] + ([Compact] + rest)))
         == RunFrom(k, Small(cell, Compacting(0, Clearing(0)), pc, {}), rest)
  {
    hide RunFrom, Stepped, Taken, PcShaped;
    RunFromCons(k, Small(cell, Free, pc, {}), StartCompaction, [Compact] + ([Compact] + rest));
    RunFromCons(k, Small(cell, Compacting(0, AtFlag), pc, {}), Compact, [Compact] + rest);
    RunFromCons(k, Small(cell, Compacting(0, AtCount), pc, {}), Compact, rest);
  }

  /** The clear and the reset take what the store holds by then. */
  lemma ClearAndReset(k: Setup, cell: Cell, pc: Pc, rest: seq<Event>)
    requires SmallShaped(k, cell, pc) && cell.held == [{0}] && cell.owed <= {0}
    ensures var after := cell.(store := cell.store.(columns := [EMPTY], pending := 0), held := [{}], owed := {});
            var end := Small(after, Free, pc, {(0, 0)}).(uncounted := cell.owed);
            && Shaped(k, Small(cell, Compacting(0, Clearing(0)), pc, {})) && Shaped(k, end)
            && RunFrom(k, Small(cell, Compacting(0, Clearing(0)), pc, {}), [Compact] + ([Compact] + ([Compact] + rest)))
            == RunFrom(k, end, rest)
  {
    hide RunFrom, Stepped, Taken, PcShaped;
    var x := Small(cell, Compacting(0, Clearing(0)), pc, {});
    var cleared := cell.(store := cell.store.(columns := [EMPTY]), held := [{}]);
    var y := Small(cleared, Compacting(0, Clearing(1)), pc, {(0, 0)});
    assert ClearedCell(cell, 0) == cleared;
    assert Unaccounted(x, {0}, 0) == {(0, 0)};
    assert Next(k, x, Compact) == y;
    RunFromCons(k, x, Compact, [Compact] + ([Compact] + rest));
    var reset := cleared.(store := cleared.store.(pending := 0), owed := {});
    var z := Small(reset, Compacting(1, AtFlag), pc, {(0, 0)}).(uncounted := cell.owed);
    assert Next(k, y, Compact) == z;
    RunFromCons(k, y, Compact, [Compact] + rest);
    RunFromCons(k, z, Compact, rest);
  }

  function Written(row: nat, data: seq<Byte>): Cell {
    Cell(Store([ColumnDelta(map[row := Version(1, data)], map[])], 0, 1, false), Resting, [{0}], {})
  }

  lemma WrittenOnce(row: nat, data: seq<Byte>)
    ensures var stamped := FreshCell(1).(store := Empty(1).(clock := 1));
            WroteCell(stamped, I.Insert(row, [data], 0), 0, 1, 0) == Written(row, data)
  {
    var stamped := FreshCell(1).(store := Empty(1).(clock := 1));
    var w := WroteCell(stamped, I.Insert(row, [data], 0), 0, 1, 0);
    assert w.store.columns == Written(row, data).store.columns;
    assert {} + {0} == {0};
    assert w.held == [{0}];
  }

  /** The insert is given the store, draws timestamp 1 and writes its column. */
  lemma InsertWrites(row: nat, data: seq<Byte>, threshold: nat, lock: Lock, rest: seq<Event>)
    requires lock == Free || lock == Compacting(0, Clearing(0))
    ensures var k := OneInsert(row, data, threshold);
            && Shaped(k, Small(FreshCell(1), lock, Waiting, {}))
            && Shaped(k, Small(Written(row, data), lock, Writing(0, 1, 1), {}))
            && RunFrom(k, Small(FreshCell(1), lock, Waiting, {}), [Step(0)] + ([Step(0)] + ([Step(0)] + rest)))
            == RunFrom(k, Small(Written(row, data), lock, Writing(0, 1, 1), {}), rest)
  {
    hide RunFrom, Compacted, Taken;
    var k := OneInsert(row, data, threshold);
    var x := Small(FreshCell(1), lock, Waiting, {});
    var y := Small(FreshCell(1), lock, Holding(0), {});
    assert Next(k, x, Step(0)) == y;
    RunFromCons(k, x, Step(0), [Step(0)] + ([Step(0)] + rest));
    var stamped := FreshCell(1).(store := Empty(1).(clock := 1));
    var z := Small(stamped, lock, Writing(0, 1, 0), {});
    assert Next(k, y, Step(0)) == z;
    RunFromCons(k, y, Step(0), [Step(0)] + rest);
    WrittenOnce(row, data);
    assert [z.cells[0]][0 := Written(row, data)] == [Written(row, data)];
    assert Next(k, z, Step(0)) == Small(Written(row, data), lock, Writing(0, 1, 1), {});
    RunFromCons(k, z, Step(0), rest);
  }

  lemma InsertCounts(k: Setup, cell: Cell, lock: Lock, wiped: set<(nat, nat)>, rest: seq<Event>)
    requires SmallShaped(k, cell, Writing(0, 1, 1)) && (lock == Free || lock == Compacting(0, Clearing(0)))
    requires k.ops[0].Insert? && cell.store.pending == 0 && cell.owed == {}
    ensures var after := cell.(store := cell.store.(pending := 1), owed := {0});
            && Shaped(k, Small(cell, lock, Writing(0, 1, 1), wiped))
            && Shaped(k, Small(after, lock, Finished(0, 1), wiped))
            && RunFrom(k, Small(cell, lock, Writing(0, 1, 1), wiped), [Step(0)] + rest)
            == RunFrom(k, Small(after, lock, Finished(0, 1), wiped), rest)
  {
    hide RunFrom, Compacted, Taken;
    var x := Small(cell, lock, Writing(0, 1, 1), wiped);
    var after := cell.(store := cell.store.(pending := 1), owed := {0});
    assert {} + {0} == {0};
    assert CountedCell(cell, k.ops[0], 0) == after;
    assert [cell][0 := after] == [after];
    assert Next(k, x, Step(0)) == Small(after, lock, Finished(0, 1), wiped);
    RunFromCons(k, x, Step(0), rest);
  }

  /** The first schedule in its three parts. */
  lemma AfterTestParts(k: Setup)
    ensures var inserting := [Step(0)] + ([Step(0)] + ([Step(0)] + ([Step(0)] + FINISH)));
            INSERT_AFTER_TEST == [StartCompaction] + ([Compact] + ([Compact] + inserting))
  {
  }

  const FINISH: seq<Event> := [Compact] + ([Compact] + ([Compact] + []))

  lemma RunIs(k: Setup, row: nat, data: seq<Byte>, threshold: nat, events: seq<Event>)
    requires k == OneInsert(row, data, threshold)
    ensures Shaped(k, Small(FreshCell(1), Free, Waiting, {}))
    ensures Run(k, events) == RunFrom(k, Small(FreshCell(1), Free, Waiting, {}), events)
  {
    hide RunFrom;
    RunFromSnoc(k, [], events);
    assert [] + events == events;
    assert Run(k, []) == Small(FreshCell(1), Free, Waiting, {});
  }

  /** No insert was under way at the test, and the returned insert is gone from the
      store and from its counter. */
  lemma InsertAfterTestLost(row: nat, data: seq<Byte>, threshold: nat)
    ensures var x := Run(OneInsert(row, data, threshold), INSERT_AFTER_TEST);
            && x.pcs == [Finished(0, 1)] && x.accounted == {} && x.lock == Free && |x.cells| == 1
            && x.cells[0].store.columns == [EMPTY] && x.cells[0].store.pending == 0
            && x.wiped == {(0, 0)} && x.uncounted == {0}
  {
    hide Run, RunFrom, Shaped, FreshCell, INSERT_AFTER_TEST, FINISH;
    var k := OneInsert(row, data, threshold);
    RunIs(k, row, data, threshold, INSERT_AFTER_TEST);
    AfterTestParts(k);
    FreshIsIdle();
    TestPasses(k, FreshCell(1), Waiting, [Step(0)] + ([Step(0)] + ([Step(0)] + ([Step(0)] + FINISH))));
    InsertWrites(row, data, threshold, Compacting(0, Clearing(0)), [Step(0)] + FINISH);
    InsertCounts(k, Written(row, data), Compacting(0, Clearing(0)), {}, FINISH);
    var counted := Written(row, data).(store := Written(row, data).store.(pending := 1), owed := {0});
    ClearAndReset(k, counted, Finished(0, 1), []);
    FinishIs();
    NothingMore(k, Small(counted.(store := counted.store.(columns := [EMPTY], pending := 0), held := [{}], owed := {}),
                         Free, Finished(0, 1), {(0, 0)}).(uncounted := {0}));
  }

  lemma FinishIs()
    ensures FINISH == [Compact] + ([Compact] + ([Compact] + []))
  {
  }

  lemma FreshIsIdle()
    ensures !FreshCell(1).store.flushing && FreshCell(1).store.pending == 0
    ensures |FreshCell(1).store.columns| == |FreshCell(1).held| == 1
  {
  }

  lemma NothingMore(k: Setup, x: System)
    requires Shaped(k, x)
    ensures RunFrom(k, x, []) == x
  {
  }

  /** The insert was under way at the test: its column is gone, and its late count
      leaves a pending row with no data. */
  lemma CountAfterResetLost(row: nat, data: seq<Byte>, threshold: nat)
    ensures var x := Run(OneInsert(row, data, threshold), COUNT_AFTER_RESET);
            && x.pcs == [Finished(0, 1)] && x.accounted == {} && x.lock == Free && |x.cells| == 1
            && x.cells[0].store.columns == [EMPTY] && x.cells[0].store.pending == 1
            && x.wiped == {(0, 0)} && x.uncounted == {}
  {
    hide Run, RunFrom, Shaped, FreshCell, COUNT_AFTER_RESET;
    var k := OneInsert(row, data, threshold);
    var count := [Step(0)] + [];
    var clearing := [Compact] + ([Compact] + ([Compact] + count));
    var compacting := [StartCompaction] + ([Compact] + ([Compact] + clearing));
    RunIs(k, row, data, threshold, COUNT_AFTER_RESET);
    AfterResetParts();
    InsertWrites(row, data, threshold, Free, compacting);
    TestPasses(k, Written(row, data), Writing(0, 1, 1), clearing);
    ClearAndReset(k, Written(row, data), Writing(0, 1, 1), count);
    var empty := Cell(Store([EMPTY], 0, 1, false), Resting, [{}], {});
    InsertCounts(k, empty, Free, {(0, 0)}, []);
    NothingMore(k, Small(empty.(store := empty.store.(pending := 1), owed := {0}), Free, Finished(0, 1), {(0, 0)}));
  }

  lemma AfterResetParts()
    ensures var clearing := [Compact] + ([Compact] + ([Compact] + ([Step(0)] + [])));
            var compacting := [StartCompaction] + ([Compact] + ([Compact] + clearing));
            COUNT_AFTER_RESET == [Step(0)] + ([Step(0)] + ([Step(0)] + compacting))
  {
  }

  // ---- calls that are not interleaved

  /** What the manager is without the bookkeeping. */
  function Stores(x: System): (r: seq<Store>)
    ensures |r| == |x.cells| && forall s :: 0 <= s < |r| ==> r[s] == x.cells[s].store
  {
    seq(|x.cells|, s requires 0 <= s < |x.cells| => x.cells[s].store)
  }

  /** GetStoreForFlush: the switch and the mark together. */
  lemma SerialTake(k: Setup, x: System)
    requires Shaped(k, x) && x.lock == Free && AllResting(x) && x.cells[x.active].store.pending >= k.threshold
    ensures Shaped(k, Taken(k, x))
    ensures var y := Marked(k, Taken(k, x));
            M.Manager(Stores(y), y.active) == M.Taken(M.Manager(Stores(x), x.active), k.columns)
  {
    NextShaped(k, x, Take);
    var y := Marked(k, Taken(k, x));
    var m := M.WithSecond(M.Manager(Stores(x), x.active), k.columns);
    assert |Stores(y)| == |m.stores|;
    assert Stores(y) == m.stores[x.active := m.stores[x.active].(flushing := true)];
  }

  /** FinishFlush: the subtraction and the flag together. */
  lemma SerialFinish(k: Setup, x: System, s: nat)
    requires Shaped(k, x) && s < |x.cells| && x.cells[s].flush.Reported?
    ensures Shaped(k, Subtracting(k, x, s))
    ensures Stores(Lowered(k, Subtracting(k, x, s), s))
         == Stores(x)[s := M.FlushEnded(Stores(x)[s], x.cells[s].flush.count)]
  {
    NextShaped(k, x, Subtract(s));
  }

  function Repeat(k: Setup, x: System, m: nat): (y: System)
    requires Shaped(k, x)
    ensures Shaped(k, y)
    decreases m
  {
    if m == 0 then x
    else
      NextShaped(k, x, Compact);
      Repeat(k, Compacted(k, x), m - 1)
  }

  lemma {:induction false} RepeatAdd(k: Setup, x: System, a: nat, b: nat)
    requires Shaped(k, x)
    ensures Repeat(k, x, a + b) == Repeat(k, Repeat(k, x, a), b)
    decreases a
  {
    if a > 0 {
      NextShaped(k, x, Compact);
      hide Compacted, Shaped;
      RepeatAdd(k, Compacted(k, x), a - 1, b);
    }
  }

  /** Compaction's steps on store s from its columns on. */
  ghost predicate CompactedTo(k: Setup, x: System, y: System, s: nat, store: Store)
    requires s < |x.cells|
  {
    y.lock == Compacting(s + 1, AtFlag) && Stores(y) == Stores(x)[s := store]
  }

  lemma {:induction false} SerialClear(k: Setup, x: System, s: nat, c: nat)
    requires Shaped(k, x) && s < |x.cells| && c <= k.columns && x.lock == Compacting(s, Clearing(c))
    requires forall d :: 0 <= d < c ==> x.cells[s].store.columns[d] == EMPTY
    ensures CompactedTo(k, x, Repeat(k, x, k.columns - c + 1), s, Cleared(x.cells[s].store))
    decreases k.columns - c
  {
    NextShaped(k, x, Compact);
    var y := Compacted(k, x);
    assert Repeat(k, x, k.columns - c + 1) == Repeat(k, y, k.columns - c);
    if c < k.columns {
      SerialClear(k, y, s, c + 1);
      hide Repeat;
      assert Cleared(y.cells[s].store) == Cleared(x.cells[s].store);
      assert Stores(y) == Stores(x)[s := y.cells[s].store];
    } else {
      assert x.cells[s].store.columns == Cleared(x.cells[s].store).columns;
      assert Stores(y) == Stores(x)[s := Cleared(x.cells[s].store)];
    }
  }

  function CompactSteps(k: Setup, store: Store): nat {
    if store.flushing then 1 else if store.pending != 0 then 2 else 3 + k.columns
  }

  lemma SerialStore(k: Setup, x: System, s: nat)
    requires Shaped(k, x) && s < |x.cells| && x.lock == Compacting(s, AtFlag)
    ensures var store := x.cells[s].store;
            CompactedTo(k, x, Repeat(k, x, CompactSteps(k, store)), s,
                        if M.Clearable(store) then Cleared(store) else store)
  {
    var store := x.cells[s].store;
    NextShaped(k, x, Compact);
    var y := Compacted(k, x);
    assert Repeat(k, x, CompactSteps(k, store)) == Repeat(k, y, CompactSteps(k, store) - 1);
    assert Stores(y) == Stores(x);
    if store.flushing {
      assert Stores(x)[s := store] == Stores(x);
    } else {
      NextShaped(k, y, Compact);
      var z := Compacted(k, y);
      assert Repeat(k, y, CompactSteps(k, store) - 1) == Repeat(k, z, CompactSteps(k, store) - 2);
      assert Stores(z) == Stores(x);
      if store.pending == 0 {
        SerialClear(k, z, s, 0);
      } else {
        assert Stores(x)[s := store] == Stores(x);
      }
    }
  }

  /** A compaction that nothing interleaves with is CompactStores. */
  lemma {:induction false} SerialCompaction(k: Setup, x: System, s: nat)
    requires Shaped(k, x) && s <= |x.cells| && x.lock == Compacting(s, AtFlag)
    requires forall t :: 0 <= t < s ==> !M.Clearable(x.cells[t].store) || Cleared(x.cells[t].store) == x.cells[t].store
    ensures exists m: nat :: Repeat(k, x, m).lock == Free && Stores(Repeat(k, x, m)) == M.Compacted(Stores(x))
    decreases |x.cells| - s
  {
    if s == |x.cells| {
      NextShaped(k, x, Compact);
      assert Repeat(k, x, 1) == Repeat(k, Compacted(k, x), 0);
      assert Stores(x) == M.Compacted(Stores(x));
      assert Stores(Repeat(k, x, 1)) == Stores(x);
    } else {
      var a := CompactSteps(k, x.cells[s].store);
      SerialStore(k, x, s);
      var y := Repeat(k, x, a);
      hide Repeat;
      var store := if M.Clearable(x.cells[s].store) then Cleared(x.cells[s].store) else x.cells[s].store;
      StoresAfter(x, y, s, store);
      SerialCompaction(k, y, s + 1);
      var b: nat :| Repeat(k, y, b).lock == Free && Stores(Repeat(k, y, b)) == M.Compacted(Stores(y));
      RepeatAdd(k, x, a, b);
      assert M.Compacted(Stores(y)) == M.Compacted(Stores(x));
    }
  }

  lemma StoresAfter(x: System, y: System, s: nat, store: Store)
    requires s < |x.cells| && Stores(y) == Stores(x)[s := store]
    ensures |y.cells| == |x.cells| && y.cells[s].store == store
    ensures forall t :: 0 <= t < |x.cells| && t != s ==> y.cells[t].store == x.cells[t].store
  {
    assert forall t :: 0 <= t < |Stores(y)| ==> Stores(y)[t] == y.cells[t].store;
  }
}
