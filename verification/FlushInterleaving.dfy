// Double-buffered flushing under interleaving (include/columnar/delta_store.h):
// writers hold the store they were given, write it column by column and count
// last; the flusher and the compaction, which test and clear in separate steps,
// run between any of these.
module FlushInterleaving {
  import opened Types
  import opened DeltaStore
  import I = DeltaInterleaving

  /** The calls that will run, the number of columns and the flush threshold. */
  datatype Setup = Setup(ops: seq<I.Op>, columns: nat, threshold: nat)

  /** A call: not begun, given a store, writing it, or returned. */
  datatype Pc = Waiting | Holding(store: nat) | Writing(store: nat, ts: nat, next: nat) | Finished(store: nat, ts: nat)

  /** The flusher of a store: reads the pending count, then EndFlush subtracts it,
      then lowers the flag. `rows` are the inserts that make up the count. */
  datatype Flush = Resting | Running | Reported(count: nat, rows: set<nat>) | Subtracted

  /** A store with its bookkeeping: which inserts each column holds since it was
      last cleared, and which inserts the pending counter stands for. */
  datatype Cell = Cell(store: Store, flush: Flush, held: seq<set<nat>>, owed: set<nat>)

  datatype Stage = AtFlag | AtCount | Clearing(column: nat)

  /** Who holds the manager's mutex. */
  datatype Lock = Free | Marking(store: nat) | Compacting(store: nat, stage: Stage)

  /** `accounted`: inserts that a finished flush subtracted. `wiped`: an insert and
      a column of it that compaction cleared before that. `uncounted`: inserts
      whose count compaction reset before that. */
  datatype System = System(cells: seq<Cell>, active: nat, lock: Lock, pcs: seq<Pc>,
                           accounted: set<nat>, wiped: set<(nat, nat)>, uncounted: set<nat>)

  datatype Event =
    | Step(op: nat)
    | Take | Mark
    | Report(store: nat) | Subtract(store: nat) | Lower(store: nat)
    | StartCompaction | Compact

  function FreshCell(n: nat): Cell { Cell(Empty(n), Resting, seq(n, _ => {}), {}) }

  function Start(k: Setup): System {
    System([FreshCell(k.columns)], 0, Free, seq(|k.ops|, _ => Waiting), {}, {}, {})
  }

  predicate Shaped(k: Setup, x: System) {
    && 1 <= |x.cells| <= 2 && x.active < |x.cells| && |x.pcs| == |k.ops|
    && (forall s :: 0 <= s < |x.cells| ==> CellShaped(k, x.cells[s]))
    && (forall u :: 0 <= u < |x.pcs| ==> PcShaped(k, x.pcs[u], k.ops[u], |x.cells|))
    && LockShaped(k, x)
  }

  predicate PcShaped(k: Setup, pc: Pc, op: I.Op, stores: nat) {
    && (!pc.Waiting? ==> pc.store < stores)
    && (pc.Writing? && pc.next > 0 ==> I.Reaches(op, k.columns, pc.next - 1))
  }

  predicate CellShaped(k: Setup, cell: Cell) { |cell.store.columns| == |cell.held| == k.columns }

  predicate LockShaped(k: Setup, x: System) {
    match x.lock
    case Free => true
    case Marking(s) => s < |x.cells|
    case Compacting(s, stage) =>
      && (stage != AtFlag ==> s < |x.cells|)
      && (stage.Clearing? ==> stage.column <= k.columns)
  }

  function SetCell(x: System, s: nat, cell: Cell): System
    requires s < |x.cells|
  {
    x.(cells := x.cells[s := cell])
  }

  // ---- a call's steps

  function WroteCell(cell: Cell, op: I.Op, u: nat, ts: nat, c: nat): Cell
    requires c < |cell.store.columns| == |cell.held| && (op.Insert? ==> c < |op.data|)
  {
    var columns := cell.store.columns;
    cell.(store := cell.store.(columns := columns[c := I.WrittenColumn(columns[c], op, ts, c)]),
          held := if op.Insert? then cell.held[c := cell.held[c] + {u}] else cell.held)
  }

  function CountedCell(cell: Cell, op: I.Op, u: nat): Cell {
    if op.Insert? then cell.(store := cell.store.(pending := Add64(cell.store.pending, 1)), owed := cell.owed + {u})
    else cell
  }

  /** CurrentStore, the timestamp, one column, or the counter. */
  function Stepped(k: Setup, x: System, u: nat): System
    requires Shaped(k, x) && u < |k.ops|
  {
    var op := k.ops[u];
    match x.pcs[u]
    case Waiting => x.(pcs := x.pcs[u := Holding(x.active)])
    case Holding(s) =>
      var cell := x.cells[s];
      var clocked := cell.store.(clock := ClockAfter(cell.store, op.ts));
      SetCell(x, s, cell.(store := clocked)).(pcs := x.pcs[u := Writing(s, StampOf(cell.store, op.ts), 0)])
    case Writing(s, ts, c) =>
      if I.Reaches(op, k.columns, c) then
        SetCell(x, s, WroteCell(x.cells[s], op, u, ts, c)).(pcs := x.pcs[u := Writing(s, ts, c + 1)])
      else
        SetCell(x, s, CountedCell(x.cells[s], op, u)).(pcs := x.pcs[u := Finished(s, ts)])
    case Finished(_, _) => x
  }

  // ---- the flusher's steps

  predicate AllResting(x: System) { forall s :: 0 <= s < |x.cells| ==> x.cells[s].flush == Resting }

  /** GetStoreForFlush up to the switch of the active store, with one flush
      outstanding at a time. */
  function Taken(k: Setup, x: System): System
    requires Shaped(k, x)
  {
    if x.lock == Free && AllResting(x) && x.cells[x.active].store.pending >= k.threshold then
      var cells := if |x.cells| == 1 then x.cells + [FreshCell(k.columns)] else x.cells;
      x.(cells := cells, active := (x.active + 1) % |cells|, lock := Marking(x.active))
    else x
  }

  /** BeginFlush on the store just taken, and the mutex is released. */
  function Marked(k: Setup, x: System): System
    requires Shaped(k, x)
  {
    match x.lock
    case Marking(s) =>
      var cell := x.cells[s];
      SetCell(x, s, cell.(store := cell.store.(flushing := true), flush := Running)).(lock := Free)
    case _ => x
  }

  function Reporting(k: Setup, x: System, s: nat): System
    requires Shaped(k, x)
  {
    if s < |x.cells| && x.cells[s].flush == Running then
      SetCell(x, s, x.cells[s].(flush := Reported(x.cells[s].store.pending, x.cells[s].owed)))
    else x
  }

  function Subtracting(k: Setup, x: System, s: nat): System
    requires Shaped(k, x)
  {
    if s < |x.cells| && x.cells[s].flush.Reported? then
      var cell := x.cells[s];
      var store := cell.store.(pending := Sub64(cell.store.pending, cell.flush.count));
      SetCell(x, s, cell.(store := store, flush := Subtracted, owed := cell.owed - cell.flush.rows))
        .(accounted := x.accounted + cell.flush.rows)
    else x
  }

  function Lowered(k: Setup, x: System, s: nat): System
    requires Shaped(k, x)
  {
    if s < |x.cells| && x.cells[s].flush == Subtracted then
      SetCell(x, s, x.cells[s].(store := x.cells[s].store.(flushing := false), flush := Resting))
    else x
  }

  // ---- compaction's steps: flag, counter, each column, counter reset

  function ClearedCell(cell: Cell, c: nat): Cell
    requires c < |cell.store.columns| == |cell.held|
  {
    cell.(store := cell.store.(columns := cell.store.columns[c := EMPTY]), held := cell.held[c := {}])
  }

  /** The inserts of a column that no finished flush has accounted for. */
  function Unaccounted(x: System, inserts: set<nat>, c: nat): set<(nat, nat)> {
    set u | u in inserts && u !in x.accounted :: (u, c)
  }

  function Compacted(k: Setup, x: System): System
    requires Shaped(k, x)
  {
    match x.lock
    case Compacting(s, AtFlag) =>
      if s >= |x.cells| then x.(lock := Free)
      else x.(lock := if x.cells[s].store.flushing then Compacting(s + 1, AtFlag) else Compacting(s, AtCount))
    case Compacting(s, AtCount) =>
      x.(lock := if x.cells[s].store.pending == 0 then Compacting(s, Clearing(0)) else Compacting(s + 1, AtFlag))
    case Compacting(s, Clearing(c)) =>
      var cell := x.cells[s];
      if c < k.columns then
        SetCell(x, s, ClearedCell(cell, c))
          .(wiped := x.wiped + Unaccounted(x, cell.held[c], c), lock := Compacting(s, Clearing(c + 1)))
      else
        SetCell(x, s, cell.(store := cell.store.(pending := 0), owed := {}))
          .(uncounted := x.uncounted + (cell.owed - x.accounted), lock := Compacting(s + 1, AtFlag))
    case _ => x
  }

  function Next(k: Setup, x: System, e: Event): System
    requires Shaped(k, x)
  {
    match e
    case Step(u) => if u < |k.ops| then Stepped(k, x, u) else x
    case Take => Taken(k, x)
    case Mark => Marked(k, x)
    case Report(s) => Reporting(k, x, s)
    case Subtract(s) => Subtracting(k, x, s)
    case Lower(s) => Lowered(k, x, s)
    case StartCompaction => if x.lock == Free then x.(lock := Compacting(0, AtFlag)) else x
    case Compact => Compacted(k, x)
  }

  lemma SteppedShaped(k: Setup, x: System, u: nat)
    requires Shaped(k, x) && u < |k.ops|
    ensures Shaped(k, Stepped(k, x, u))
  {
  }

  lemma NextShaped(k: Setup, x: System, e: Event)
    requires Shaped(k, x)
    ensures Shaped(k, Next(k, x, e))
  {
    hide Stepped;
    match e
    case Step(u) => if u < |k.ops| { SteppedShaped(k, x, u); }
    case _ =>
  }

  function Run(k: Setup, events: seq<Event>): (x: System)
    ensures Shaped(k, x)
  {
    if events == [] then Start(k)
    else
      var x := Run(k, events[..|events| - 1]);
      NextShaped(k, x, events[|events| - 1]);
      Next(k, x, events[|events| - 1])
  }

  // ---- the flush protocol

  /** The flag says whether a flush is on, the active store is never flushed, and
      neither is a store past compaction's flag test. */
  ghost predicate FlushOk(k: Setup, x: System)
    requires Shaped(k, x)
  {
    && (forall s :: 0 <= s < |x.cells| ==> (x.cells[s].store.flushing <==> x.cells[s].flush != Resting))
    && x.cells[x.active].flush == Resting
    && (x.lock.Marking? ==> x.lock.store != x.active && AllResting(x))
    && (x.lock.Compacting? && x.lock.stage != AtFlag ==> x.cells[x.lock.store].flush == Resting)
  }

  lemma SteppedFlush(k: Setup, x: System, u: nat)
    requires Shaped(k, x) && u < |k.ops|
    ensures var y := Stepped(k, x, u);
            && |y.cells| == |x.cells| && y.active == x.active && y.lock == x.lock
            && (y.accounted, y.wiped, y.uncounted) == (x.accounted, x.wiped, x.uncounted)
            && forall s :: 0 <= s < |x.cells| ==>
                 y.cells[s].flush == x.cells[s].flush && y.cells[s].store.flushing == x.cells[s].store.flushing
  {
  }

  lemma TakeFlush(k: Setup, x: System)
    requires Shaped(k, x) && FlushOk(k, x)
    ensures Shaped(k, Taken(k, x)) && FlushOk(k, Taken(k, x))
  {
    NextShaped(k, x, Take);
    if |x.cells| == 2 { assert (x.active + 1) % 2 == 1 - x.active; }
  }

  lemma FlusherFlush(k: Setup, x: System, e: Event)
    requires Shaped(k, x) && FlushOk(k, x) && (e.Report? || e.Subtract? || e.Lower?)
    ensures Shaped(k, Next(k, x, e)) && FlushOk(k, Next(k, x, e))
  {
    NextShaped(k, x, e);
    hide Stepped, Compacted, Taken;
  }

  lemma CompactFlush(k: Setup, x: System)
    requires Shaped(k, x) && FlushOk(k, x)
    ensures Shaped(k, Compacted(k, x)) && FlushOk(k, Compacted(k, x))
  {
    NextShaped(k, x, Compact);
    hide Stepped, Taken;
  }

  lemma FlushKept(k: Setup, x: System, e: Event)
    requires Shaped(k, x) && FlushOk(k, x)
    ensures Shaped(k, Next(k, x, e)) && FlushOk(k, Next(k, x, e))
  {
    NextShaped(k, x, e);
    hide Stepped, Taken, Compacted, Reporting, Subtracting, Lowered;
    match e
    case Step(u) => if u < |k.ops| { SteppedFlush(k, x, u); }
    case Take => TakeFlush(k, x);
    case Mark =>
    case StartCompaction =>
    case Compact => CompactFlush(k, x);
    case _ => FlusherFlush(k, x, e);
  }

  // ---- which inserts the bookkeeping speaks of

  /** The call is past column c of store s. */
  predicate Past(pc: Pc, s: nat, c: nat) {
    match pc
    case Writing(t, _, next) => t == s && c < next
    case Finished(t, _) => t == s
    case _ => false
  }

  /** Insert u has written column c of store s. */
  predicate Wrote(k: Setup, pcs: seq<Pc>, s: nat, c: nat, u: nat) {
    && u < |k.ops| == |pcs| && k.ops[u].Insert? && c < k.columns && c < |k.ops[u].data|
    && Past(pcs[u], s, c)
  }

  /** Insert u has counted itself on store s. */
  predicate Counted(k: Setup, pcs: seq<Pc>, s: nat, u: nat) {
    u < |k.ops| == |pcs| && k.ops[u].Insert? && pcs[u].Finished? && pcs[u].store == s
  }

  /** The pending counter stands for inserts counted there and not settled since. */
  ghost predicate OwedOk(k: Setup, x: System, s: nat)
    requires s < |x.cells|
  {
    && x.cells[s].store.pending == |x.cells[s].owed|
    && forall u :: u in x.cells[s].owed ==> Counted(k, x.pcs, s, u) && u !in x.accounted && u !in x.uncounted
  }

  ghost predicate HeldOk(k: Setup, x: System, s: nat)
    requires s < |x.cells|
  {
    forall c, u :: 0 <= c < |x.cells[s].held| && u in x.cells[s].held[c] ==> Wrote(k, x.pcs, s, c, u)
  }

  ghost predicate ReportOk(x: System, s: nat)
    requires s < |x.cells|
  {
    var f := x.cells[s].flush;
    f.Reported? ==> f.count == |f.rows| && f.rows <= x.cells[s].owed
  }

  ghost predicate AccountedOk(k: Setup, x: System) {
    forall u :: u in x.accounted || u in x.uncounted ==>
      u < |k.ops| == |x.pcs| && k.ops[u].Insert? && x.pcs[u].Finished?
  }

  /** A written column still holds the insert, unless the insert is accounted for
      or compaction wiped it. */
  ghost predicate ColumnsCovered(k: Setup, x: System)
    requires Shaped(k, x)
  {
    forall s, c, u :: 0 <= s < |x.cells| && 0 <= c < k.columns && Wrote(k, x.pcs, s, c, u) ==>
      u in x.cells[s].held[c] || (u, c) in x.wiped || u in x.accounted
  }

  ghost predicate CountsCovered(k: Setup, x: System)
    requires Shaped(k, x)
  {
    forall s, u :: 0 <= s < |x.cells| && Counted(k, x.pcs, s, u) ==>
      u in x.cells[s].owed || u in x.uncounted || u in x.accounted
  }

  ghost predicate Books(k: Setup, x: System)
    requires Shaped(k, x)
  {
    && (forall s :: 0 <= s < |x.cells| ==> OwedOk(k, x, s) && HeldOk(k, x, s) && ReportOk(x, s))
    && AccountedOk(k, x) && ColumnsCovered(k, x) && CountsCovered(k, x)
  }

  // ---- every event keeps the books

  lemma {:induction false} SubsetBound(s: set<nat>, n: nat)
    requires forall u :: u in s ==> u < n
    ensures |s| <= n
  {
    if n > 0 {
      SubsetBound(s - {n - 1}, n - 1);
      assert |s| <= |s - {n - 1}| + 1;
    } else {
      assert s == {};
    }
  }

  /** A change that moves no insert: same contents and counters, calls past the
      same columns, perhaps a fresh store. */
  ghost predicate Neutral(k: Setup, x: System, y: System)
    requires Shaped(k, x) && Shaped(k, y)
  {
    && |x.cells| <= |y.cells|
    && (forall s :: 0 <= s < |x.cells| ==> SameBooks(x.cells[s], y.cells[s]))
    && (forall s :: |x.cells| <= s < |y.cells| ==> y.cells[s] == FreshCell(k.columns))
    && (x.accounted, x.wiped, x.uncounted) == (y.accounted, y.wiped, y.uncounted)
    && (forall s, c, u :: Wrote(k, y.pcs, s, c, u) <==> Wrote(k, x.pcs, s, c, u))
    && (forall s, u :: Counted(k, y.pcs, s, u) <==> Counted(k, x.pcs, s, u))
    && (forall u :: 0 <= u < |x.pcs| ==> (x.pcs[u].Finished? <==> y.pcs[u].Finished?))
  }

  predicate SameBooks(a: Cell, b: Cell) {
    && a.store.pending == b.store.pending && a.held == b.held && a.owed == b.owed
    && (b.flush.Reported? ==> b.flush == a.flush || (b.flush.count == a.store.pending && b.flush.rows == a.owed))
  }

  lemma NewStoresUnused(k: Setup, x: System, s: nat)
    requires Shaped(k, x) && s >= |x.cells|
    ensures forall c, u :: !Wrote(k, x.pcs, s, c, u)
    ensures forall u :: !Counted(k, x.pcs, s, u)
  {
  }

  lemma NeutralKeeps(k: Setup, x: System, y: System)
    requires Shaped(k, x) && Shaped(k, y) && Books(k, x) && Neutral(k, x, y)
    ensures Books(k, y)
  {
    hide Wrote, Counted;
    forall s | 0 <= s < |y.cells| ensures OwedOk(k, y, s) && HeldOk(k, y, s) && ReportOk(y, s) {
      if s < |x.cells| { assert OwedOk(k, x, s) && HeldOk(k, x, s) && ReportOk(x, s); }
    }
    if |x.cells| < |y.cells| { NewStoresUnused(k, x, |x.cells|); }
  }

  /** Being given a store and drawing a timestamp. */
  lemma OpeningNeutral(k: Setup, x: System, u: nat)
    requires Shaped(k, x) && u < |k.ops| && (x.pcs[u].Waiting? || x.pcs[u].Holding? || x.pcs[u].Finished?)
    ensures Shaped(k, Stepped(k, x, u)) && Neutral(k, x, Stepped(k, x, u))
  {
    SteppedShaped(k, x, u);
  }

  /** Writing a column: the insert joins it. */
  lemma WriteKeeps(k: Setup, x: System, u: nat)
    requires Shaped(k, x) && Books(k, x) && u < |k.ops| && x.pcs[u].Writing?
    requires I.Reaches(k.ops[u], k.columns, x.pcs[u].next)
    ensures Shaped(k, Stepped(k, x, u)) && Books(k, Stepped(k, x, u))
  {
    SteppedShaped(k, x, u);
    var y := Stepped(k, x, u);
    var s, c := x.pcs[u].store, x.pcs[u].next;
    hide Stepped;
    WriteMoves(k, x, u);
    forall t | 0 <= t < |y.cells| ensures OwedOk(k, y, t) && HeldOk(k, y, t) && ReportOk(y, t) {
      assert OwedOk(k, x, t) && HeldOk(k, x, t) && ReportOk(x, t);
    }
  }

  /** What a column write changes: u is past one more column, which holds it. */
  lemma WriteMoves(k: Setup, x: System, u: nat)
    requires Shaped(k, x) && u < |k.ops| && x.pcs[u].Writing? && I.Reaches(k.ops[u], k.columns, x.pcs[u].next)
    ensures var y, p := Stepped(k, x, u), x.pcs[u];
            && |y.pcs| == |x.pcs| && |y.cells| == |x.cells|
            && (y.accounted, y.wiped, y.uncounted) == (x.accounted, x.wiped, x.uncounted)
            && (forall t, d, v :: Wrote(k, y.pcs, t, d, v) <==>
                  Wrote(k, x.pcs, t, d, v) || (k.ops[u].Insert? && t == p.store && d == p.next && v == u))
            && (forall t, v :: Counted(k, y.pcs, t, v) <==> Counted(k, x.pcs, t, v))
            && (forall v :: 0 <= v < |x.pcs| ==> (x.pcs[v].Finished? <==> y.pcs[v].Finished?))
            && (forall t :: 0 <= t < |x.cells| ==> WriteCells(k, x.cells[t], y.cells[t], t == p.store, p.next, u))
  {
  }

  predicate WriteCells(k: Setup, a: Cell, b: Cell, here: bool, c: nat, u: nat) {
    && |a.held| == |b.held| && a.store.pending == b.store.pending && a.owed == b.owed && a.flush == b.flush
    && forall d :: 0 <= d < |a.held| ==>
         b.held[d] == if here && d == c && u < |k.ops| && k.ops[u].Insert? then a.held[d] + {u} else a.held[d]
  }

  /** Counting: the insert joins those the counter stands for. */
  lemma CountKeeps(k: Setup, x: System, u: nat)
    requires Shaped(k, x) && Books(k, x) && u < |k.ops| < TWO_64 && x.pcs[u].Writing?
    requires !I.Reaches(k.ops[u], k.columns, x.pcs[u].next)
    ensures Shaped(k, Stepped(k, x, u)) && Books(k, Stepped(k, x, u))
  {
    SteppedShaped(k, x, u);
    var y := Stepped(k, x, u);
    var s := x.pcs[u].store;
    CountMoves(k, x, u);
    hide Stepped, Wrote, Counted;
    forall t | 0 <= t < |y.cells| ensures OwedOk(k, y, t) && HeldOk(k, y, t) && ReportOk(y, t) {
      assert OwedOk(k, x, t) && HeldOk(k, x, t) && ReportOk(x, t);
      CountOwed(k, x, u, t);
    }
  }

  lemma CountOwed(k: Setup, x: System, u: nat, t: nat)
    requires Shaped(k, x) && u < |k.ops| < TWO_64 && x.pcs[u].Writing? && t < |x.cells|
    requires !I.Reaches(k.ops[u], k.columns, x.pcs[u].next) && OwedOk(k, x, t) && AccountedOk(k, x)
    ensures OwedOk(k, Stepped(k, x, u), t)
  {
    CountMoves(k, x, u);
    hide Stepped, Wrote, Counted;
    OneMoreOwed(k, x, t, u);
  }

  lemma OneMoreOwed(k: Setup, x: System, s: nat, u: nat)
    requires Shaped(k, x) && s < |x.cells| && OwedOk(k, x, s) && u < |k.ops| < TWO_64 && !x.pcs[u].Finished?
    ensures u !in x.cells[s].owed && |x.cells[s].owed + {u}| == |x.cells[s].owed| + 1 < TWO_64
  {
    SubsetBound(x.cells[s].owed + {u}, |k.ops|);
  }

  lemma CountMoves(k: Setup, x: System, u: nat)
    requires Shaped(k, x) && u < |k.ops| && x.pcs[u].Writing? && !I.Reaches(k.ops[u], k.columns, x.pcs[u].next)
    ensures var y, s := Stepped(k, x, u), x.pcs[u].store;
            && |y.pcs| == |x.pcs| && |y.cells| == |x.cells|
            && (y.accounted, y.wiped, y.uncounted) == (x.accounted, x.wiped, x.uncounted)
            && (forall t, d, v :: Wrote(k, y.pcs, t, d, v) <==> Wrote(k, x.pcs, t, d, v))
            && (forall t, v ::
                 Counted(k, y.pcs, t, v) <==> Counted(k, x.pcs, t, v) || (k.ops[u].Insert? && t == s && v == u))
            && (forall v :: 0 <= v < |x.pcs| ==> (y.pcs[v].Finished? <==> x.pcs[v].Finished? || v == u))
            && forall t :: 0 <= t < |x.cells| ==>
                 y.cells[t] == if t == s then CountedCell(x.cells[t], k.ops[u], u) else x.cells[t]
  {
  }

  lemma SteppedKeeps(k: Setup, x: System, u: nat)
    requires Shaped(k, x) && Books(k, x) && u < |k.ops| < TWO_64
    ensures Shaped(k, Stepped(k, x, u)) && Books(k, Stepped(k, x, u))
  {
    hide Stepped, Books;
    if x.pcs[u].Writing? {
      if I.Reaches(k.ops[u], k.columns, x.pcs[u].next) { WriteKeeps(k, x, u); } else { CountKeeps(k, x, u); }
    } else {
      OpeningNeutral(k, x, u);
      NeutralKeeps(k, x, Stepped(k, x, u));
    }
  }

  /** A flush settles the inserts it reported. */
  lemma SubtractKeeps(k: Setup, x: System, s: nat)
    requires Shaped(k, x) && Books(k, x) && |k.ops| < TWO_64
    ensures Shaped(k, Subtracting(k, x, s)) && Books(k, Subtracting(k, x, s))
  {
    NextShaped(k, x, Subtract(s));
    hide OwedOk, HeldOk, ReportOk, AccountedOk, ColumnsCovered, CountsCovered, Shaped, Sub64;
    hide Stepped, Compacted, Taken, Marked, Reporting, Lowered;
    var y := Subtracting(k, x, s);
    if s < |x.cells| && x.cells[s].flush.Reported? {
      forall t | 0 <= t < |y.cells| ensures OwedOk(k, y, t) && HeldOk(k, y, t) && ReportOk(y, t) {
        SubtractOwed(k, x, s, t);
        SubtractHeld(k, x, s, t);
      }
      SubtractSettles(k, x, s);
      SubtractCovers(k, x, s);
    }
  }

  lemma SubtractHeld(k: Setup, x: System, s: nat, t: nat)
    requires Shaped(k, x) && s < |x.cells| && t < |x.cells| && x.cells[s].flush.Reported?
    requires HeldOk(k, x, t) && ReportOk(x, t)
    ensures HeldOk(k, Subtracting(k, x, s), t) && ReportOk(Subtracting(k, x, s), t)
  {
    hide Wrote;
  }

  lemma SubtractCovers(k: Setup, x: System, s: nat)
    requires Shaped(k, x) && s < |x.cells| && x.cells[s].flush.Reported? && Shaped(k, Subtracting(k, x, s))
    requires ColumnsCovered(k, x) && CountsCovered(k, x)
    ensures ColumnsCovered(k, Subtracting(k, x, s)) && CountsCovered(k, Subtracting(k, x, s))
  {
    hide Wrote, Counted;
  }

  lemma SubtractOwed(k: Setup, x: System, s: nat, t: nat)
    requires Shaped(k, x) && s < |x.cells| && t < |x.cells| && |k.ops| < TWO_64
    requires OwedOk(k, x, s) && OwedOk(k, x, t) && ReportOk(x, s) && x.cells[s].flush.Reported?
    ensures OwedOk(k, Subtracting(k, x, s), t)
  {
    var rows, owed := x.cells[s].flush.rows, x.cells[s].owed;
    SubsetBound(owed, |k.ops|);
    assert |owed - rows| == |owed| - |rows| by { assert owed == (owed - rows) + rows; }
    if t != s { DisjointCounts(k, x, t, s); }
  }

  lemma SubtractSettles(k: Setup, x: System, s: nat)
    requires Shaped(k, x) && s < |x.cells| && x.cells[s].flush.Reported?
    requires OwedOk(k, x, s) && ReportOk(x, s) && AccountedOk(k, x)
    ensures AccountedOk(k, Subtracting(k, x, s))
  {
  }

  /** Clearing a column wipes what no flush accounted for. */
  lemma ClearKeeps(k: Setup, x: System)
    requires Shaped(k, x) && Books(k, x)
    requires x.lock.Compacting? && x.lock.stage.Clearing? && x.lock.stage.column < k.columns
    ensures Shaped(k, Compacted(k, x)) && Books(k, Compacted(k, x))
  {
    NextShaped(k, x, Compact);
    hide Wrote, Counted, Stepped, Taken;
    var y := Compacted(k, x);
    var s, c := x.lock.store, x.lock.stage.column;
    forall t | 0 <= t < |y.cells| ensures OwedOk(k, y, t) && HeldOk(k, y, t) && ReportOk(y, t) {
      assert OwedOk(k, x, t) && HeldOk(k, x, t) && ReportOk(x, t);
    }
    forall t, d, u | 0 <= t < |y.cells| && 0 <= d < k.columns && Wrote(k, y.pcs, t, d, u)
      ensures u in y.cells[t].held[d] || (u, d) in y.wiped || u in y.accounted
    {
      assert u in x.cells[t].held[d] || (u, d) in x.wiped || u in x.accounted;
    }
  }

  lemma ResetKeeps(k: Setup, x: System)
    requires Shaped(k, x) && Books(k, x) && FlushOk(k, x)
    requires x.lock.Compacting? && x.lock.stage.Clearing? && x.lock.stage.column >= k.columns
    ensures Shaped(k, Compacted(k, x)) && Books(k, Compacted(k, x))
  {
    NextShaped(k, x, Compact);
    hide Wrote, Stepped, Taken;
    var y := Compacted(k, x);
    assert OwedOk(k, x, x.lock.store);
    forall t | 0 <= t < |y.cells| ensures OwedOk(k, y, t) && HeldOk(k, y, t) && ReportOk(y, t) {
      assert OwedOk(k, x, t) && HeldOk(k, x, t) && ReportOk(x, t);
      if t != x.lock.store { DisjointCounts(k, x, t, x.lock.store); }
    }
    forall t, u | 0 <= t < |y.cells| && Counted(k, y.pcs, t, u)
      ensures u in y.cells[t].owed || u in y.uncounted || u in y.accounted
    {
      assert u in x.cells[t].owed || u in x.uncounted || u in x.accounted;
    }
  }

  lemma DisjointCounts(k: Setup, x: System, s: nat, t: nat)
    requires s < |x.cells| && t < |x.cells| && s != t && OwedOk(k, x, s) && OwedOk(k, x, t)
    ensures forall u :: u in x.cells[s].owed ==> u !in x.cells[t].owed
  {
  }

  lemma CompactKeeps(k: Setup, x: System)
    requires Shaped(k, x) && Books(k, x) && FlushOk(k, x)
    ensures Shaped(k, Compacted(k, x)) && Books(k, Compacted(k, x))
  {
    NextShaped(k, x, Compact);
    if x.lock.Compacting? && x.lock.stage.Clearing? {
      hide Compacted, Books;
      if x.lock.stage.column < k.columns { ClearKeeps(k, x); } else { ResetKeeps(k, x); }
    } else {
      hide Books;
      NeutralKeeps(k, x, Compacted(k, x));
    }
  }

  lemma BooksKept(k: Setup, x: System, e: Event)
    requires Shaped(k, x) && FlushOk(k, x) && Books(k, x) && |k.ops| < TWO_64
    ensures Shaped(k, Next(k, x, e)) && Books(k, Next(k, x, e))
  {
    NextShaped(k, x, e);
    hide Stepped, Books, Subtracting, Compacted;
    match e
    case Step(u) => if u < |k.ops| { SteppedKeeps(k, x, u); }
    case Subtract(s) => SubtractKeeps(k, x, s);
    case Compact => CompactKeeps(k, x);
    case Report(s) => ReportKeeps(k, x, s);
    case _ => NeutralKeeps(k, x, Next(k, x, e));
  }

  lemma ReportKeeps(k: Setup, x: System, s: nat)
    requires Shaped(k, x) && Books(k, x)
    ensures Shaped(k, Reporting(k, x, s)) && Books(k, Reporting(k, x, s))
  {
    NextShaped(k, x, Report(s));
    hide Books;
    NeutralKeeps(k, x, Reporting(k, x, s));
  }

  /** Every run, whatever the schedule: at most two stores, a valid active index
      that is never a flushing store, and books that balance: each store's pending
      counter is the number of its inserts counted and not settled, and every
      column written is still there unless its insert was accounted for or wiped. */
  lemma {:induction false} RunInv(k: Setup, events: seq<Event>)
    requires |k.ops| < TWO_64
    ensures FlushOk(k, Run(k, events)) && Books(k, Run(k, events))
  {
    if events == [] {
      StartInv(k);
    } else {
      var n := |events| - 1;
      RunInv(k, events[..n]);
      hide Next, FlushOk, Books;
      FlushKept(k, Run(k, events[..n]), events[n]);
      BooksKept(k, Run(k, events[..n]), events[n]);
    }
  }

  lemma StartInv(k: Setup)
    ensures FlushOk(k, Start(k)) && Books(k, Start(k))
  {
    var x := Start(k);
    assert OwedOk(k, x, 0) && HeldOk(k, x, 0) && ReportOk(x, 0);
  }
}
