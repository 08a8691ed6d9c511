// ParallelScanner (include/columnar/scanner.h): threads walking strided segment
// lists, with a shared cancel flag. One event is one atomic step of one thread;
// a run is any sequence of events.
module ParallelScan {
  import opened Types
  import opened Bits
  import opened Scanner
  import opened Predicate
  import opened Chains
  import Z = ZoneMap
  import B = Bloom
  import opened Exactness
  import opened Pruning

  /** The counters of a scan, with the number of rows in its pruned blocks. */
  datatype Counts = Counts(stats: Stats, pruned: nat)

  function PlusStats(a: Stats, b: Stats): Stats {
    Stats(a.blocksScanned + b.blocksScanned, a.prunedZone + b.prunedZone, a.prunedBloom + b.prunedBloom,
          a.rowsScanned + b.rowsScanned, a.rowsFiltered + b.rowsFiltered, a.rowsReturned + b.rowsReturned)
  }

  function Plus(a: Counts, b: Counts): Counts { Counts(PlusStats(a.stats, b.stats), a.pruned + b.pruned) }

  const ZERO := Counts(NO_STATS, 0)

  /** Every scanned row was returned, filtered out, or in a pruned block. */
  predicate Balanced(c: Counts) { c.stats.rowsScanned == c.stats.rowsReturned + c.stats.rowsFiltered + c.pruned }

  /** What scanning one segment does: its callbacks, in order, and its counters. */
  datatype Work = Work(batches: seq<Batch>, counts: Counts)

  /** Where a thread is: at its loop head, inside the scan of segment `at` about
      to test the flag for batch k, past the test and about to deliver it, or out. */
  datatype Phase = AtHead | Testing(k: nat) | Sending(k: nat) | Finished

  datatype Worker = Worker(at: nat, phase: Phase, counts: Counts)

  datatype State = State(workers: seq<Worker>, cancelled: bool, delivered: seq<(nat, nat)>)

  datatype Event = Step(thread: nat) | Cancel

  function Initial(n: nat): State {
    State(seq(n, t requires 0 <= t => Worker(t, AtHead, ZERO)), false, [])
  }

  function Stepped(work: seq<Work>, n: nat, s: State, t: nat): State
    requires t < |s.workers|
  {
    var w := s.workers[t];
    match w.phase
    case Finished => s
    case AtHead =>
      if w.at >= |work| || s.cancelled then Put(s, t, w.(phase := Finished))
      else Put(s, t, w.(phase := Testing(0)))
    case Testing(k) =>
      if w.at < |work| && k < |work[w.at].batches| then
        Put(s, t, w.(phase := if s.cancelled then Testing(k + 1) else Sending(k)))
      else if w.at < |work| then
        Put(s, t, Worker(w.at + n, AtHead, Plus(w.counts, work[w.at].counts)))
      else s
    case Sending(k) =>
      Put(s.(delivered := s.delivered + [(w.at, k)]), t, w.(phase := Testing(k + 1)))
  }

  function Put(s: State, t: nat, w: Worker): State
    requires t < |s.workers|
  {
    s.(workers := s.workers[t := w])
  }

  function Next(work: seq<Work>, n: nat, s: State, e: Event): State {
    match e
    case Cancel => s.(cancelled := true)
    case Step(t) => if t < |s.workers| then Stepped(work, n, s, t) else s
  }

  function Run(work: seq<Work>, n: nat, events: seq<Event>): State {
    if events == [] then Initial(n)
    else Next(work, n, Run(work, n, events[..|events| - 1]), events[|events| - 1])
  }

  predicate AllFinished(s: State) { forall t :: 0 <= t < |s.workers| ==> s.workers[t].phase == Finished }

  // ---- strides

  function Owner(n: nat, seg: nat): nat
    requires n > 0
  {
    seg % n
  }

  /** One stride on is the same thread's; nothing in between is. */
  lemma Stride(n: nat, at: nat)
    requires n > 0
    ensures Owner(n, at + n) == Owner(n, at)
    ensures forall s :: at < s < at + n ==> Owner(n, s) != Owner(n, at)
  {
    var q, r := at / n, at % n;
    assert at == q * n + r;
    assert (q + 1) * n == q * n + n;
    DivUnique(at + n, n, q + 1, r);
    forall s | at < s < at + n ensures s % n != r {
      var q' := s / n;
      assert s == q' * n + s % n;
      if s % n == r {
        if q' < q { ScaleGap(q', q, n); }
        if q' > q { ScaleGap(q, q', n); }
      }
    }
  }

  lemma StrideStart(n: nat, t: nat)
    requires t < n
    ensures Owner(n, t) == t
    ensures forall s :: 0 <= s < t ==> Owner(n, s) != t
  {
    DivUnique(t, n, 0, t);
    forall s | 0 <= s < t ensures s % n != t { DivUnique(s, n, 0, s); }
  }

  // ---- what has been sent, as a function of where the threads are

  /** Batch k of segment seg is behind worker w. */
  predicate Behind(w: Worker, seg: nat, k: nat) {
    seg < w.at || (seg == w.at && match w.phase case Testing(j) => k < j case Sending(j) => k < j case _ => false)
  }

  predicate IsBatch(work: seq<Work>, seg: nat, k: nat) { seg < |work| && k < |work[seg].batches| }

  ghost predicate NoRepeats(xs: seq<(nat, nat)>) { forall i, j :: 0 <= i < j < |xs| ==> xs[i] != xs[j] }

  /** The phase makes sense for the position. */
  predicate PhaseOk(work: seq<Work>, w: Worker) {
    match w.phase
    case Testing(k) => w.at < |work| && k <= |work[w.at].batches|
    case Sending(k) => w.at < |work| && k < |work[w.at].batches|
    case _ => true
  }

  ghost predicate WorkerOk(work: seq<Work>, n: nat, s: State, t: nat)
    requires n > 0 && t < |s.workers|
  {
    var w := s.workers[t];
    && Owner(n, w.at) == t && PhaseOk(work, w)
    && (w.phase == Finished ==> w.at >= |work| || s.cancelled)
    && w.counts == StrideCounts(work, n, t, w.at)
  }

  /** Sent pairs are real batches behind their owner; without a cancel, all of them. */
  ghost predicate Inv(work: seq<Work>, n: nat, s: State) {
    && n > 0 && |s.workers| == n
    && (forall t :: 0 <= t < n ==> WorkerOk(work, n, s, t))
    && NoRepeats(s.delivered)
    && (forall i :: 0 <= i < |s.delivered| ==> SentOk(work, n, s, s.delivered[i]))
    && (!s.cancelled ==> Covered(work, n, s))
  }

  predicate BehindOwner(n: nat, s: State, seg: nat, k: nat)
    requires n > 0 && |s.workers| == n
  {
    Behind(s.workers[Owner(n, seg)], seg, k)
  }

  ghost predicate Covered(work: seq<Work>, n: nat, s: State)
    requires n > 0 && |s.workers| == n
  {
    forall seg: nat, k: nat :: IsBatch(work, seg, k) && BehindOwner(n, s, seg, k) ==> (seg, k) in s.delivered
  }

  ghost predicate SentOk(work: seq<Work>, n: nat, s: State, d: (nat, nat))
    requires n > 0 && |s.workers| == n
  {
    IsBatch(work, d.0, d.1) && BehindOwner(n, s, d.0, d.1)
  }

  /** The counters of thread t's segments below a limit. */
  function StrideCounts(work: seq<Work>, n: nat, t: nat, limit: nat): Counts
    requires n > 0
  {
    if limit == 0 then ZERO
    else
      var before := StrideCounts(work, n, t, limit - 1);
      if limit - 1 < |work| && Owner(n, limit - 1) == t then Plus(before, work[limit - 1].counts) else before
  }

  lemma {:induction false} StrideSkips(work: seq<Work>, n: nat, t: nat, a: nat, b: nat)
    requires n > 0 && a <= b && forall s :: a <= s < b ==> s >= |work| || Owner(n, s) != t
    ensures StrideCounts(work, n, t, b) == StrideCounts(work, n, t, a)
    decreases b
  {
    if a < b { StrideSkips(work, n, t, a, b - 1); }
  }

  lemma StrideTakes(work: seq<Work>, n: nat, at: nat)
    requires n > 0 && at < |work|
    ensures StrideCounts(work, n, Owner(n, at), at + 1)
         == Plus(StrideCounts(work, n, Owner(n, at), at), work[at].counts)
  {
    hide Owner, Plus;
  }

  lemma StrideAdvance(work: seq<Work>, n: nat, at: nat)
    requires n > 0 && at < |work|
    ensures StrideCounts(work, n, Owner(n, at), at + n)
         == Plus(StrideCounts(work, n, Owner(n, at), at), work[at].counts)
  {
    hide Owner, Plus, StrideCounts;
    Stride(n, at);
    StrideTakes(work, n, at);
    StrideSkips(work, n, Owner(n, at), at + 1, at + n);
  }

  // ---- every event keeps the invariant

  lemma InitialInv(work: seq<Work>, n: nat)
    requires n > 0
    ensures Inv(work, n, Initial(n))
  {
    var s := Initial(n);
    forall t | 0 <= t < n ensures WorkerOk(work, n, s, t) {
      StrideStart(n, t);
      StrideSkips(work, n, t, 0, t);
    }
    forall seg: nat, k: nat | IsBatch(work, seg, k) && Behind(s.workers[Owner(n, seg)], seg, k) ensures false {
      StrideStart(n, Owner(n, seg));
    }
  }

  /** Moving worker t from v to w while sending `sent`: what was behind stays
      behind, and what is sent comes to be behind. */
  ghost predicate Moves(work: seq<Work>, n: nat, t: nat, v: Worker, w: Worker, sent: seq<(nat, nat)>)
    requires n > 0
  {
    && |sent| <= 1
    && (forall seg: nat, k: nat :: IsBatch(work, seg, k) && Behind(v, seg, k) ==> Behind(w, seg, k))
    && forall i :: 0 <= i < |sent| ==> NewlyBehind(work, n, t, v, w, sent[i])
  }

  predicate NewlyBehind(work: seq<Work>, n: nat, t: nat, v: Worker, w: Worker, d: (nat, nat))
    requires n > 0
  {
    Owner(n, d.0) == t && IsBatch(work, d.0, d.1) && Behind(w, d.0, d.1) && !Behind(v, d.0, d.1)
  }

  /** The move leaves no batch of thread t behind without sending it. */
  ghost predicate SendsAll(work: seq<Work>, n: nat, t: nat, v: Worker, w: Worker, sent: seq<(nat, nat)>)
    requires n > 0
  {
    forall seg: nat, k: nat :: IsBatch(work, seg, k) && Owner(n, seg) == t && Behind(w, seg, k)
      ==> Behind(v, seg, k) || (seg, k) in sent
  }

  function Moved(s: State, t: nat, w: Worker, sent: seq<(nat, nat)>): State
    requires t < |s.workers|
  {
    Put(s.(delivered := s.delivered + sent), t, w)
  }

  lemma MoveKeepsSent(work: seq<Work>, n: nat, s: State, t: nat, w: Worker, sent: seq<(nat, nat)>, d: (nat, nat))
    requires n > 0 && |s.workers| == n && t < n && Moves(work, n, t, s.workers[t], w, sent)
    requires SentOk(work, n, s, d) || d in sent
    ensures SentOk(work, n, Moved(s, t, w, sent), d)
  {
    hide Owner, Behind, IsBatch;
    var o := Owner(n, d.0);
    OwnerBelow(n, d.0);
    if d in sent {
      var i :| 0 <= i < |sent| && sent[i] == d;
      assert NewlyBehind(work, n, t, s.workers[t], w, sent[i]);
    }
  }

  lemma OwnerBelow(n: nat, seg: nat)
    requires n > 0
    ensures 0 <= Owner(n, seg) < n
  {
  }

  lemma MoveNoRepeats(work: seq<Work>, n: nat, s: State, t: nat, w: Worker, sent: seq<(nat, nat)>)
    requires Inv(work, n, s) && t < n && Moves(work, n, t, s.workers[t], w, sent)
    ensures NoRepeats(s.delivered + sent)
  {
    hide Owner, Behind, IsBatch, StrideCounts, WorkerOk;
    if |sent| == 1 {
      assert NewlyBehind(work, n, t, s.workers[t], w, sent[0]);
      forall i | 0 <= i < |s.delivered| ensures s.delivered[i] != sent[0] {
        assert SentOk(work, n, s, s.delivered[i]);
      }
    }
  }

  lemma MoveCovers(work: seq<Work>, n: nat, s: State, t: nat, w: Worker, sent: seq<(nat, nat)>)
    requires Inv(work, n, s) && t < n && SendsAll(work, n, t, s.workers[t], w, sent) && !s.cancelled
    ensures Covered(work, n, Moved(s, t, w, sent))
  {
    hide Owner, Behind, IsBatch, StrideCounts, WorkerOk, SentOk, NoRepeats;
    var s' := Moved(s, t, w, sent);
    forall seg: nat, k: nat | IsBatch(work, seg, k) && BehindOwner(n, s', seg, k) ensures (seg, k) in s'.delivered {
      OwnerBelow(n, seg);
      assert BehindOwner(n, s, seg, k) ==> (seg, k) in s.delivered;
    }
  }

  lemma MoveKeepsWorker(work: seq<Work>, n: nat, s: State, t: nat, w: Worker, sent: seq<(nat, nat)>, u: nat)
    requires Inv(work, n, s) && t < n && u < n && WorkerOk(work, n, Moved(s, t, w, sent), t)
    ensures WorkerOk(work, n, Moved(s, t, w, sent), u)
  {
    hide Owner, IsBatch, StrideCounts, SentOk, Covered, NoRepeats, PhaseOk;
    assert WorkerOk(work, n, s, u);
  }

  /** A move keeps the invariant; before a cancel it must send what it passes. */
  lemma MoveKeeps(work: seq<Work>, n: nat, s: State, t: nat, w: Worker, sent: seq<(nat, nat)>)
    requires Inv(work, n, s) && t < n && Moves(work, n, t, s.workers[t], w, sent)
    requires WorkerOk(work, n, Moved(s, t, w, sent), t)
    requires s.cancelled || SendsAll(work, n, t, s.workers[t], w, sent)
    ensures Inv(work, n, Moved(s, t, w, sent))
  {
    hide WorkerOk, SentOk, Covered, NoRepeats, Moves, SendsAll;
    var s' := Moved(s, t, w, sent);
    forall u | 0 <= u < n ensures WorkerOk(work, n, s', u) { MoveKeepsWorker(work, n, s, t, w, sent, u); }
    forall i | 0 <= i < |s'.delivered| ensures SentOk(work, n, s', s'.delivered[i]) {
      assert i < |s.delivered| ==> SentOk(work, n, s, s.delivered[i]);
      MoveKeepsSent(work, n, s, t, w, sent, s'.delivered[i]);
    }
    MoveNoRepeats(work, n, s, t, w, sent);
    if !s.cancelled { MoveCovers(work, n, s, t, w, sent); }
  }

  /** Every step of every thread keeps the invariant. */
  lemma StepKeeps(work: seq<Work>, n: nat, s: State, t: nat)
    requires Inv(work, n, s) && t < n
    ensures Inv(work, n, Stepped(work, n, s, t))
  {
    hide Owner, StrideCounts;
    assert WorkerOk(work, n, s, t);
    var w := s.workers[t];
    var none: seq<(nat, nat)> := [];
    assert s.delivered + none == s.delivered;
    match w.phase
    case Finished =>
    case AtHead =>
      MoveKeeps(work, n, s, t, w.(phase := if w.at >= |work| || s.cancelled then Finished else Testing(0)), none);
    case Sending(k) =>
      MoveKeeps(work, n, s, t, w.(phase := Testing(k + 1)), [(w.at, k)]);
    case Testing(k) =>
      if k < |work[w.at].batches| {
        MoveKeeps(work, n, s, t, w.(phase := if s.cancelled then Testing(k + 1) else Sending(k)), none);
      } else {
        Stride(n, w.at);
        StrideAdvance(work, n, w.at);
        MoveKeeps(work, n, s, t, Worker(w.at + n, AtHead, Plus(w.counts, work[w.at].counts)), none);
      }
  }

  lemma CancelKeeps(work: seq<Work>, n: nat, s: State)
    requires Inv(work, n, s)
    ensures Inv(work, n, s.(cancelled := true))
  {
    hide Owner, StrideCounts, Behind;
    var s' := s.(cancelled := true);
    forall t | 0 <= t < n ensures WorkerOk(work, n, s', t) { assert WorkerOk(work, n, s, t); }
    forall i | 0 <= i < |s.delivered|
      ensures SentOk(work, n, s', s'.delivered[i]) { assert SentOk(work, n, s, s.delivered[i]); }
  }

  /** Every state of every run satisfies the invariant. */
  lemma {:induction false} RunInv(work: seq<Work>, n: nat, events: seq<Event>)
    requires n > 0
    ensures Inv(work, n, Run(work, n, events))
  {
    if events == [] {
      InitialInv(work, n);
    } else {
      var before, e := events[..|events| - 1], events[|events| - 1];
      RunInv(work, n, before);
      hide Inv, Stepped;
      var s := Run(work, n, before);
      match e
      case Cancel => CancelKeeps(work, n, s);
      case Step(t) => if t < |s.workers| { StepKeeps(work, n, s, t); }
    }
  }

  // ---- what a finished run delivered

  /** Sequential scanning: every batch of every segment, in order. */
  function SegmentPairs(seg: nat, k: nat): seq<(nat, nat)> {
    if k == 0 then [] else SegmentPairs(seg, k - 1) + [(seg, k - 1)]
  }

  function Sequential(work: seq<Work>): seq<(nat, nat)> {
    if work == [] then []
    else Sequential(work[..|work| - 1]) + SegmentPairs(|work| - 1, |work[|work| - 1].batches|)
  }

  lemma {:induction false} SegmentPairsMeaning(seg: nat, k: nat)
    ensures NoRepeats(SegmentPairs(seg, k))
    ensures forall d: (nat, nat) :: d in SegmentPairs(seg, k) <==> d.0 == seg && d.1 < k
  {
    if k > 0 { SegmentPairsMeaning(seg, k - 1); }
  }

  lemma {:induction false} SequentialMeaning(work: seq<Work>)
    ensures NoRepeats(Sequential(work))
    ensures forall d: (nat, nat) :: d in Sequential(work) <==> IsBatch(work, d.0, d.1)
  {
    if work != [] {
      hide NoRepeats;
      var n := |work| - 1;
      SequentialMeaning(work[..n]);
      SegmentPairsMeaning(n, |work[n].batches|);
      var a: seq<(nat, nat)>, b: seq<(nat, nat)> := Sequential(work[..n]), SegmentPairs(n, |work[n].batches|);
      hide SegmentPairs;
      forall i, j | 0 <= i < |a| && 0 <= j < |b| ensures a[i] != b[j] { assert a[i] in a && b[j] in b; }
    }
  }

  lemma {:induction false} NoRepeatsMultiset(xs: seq<(nat, nat)>, d: (nat, nat))
    requires NoRepeats(xs)
    ensures multiset(xs)[d] == if d in xs then 1 else 0
  {
    if xs != [] {
      var n := |xs| - 1;
      NoRepeatsMultiset(xs[..n], d);
      assert xs == xs[..n] + [xs[n]];
    }
  }

  /** Schedule independence: when all threads are out, what was delivered is the
      sequential scan's batches in some order, each once; after a cancel, some of
      them, each at most once. */
  lemma ScheduleIndependent(work: seq<Work>, n: nat, events: seq<Event>)
    requires n > 0
    ensures var s := Run(work, n, events);
            && multiset(s.delivered) <= multiset(Sequential(work))
            && (AllFinished(s) && !s.cancelled ==> multiset(s.delivered) == multiset(Sequential(work)))
  {
    hide Run, Owner, StrideCounts;
    var s := Run(work, n, events);
    RunInv(work, n, events);
    SequentialMeaning(work);
    var xs, all := s.delivered, Sequential(work);
    forall d: (nat, nat) ensures d in xs ==> d in all {
      if d in xs { var i :| 0 <= i < |xs| && xs[i] == d; assert SentOk(work, n, s, xs[i]); }
    }
    forall d: (nat, nat) ensures multiset(xs)[d] <= multiset(all)[d] {
      NoRepeatsMultiset(xs, d);
      NoRepeatsMultiset(all, d);
    }
    if AllFinished(s) && !s.cancelled {
      forall d: (nat, nat) | d in all ensures d in xs {
        AllBehind(work, n, s, d.0, d.1);
      }
      forall d: (nat, nat) ensures multiset(xs)[d] == multiset(all)[d] {
        NoRepeatsMultiset(xs, d);
        NoRepeatsMultiset(all, d);
      }
    }
  }

  lemma AllBehind(work: seq<Work>, n: nat, s: State, seg: nat, k: nat)
    requires Inv(work, n, s) && AllFinished(s) && !s.cancelled && IsBatch(work, seg, k)
    ensures (seg, k) in s.delivered
  {
    var t := Owner(n, seg);
    assert WorkerOk(work, n, s, t);
  }

  // ---- termination

  /** Steps still to take from the head of segment `at` on, at most. */
  function Remaining(work: seq<Work>, at: nat): nat
    decreases |work| - at
  {
    if at >= |work| then 0 else 2 * |work[at].batches| + 2 + Remaining(work, at + 1)
  }

  function StepsLeft(work: seq<Work>, w: Worker): int {
    match w.phase
    case Finished => 0
    case AtHead => Remaining(work, w.at) + 1
    case Testing(k) => Remaining(work, w.at) - 2 * k
    case Sending(k) => Remaining(work, w.at) - 2 * k - 1
  }

  lemma {:induction false} RemainingShrinks(work: seq<Work>, a: nat, b: nat)
    requires a <= b
    ensures Remaining(work, b) <= Remaining(work, a)
    decreases b - a
  {
    if a < b { RemainingShrinks(work, a + 1, b); }
  }

  /** Every step a thread takes before it is out brings it closer to being out,
      and leaves the other threads where they are. */
  lemma StepProgress(work: seq<Work>, n: nat, s: State, t: nat)
    requires Inv(work, n, s) && t < n && s.workers[t].phase != Finished
    ensures 0 <= StepsLeft(work, Stepped(work, n, s, t).workers[t]) < StepsLeft(work, s.workers[t])
    ensures forall u :: 0 <= u < n && u != t ==> Stepped(work, n, s, t).workers[u] == s.workers[u]
  {
    hide Owner, StrideCounts, Plus, SentOk, NoRepeats, Covered;
    assert WorkerOk(work, n, s, t);
    var at := s.workers[t].at;
    if at < |work| { RemainingShrinks(work, at + 1, at + n); }
  }

  /** How often a schedule lets thread t step. */
  function Turns(events: seq<Event>, t: nat): nat {
    if events == [] then 0
    else Turns(events[..|events| - 1], t) + if events[|events| - 1] == Step(t) then 1 else 0
  }

  /** A bound on the steps of thread t from the start. */
  function StepBound(work: seq<Work>, t: nat): nat { Remaining(work, t) + 1 }

  lemma NoStepsLeft(work: seq<Work>, n: nat, s: State, t: nat)
    requires Inv(work, n, s) && t < n
    ensures StepsLeft(work, s.workers[t]) >= 0
    ensures s.workers[t].phase != Finished ==> StepsLeft(work, s.workers[t]) > 0
  {
    hide Owner, StrideCounts, SentOk, NoRepeats, Covered;
    assert WorkerOk(work, n, s, t);
  }

  lemma {:induction false} TurnsLower(work: seq<Work>, n: nat, events: seq<Event>, t: nat)
    requires t < n
    ensures var s := Run(work, n, events);
            && |s.workers| == n
            && (s.workers[t].phase == Finished || StepsLeft(work, s.workers[t]) + Turns(events, t) <= StepBound(work,
                t))
  {
    if events != [] {
      var before, e := events[..|events| - 1], events[|events| - 1];
      TurnsLower(work, n, before, t);
      RunInv(work, n, before);
      hide Inv, StepsLeft, StepBound;
      var s := Run(work, n, before);
      if e == Step(t) {
        if s.workers[t].phase != Finished { StepProgress(work, n, s, t); }
      } else if e.Step? && e.thread < n {
        OthersStay(work, n, s, e.thread, t);
      }
    }
  }

  lemma OthersStay(work: seq<Work>, n: nat, s: State, t: nat, u: nat)
    requires |s.workers| == n && t < n && u < n && u != t
    ensures |Stepped(work, n, s, t).workers| == n && Stepped(work, n, s, t).workers[u] == s.workers[u]
  {
  }

  /** A run that gives every thread its bound of turns, in any order and with any
      cancels between them, has them all finished. */
  lemma FairRunsFinish(work: seq<Work>, n: nat, events: seq<Event>)
    requires n > 0 && forall t: nat :: t < n ==> Turns(events, t) >= StepBound(work, t)
    ensures AllFinished(Run(work, n, events))
  {
    hide Run, Turns, StepBound, Inv, StepsLeft;
    RunInv(work, n, events);
    var s := Run(work, n, events);
    forall t | 0 <= t < |s.workers| ensures s.workers[t].phase == Finished {
      InvThreads(work, n, s);
      TurnsLower(work, n, events, t);
      NoStepsLeft(work, n, s, t);
    }
  }

  lemma InvThreads(work: seq<Work>, n: nat, s: State)
    requires Inv(work, n, s)
    ensures |s.workers| == n
  {
  }

  // ---- the delivered values

  function BatchAt(work: seq<Work>, d: (nat, nat)): Batch
    requires IsBatch(work, d.0, d.1)
  {
    work[d.0].batches[d.1]
  }

  ghost predicate AreBatches(work: seq<Work>, sent: seq<(nat, nat)>) {
    forall i :: 0 <= i < |sent| ==> IsBatch(work, sent[i].0, sent[i].1)
  }

  function Output(work: seq<Work>, sent: seq<(nat, nat)>): seq<Batch>
    requires AreBatches(work, sent)
  {
    seq(|sent|, i requires 0 <= i < |sent| => BatchAt(work, sent[i]))
  }

  /** Scanning the segments one after another. */
  function SequentialOutput(work: seq<Work>): seq<Batch> {
    if work == [] then [] else SequentialOutput(work[..|work| - 1]) + work[|work| - 1].batches
  }

  lemma {:induction false} SegmentOutput(work: seq<Work>, seg: nat, k: nat)
    requires seg < |work| && k <= |work[seg].batches|
    ensures |SegmentPairs(seg, k)| == k
    ensures forall i :: 0 <= i < k ==> SegmentPairs(seg, k)[i] == (seg, i)
  {
    if k > 0 { SegmentOutput(work, seg, k - 1); }
  }

  /** Reading the sequential pairs' batches is scanning sequentially. */
  lemma {:induction false} SequentialOutputs(work: seq<Work>, all: seq<Work>)
    requires work <= all
    ensures AreBatches(all, Sequential(work))
    ensures Output(all, Sequential(work)) == SequentialOutput(work)
  {
    if work != [] {
      var n := |work| - 1;
      assert work[n] == all[n];
      SequentialOutputs(work[..n], all);
      SegmentOutput(all, n, |all[n].batches|);
      var a: seq<(nat, nat)>, b: seq<(nat, nat)> := Sequential(work[..n]), SegmentPairs(n, |work[n].batches|);
      assert Output(all, a + b) == Output(all, a) + Output(all, b);
      assert Output(all, b) == work[n].batches;
    }
  }

  /** Mapping pairs to batches keeps multiset inclusion. */
  lemma {:induction false} OutputInclusion(work: seq<Work>, xs: seq<(nat, nat)>, ys: seq<(nat, nat)>)
    requires AreBatches(work, xs)
    requires AreBatches(work, ys)
    requires multiset(xs) <= multiset(ys)
    ensures multiset(Output(work, xs)) <= multiset(Output(work, ys))
    decreases |xs|
  {
    if xs != [] {
      var n := |xs| - 1;
      assert xs == xs[..n] + [xs[n]];
      assert xs[n] in multiset(ys);
      var j :| 0 <= j < |ys| && ys[j] == xs[n];
      var ys' := ys[..j] + ys[j + 1..];
      WithoutOne(ys, j);
      CancelOne(multiset(xs[..n]), multiset(ys'), xs[n]);
      OutputInclusion(work, xs[..n], ys');
      OutputWithoutOne(work, ys, j);
      assert Output(work, xs) == Output(work, xs[..n]) + [BatchAt(work, xs[n])];
    }
  }

  lemma WithoutOne<T>(ys: seq<T>, j: nat)
    requires j < |ys|
    ensures multiset(ys) == multiset(ys[..j] + ys[j + 1..]) + multiset{ys[j]}
  {
    assert ys == ys[..j] + [ys[j]] + ys[j + 1..];
  }

  lemma CancelOne<T>(a: multiset<T>, b: multiset<T>, x: T)
    requires a + multiset{x} <= b + multiset{x}
    ensures a <= b
  {
    forall y ensures a[y] <= b[y] {
      assert (a + multiset{x})[y] <= (b + multiset{x})[y];
    }
  }

  lemma OutputWithoutOne(work: seq<Work>, ys: seq<(nat, nat)>, j: nat)
    requires j < |ys| && AreBatches(work, ys)
    ensures multiset(Output(work, ys))
         == multiset(Output(work, ys[..j] + ys[j + 1..])) + multiset{BatchAt(work, ys[j])}
  {
    var o := Output(work, ys);
    WithoutOne(o, j);
    assert Output(work, ys[..j] + ys[j + 1..]) == o[..j] + o[j + 1..];
  }

  /** Schedule independence of the delivered values. */
  lemma OutputIndependent(work: seq<Work>, n: nat, events: seq<Event>)
    requires n > 0
    ensures var s := Run(work, n, events);
            && AreBatches(work, s.delivered)
            && multiset(Output(work, s.delivered)) <= multiset(SequentialOutput(work))
            && (AllFinished(s) && !s.cancelled ==>
                multiset(Output(work, s.delivered)) == multiset(SequentialOutput(work)))
  {
    hide Run, Output, SequentialOutput, Sequential, AreBatches;
    var s := Run(work, n, events);
    RunInv(work, n, events);
    DeliveredAreBatches(work, n, s);
    ScheduleIndependent(work, n, events);
    SequentialOutputs(work, work);
    OutputInclusion(work, s.delivered, Sequential(work));
    if AllFinished(s) && !s.cancelled { OutputInclusion(work, Sequential(work), s.delivered); }
  }

  lemma DeliveredAreBatches(work: seq<Work>, n: nat, s: State)
    requires Inv(work, n, s)
    ensures AreBatches(work, s.delivered)
  {
    hide WorkerOk, NoRepeats, Covered;
    forall i | 0 <= i < |s.delivered| ensures IsBatch(work, s.delivered[i].0, s.delivered[i].1) {
      assert SentOk(work, n, s, s.delivered[i]);
    }
  }

  // ---- the summed counters

  function SumWorkers(workers: seq<Worker>): Counts {
    if workers == [] then ZERO else Plus(SumWorkers(workers[..|workers| - 1]), workers[|workers| - 1].counts)
  }

  function SumWork(work: seq<Work>): Counts {
    if work == [] then ZERO else Plus(SumWork(work[..|work| - 1]), work[|work| - 1].counts)
  }

  /** The first m threads' segments below a limit. */
  function SumStrides(work: seq<Work>, n: nat, limit: nat, m: nat): Counts
    requires n > 0
  {
    if m == 0 then ZERO else Plus(SumStrides(work, n, limit, m - 1), StrideCounts(work, n, m - 1, limit))
  }

  /** One more segment adds to exactly one thread's share. */
  lemma {:induction false} OneOwner(work: seq<Work>, n: nat, limit: nat, m: nat)
    requires n > 0 && limit < |work|
    ensures SumStrides(work, n, limit + 1, m)
         == if Owner(n, limit) < m then Plus(SumStrides(work, n, limit, m), work[limit].counts)
            else SumStrides(work, n, limit, m)
  {
    hide Owner;
    if m > 0 { OneOwner(work, n, limit, m - 1); }
  }

  /** The threads' shares add up to all the segments. */
  lemma {:induction false} SharesAddUp(work: seq<Work>, n: nat, limit: nat)
    requires n > 0 && limit <= |work|
    ensures SumStrides(work, n, limit, n) == SumWork(work[..limit])
  {
    hide Owner, Plus;
    if limit == 0 {
      NoShares(work, n, n);
    } else {
      SharesAddUp(work, n, limit - 1);
      OneOwner(work, n, limit - 1, n);
      OwnerBelow(n, limit - 1);
      hide SumStrides;
      assert work[..limit][..limit - 1] == work[..limit - 1];
    }
  }

  lemma {:induction false} NoShares(work: seq<Work>, n: nat, m: nat)
    requires n > 0
    ensures SumStrides(work, n, 0, m) == ZERO
  {
    if m > 0 { NoShares(work, n, m - 1); }
  }

  lemma {:induction false} WorkersSum(work: seq<Work>, n: nat, workers: seq<Worker>)
    requires n > 0 && forall t :: 0 <= t < |workers| ==> workers[t].counts == StrideCounts(work, n, t, |work|)
    ensures SumWorkers(workers) == SumStrides(work, n, |work|, |workers|)
  {
    hide StrideCounts, Plus;
    if workers != [] { WorkersSum(work, n, workers[..|workers| - 1]); }
  }

  /** Finished without a cancel, the threads' counters sum to the segments'
      counters whatever the schedule. */
  lemma StatsConserved(work: seq<Work>, n: nat, events: seq<Event>)
    requires n > 0
    ensures var s := Run(work, n, events);
            AllFinished(s) && !s.cancelled ==> SumWorkers(s.workers) == SumWork(work)
  {
    hide Run, SumWorkers, SumStrides, SumWork, StrideCounts, Owner, Plus;
    var s := Run(work, n, events);
    RunInv(work, n, events);
    if AllFinished(s) && !s.cancelled {
      forall t | 0 <= t < n ensures s.workers[t].counts == StrideCounts(work, n, t, |work|) {
        assert WorkerOk(work, n, s, t);
        StrideSkips(work, n, t, |work|, s.workers[t].at);
      }
      WorkersSum(work, n, s.workers);
      SharesAddUp(work, n, |work|);
      assert work[..|work|] == work;
    }
  }

  // ---- the totals as plain sums

  function Total(xs: seq<int>): int { if xs == [] then 0 else Total(xs[..|xs| - 1]) + xs[|xs| - 1] }

  datatype Counter = BlocksScanned | PrunedZone | PrunedBloom | RowsScanned | RowsFiltered | RowsReturned

  function Reading(k: Counter, s: Stats): nat {
    match k
    case BlocksScanned => s.blocksScanned
    case PrunedZone => s.prunedZone
    case PrunedBloom => s.prunedBloom
    case RowsScanned => s.rowsScanned
    case RowsFiltered => s.rowsFiltered
    case RowsReturned => s.rowsReturned
  }

  /** Each counter of the total is the sum of that counter over the segments. */
  lemma {:induction false} TotalOfCounter(work: seq<Work>, k: Counter, xs: seq<int>)
    requires |xs| == |work| && forall i :: 0 <= i < |work| ==> xs[i] == Reading(k, work[i].counts.stats)
    ensures Reading(k, SumWork(work).stats) == Total(xs)
  {
    if work != [] { TotalOfCounter(work[..|work| - 1], k, xs[..|work| - 1]); }
  }

  /** In every state of every run, cancelled or not, the summed counters balance. */
  lemma AlwaysBalanced(work: seq<Work>, n: nat, events: seq<Event>)
    requires n > 0 && forall i :: 0 <= i < |work| ==> Balanced(work[i].counts)
    ensures Balanced(SumWorkers(Run(work, n, events).workers))
  {
    hide Run, SumWorkers, StrideCounts, Owner, Balanced;
    var s := Run(work, n, events);
    RunInv(work, n, events);
    forall t | 0 <= t < n ensures Balanced(s.workers[t].counts) {
      assert WorkerOk(work, n, s, t);
      StrideBalanced(work, n, t, s.workers[t].at);
    }
    WorkersBalanced(s.workers);
  }

  lemma {:induction false} StrideBalanced(work: seq<Work>, n: nat, t: nat, limit: nat)
    requires n > 0 && forall i :: 0 <= i < |work| ==> Balanced(work[i].counts)
    ensures Balanced(StrideCounts(work, n, t, limit))
  {
    hide Owner;
    if limit > 0 { StrideBalanced(work, n, t, limit - 1); }
  }

  lemma {:induction false} WorkersBalanced(workers: seq<Worker>)
    requires forall t :: 0 <= t < |workers| ==> Balanced(workers[t].counts)
    ensures Balanced(SumWorkers(workers))
  {
    if workers != [] { WorkersBalanced(workers[..|workers| - 1]); }
  }

  // ---- what a cancel stops

  ghost predicate InScan(w: Worker) { w.phase.Testing? || w.phase.Sending? }

  /** Where a thread can be from a cancel on: where it was, further in the segment it
      was scanning, or past that one segment; at its head it can only leave. */
  ghost predicate WindsDown(n: nat, w: Worker, now: Worker) {
    || now == w
    || (now.at == w.at && now.phase == Finished)
    || (InScan(w) && now.at == w.at && now.phase.Testing?)
    || (InScan(w) && now.at == w.at + n && (now.phase == AtHead || now.phase == Finished))
  }

  /** The batch was past its test of the flag, in the hands of a thread. */
  ghost predicate InHand(s: State, d: (nat, nat)) {
    exists t :: 0 <= t < |s.workers| && s.workers[t].at == d.0 && s.workers[t].phase == Sending(d.1)
  }

  ghost predicate StopsAfter(n: nat, s: State, now: State) {
    && now.cancelled && |now.workers| == |s.workers| && s.delivered <= now.delivered
    && (forall t :: 0 <= t < |s.workers| ==> WindsDown(n, s.workers[t], now.workers[t]))
    && (forall j :: |s.delivered| <= j < |now.delivered| ==> InHand(s, now.delivered[j]))
  }

  /** From a cancel on, whatever is scheduled, no thread starts another segment, and
      the callbacks still made are those already past their test of the flag: no
      batch twice, so at most one for each thread. */
  lemma {:induction false} CancelStops(work: seq<Work>, n: nat, events: seq<Event>, i: nat)
    requires n > 0 && i <= |events| && Run(work, n, events[..i]).cancelled
    ensures StopsAfter(n, Run(work, n, events[..i]), Run(work, n, events))
    ensures NoRepeats(Run(work, n, events).delivered)
  {
    hide NoRepeats, WorkerOk, SentOk, Covered, StopsAfter, Next;
    RunInv(work, n, events);
    if i == |events| {
      assert events[..i] == events;
      StopsAtOnce(n, Run(work, n, events));
    } else {
      var last := |events| - 1;
      assert events[..last][..i] == events[..i];
      CancelStops(work, n, events[..last], i);
      StepStops(work, n, Run(work, n, events[..i]), Run(work, n, events[..last]), events[last]);
    }
  }

  lemma StopsAtOnce(n: nat, s: State)
    requires s.cancelled
    ensures StopsAfter(n, s, s)
  {
  }

  lemma StepStops(work: seq<Work>, n: nat, s: State, was: State, e: Event)
    requires StopsAfter(n, s, was)
    ensures StopsAfter(n, s, Next(work, n, was, e))
  {
    hide Plus;
    if e.Step? && e.thread < |was.workers| {
      var t := e.thread;
      assert WindsDown(n, s.workers[t], was.workers[t]);
    }
  }

  // ---- the work of one segment is what SegmentScanner does

  ghost predicate ScansTo(hash: B.Hash, seg: Segment, p: Pred, ctx: ScanContext, w: Work)
    requires ValidSegment(seg) && Runnable(p, seg) && ValidContext(ctx)
  {
    && (exists starts: seq<nat> :: Delivers(seg, w.batches, starts, KeptRows(hash, seg, p, ctx, seg.numRows)))
    && w.counts.pruned == PrunedRows(hash, seg, p, ctx, seg.numRows)
    && CountsBlocks(w.counts.stats, NO_STATS, hash, seg, p, ctx, Z.NumBlocks(ctx.blockSize, seg.numRows))
    && Accounts(w.counts.stats, NO_STATS, seg.numRows,
                |KeptRows(hash, seg, p, ctx, seg.numRows)|, w.counts.pruned)
  }

  /** The body of a thread's loop: one segment, scanned. */
  method ScanSegment(hash: B.Hash, seg: Segment, p: Pred, ctx: ScanContext) returns (batches: seq<Batch>, stats: Stats)
    requires ValidSegment(seg) && Runnable(p, seg) && ValidContext(ctx)
    ensures ScansTo(hash, seg, p, ctx, Work(batches, Counts(stats, PrunedRows(hash, seg, p, ctx, seg.numRows))))
  {
    hide Delivers, KeptRows, PrunedRows, ValidSegment, Runnable, Accounts, CountsBlocks;
    var scanner := new SegmentScanner(seg, ctx, hash);
    ghost var starts: seq<nat>;
    batches, starts := scanner.Scan(p);
    stats := scanner.stats;
  }

  /** The work of a segment that a sound chain scans with matching indexes. */
  ghost predicate ExactWork(hash: B.Hash, seg: Segment, ch: Chain, ctx: ScanContext, w: Work) {
    && ValidSegment(seg) && ValidContext(ctx) && ChainFits(ch, seg.types)
    && IndexesMatch(hash, seg, ch.first, ctx) && Sound(seg.types, ch, ctx)
    && (ChainRunnable(seg, ch); ScansTo(hash, seg, ChainPred(ch), ctx, w))
  }

  /** What a segment's batches hold: exactly the rows of the row-by-row filter. */
  ghost predicate HoldsNaiveRows(seg: Segment, ch: Chain, batches: seq<Batch>)
    requires ValidSegment(seg)
  {
    exists starts: seq<nat> :: Delivers(seg, batches, starts, NaiveRows(seg, ch))
  }

  lemma ExactWorkHolds(hash: B.Hash, seg: Segment, ch: Chain, ctx: ScanContext, w: Work)
    requires ExactWork(hash, seg, ch, ctx, w)
    ensures HoldsNaiveRows(seg, ch, w.batches) && Balanced(w.counts)
  {
    hide ValidSegment, Runnable, IndexesMatch, Sound, ChainFits, Delivers, KeptRows, NaiveRows, ChainPred, PrunedRows;
    ChainRunnable(seg, ch);
    ScanExact(hash, seg, ch, ctx);
  }

  // ---- the totals of a parallel scan, segment by segment

  /** What the counters of a segment's scan read, in terms of its rows. */
  ghost predicate CountersOf(hash: B.Hash, seg: Segment, ch: Chain, ctx: ScanContext, s: Stats)
    requires ValidSegment(seg) && ValidContext(ctx) && ch.first.column < |seg.columns|
  {
    var c, pred, v := ch.first.column, Cmp(ch.first.op), ch.first.value;
    && seg.blooms[c].numBits > 0
    && s.blocksScanned == Z.NumBlocks(ctx.blockSize, seg.numRows)
    && s.rowsScanned == seg.numRows && s.rowsReturned == |NaiveRows(seg, ch)|
    && s.prunedZone == ZoneSkips(seg, ctx, c, pred, v)
    && s.prunedBloom == BloomSkips(hash, seg, ctx, c, pred, v)
    && s.rowsFiltered == seg.numRows - RowsSkipped(hash, seg, ctx, c, pred, v) - |NaiveRows(seg, ch)|
  }

  lemma ExactCounters(hash: B.Hash, seg: Segment, ch: Chain, ctx: ScanContext, w: Work)
    requires ExactWork(hash, seg, ch, ctx, w)
    ensures ch.first.column < |seg.columns| && ch.first.column < |seg.blooms|
    ensures seg.blooms[ch.first.column].numBits > 0 && CountersOf(hash, seg, ch, ctx, w.counts.stats)
  {
    ChainRunnable(seg, ch);
    FirstTestOf(ch);
    ScanExact(hash, seg, ch, ctx);
    hide Runnable, Sound, Delivers, KeptRows, NaiveRows, ChainPred, PrunedRows, ZoneSkips, RowsSkipped;
    hide BloomSkips, Z.NumBlocks, ValidSegment, ZoneMapMatches, BloomMatches;
    ScanCounters(hash, seg, ChainPred(ch), ctx, NO_STATS, w.counts.stats, ch.first.column, Cmp(ch.first.op),
                 ch.first.value);
  }

  ghost predicate Scannable(segs: seq<Segment>, ch: Chain) {
    forall i :: 0 <= i < |segs| ==>
      ValidSegment(segs[i]) && ch.first.column < |segs[i].columns| && segs[i].blooms[ch.first.column].numBits > 0
  }

  ghost function RowsOf(segs: seq<Segment>): seq<int> { seq(|segs|, i requires 0 <= i < |segs| => segs[i].numRows) }

  ghost function BlocksOf(segs: seq<Segment>, size: nat): seq<int>
    requires size > 0
  {
    seq(|segs|, i requires 0 <= i < |segs| => Z.NumBlocks(size, segs[i].numRows))
  }

  ghost function SelectedOf(segs: seq<Segment>, ch: Chain): seq<int>
    requires Scannable(segs, ch)
  {
    seq(|segs|, i requires 0 <= i < |segs| => |NaiveRows(segs[i], ch)|)
  }

  ghost function ZoneSkipsOf(segs: seq<Segment>, ch: Chain, ctx: ScanContext): seq<int>
    requires Scannable(segs, ch) && ValidContext(ctx)
  {
    seq(|segs|, i requires 0 <= i < |segs| =>
      ZoneSkips(segs[i], ctx, ch.first.column, Cmp(ch.first.op), ch.first.value))
  }

  ghost function BloomSkipsOf(hash: B.Hash, segs: seq<Segment>, ch: Chain, ctx: ScanContext): seq<int>
    requires Scannable(segs, ch) && ValidContext(ctx)
  {
    seq(|segs|, i requires 0 <= i < |segs| =>
      BloomSkips(hash, segs[i], ctx, ch.first.column, Cmp(ch.first.op), ch.first.value))
  }

  /** The rows of unskipped blocks that the row-by-row filter rejects. */
  ghost function FilteredOf(hash: B.Hash, segs: seq<Segment>, ch: Chain, ctx: ScanContext): seq<int>
    requires Scannable(segs, ch) && ValidContext(ctx)
  {
    seq(|segs|, i requires 0 <= i < |segs| =>
      segs[i].numRows - |NaiveRows(segs[i], ch)|
      - RowsSkipped(hash, segs[i], ctx, ch.first.column, Cmp(ch.first.op), ch.first.value))
  }

  /** The totals are the plain sums, over the segments, of their rows, the rows the
      row-by-row filter selects, the other rows of unskipped blocks, their blocks,
      the blocks whose values miss the first comparison, and the remaining blocks of
      segments whose bloom filter rejects the constant. */
  ghost predicate TotalsAre(hash: B.Hash, segs: seq<Segment>, ch: Chain, ctx: ScanContext, s: Stats)
    requires Scannable(segs, ch) && ValidContext(ctx)
  {
    && s.rowsScanned == Total(RowsOf(segs))
    && s.rowsReturned == Total(SelectedOf(segs, ch))
    && s.rowsFiltered == Total(FilteredOf(hash, segs, ch, ctx))
    && s.blocksScanned == Total(BlocksOf(segs, ctx.blockSize))
    && s.prunedZone == Total(ZoneSkipsOf(segs, ch, ctx))
    && s.prunedBloom == Total(BloomSkipsOf(hash, segs, ch, ctx))
  }

  lemma TotalsOf(hash: B.Hash, segs: seq<Segment>, ch: Chain, ctx: ScanContext, work: seq<Work>)
    requires |work| == |segs| && Scannable(segs, ch) && ValidContext(ctx)
    requires forall i :: 0 <= i < |segs| ==> CountersOf(hash, segs[i], ch, ctx, work[i].counts.stats)
    ensures TotalsAre(hash, segs, ch, ctx, SumWork(work).stats)
  {
    hide ValidSegment, NaiveRows, Z.NumBlocks, ZoneSkips, BloomSkips, RowsSkipped, SumWork, Total;
    TotalOfCounter(work, RowsScanned, RowsOf(segs));
    TotalOfCounter(work, RowsReturned, SelectedOf(segs, ch));
    TotalOfCounter(work, RowsFiltered, FilteredOf(hash, segs, ch, ctx));
    TotalOfCounter(work, BlocksScanned, BlocksOf(segs, ctx.blockSize));
    TotalOfCounter(work, PrunedZone, ZoneSkipsOf(segs, ch, ctx));
    TotalOfCounter(work, PrunedBloom, BloomSkipsOf(hash, segs, ch, ctx));
  }

  lemma ExactTotals(hash: B.Hash, segs: seq<Segment>, ch: Chain, ctx: ScanContext, work: seq<Work>)
    requires |work| == |segs| && ValidContext(ctx)
    requires forall i :: 0 <= i < |segs| ==> ExactWork(hash, segs[i], ch, ctx, work[i])
    ensures Scannable(segs, ch) && TotalsAre(hash, segs, ch, ctx, SumWork(work).stats)
  {
    hide ExactWork, CountersOf, TotalsAre, ValidSegment;
    forall i | 0 <= i < |segs|
      ensures ValidSegment(segs[i]) && ch.first.column < |segs[i].columns|
      ensures ch.first.column < |segs[i].blooms| && segs[i].blooms[ch.first.column].numBits > 0
      ensures CountersOf(hash, segs[i], ch, ctx, work[i].counts.stats)
    {
      ExactWorkValid(hash, segs[i], ch, ctx, work[i]);
      ExactCounters(hash, segs[i], ch, ctx, work[i]);
    }
    TotalsOf(hash, segs, ch, ctx, work);
  }

  /** The parallel scan theorem: every finished, uncancelled run over any number of
      threads delivers, batch for batch and each once, the rows that a row-by-row
      filter of every segment selects, with counters that account for every row. */
  lemma ParallelExact(hash: B.Hash, segs: seq<Segment>, ch: Chain, ctx: ScanContext, work: seq<Work>, n: nat,
                      events: seq<Event>)
    requires n > 0 && |work| == |segs| && ValidContext(ctx)
    requires forall i :: 0 <= i < |segs| ==> ExactWork(hash, segs[i], ch, ctx, work[i])
    ensures Scannable(segs, ch)
    ensures forall i :: 0 <= i < |segs| ==> ValidSegment(segs[i]) && HoldsNaiveRows(segs[i], ch, work[i].batches)
    ensures var s := Run(work, n, events);
            && AreBatches(work, s.delivered) && Balanced(SumWorkers(s.workers))
            && (AllFinished(s) && !s.cancelled ==>
                  && multiset(Output(work, s.delivered)) == multiset(SequentialOutput(work))
                  && TotalsAre(hash, segs, ch, ctx, SumWorkers(s.workers).stats))
  {
    hide ExactWork, HoldsNaiveRows, Run, Output, SequentialOutput, SumWorkers, SumWork, AreBatches, Balanced;
    hide CountersOf, TotalsAre;
    forall i | 0 <= i < |segs|
      ensures ValidSegment(segs[i]) && HoldsNaiveRows(segs[i], ch, work[i].batches) && Balanced(work[i].counts)
    {
      ExactWorkValid(hash, segs[i], ch, ctx, work[i]);
      ExactWorkHolds(hash, segs[i], ch, ctx, work[i]);
    }
    ExactTotals(hash, segs, ch, ctx, work);
    OutputIndependent(work, n, events);
    StatsConserved(work, n, events);
    AlwaysBalanced(work, n, events);
  }

  lemma ExactWorkValid(hash: B.Hash, seg: Segment, ch: Chain, ctx: ScanContext, w: Work)
    requires ExactWork(hash, seg, ch, ctx, w)
    ensures ValidSegment(seg) && ValidContext(ctx)
  {
  }
}
