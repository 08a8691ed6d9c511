// When a scan returns exactly the rows its predicate describes: the whole
// pipeline against a row-by-row filter, and the conditions under which they agree.
module Exactness {
  import opened Types
  import opened Predicate
  import opened Chains
  import opened Scanner
  import Z = ZoneMap
  import B = Bloom

  /** The reference: row r is selected when the chain's meaning holds of it. */
  ghost function NaiveMask(seg: Segment, ch: Chain): (m: seq<bool>)
    requires ValidSegment(seg)
    ensures |m| == seg.numRows && forall r :: 0 <= r < seg.numRows ==> m[r] == ChainValue(ch, RowAt(seg, r))
  {
    seq(seg.numRows, r requires 0 <= r < seg.numRows => ChainValue(ch, RowAt(seg, r)))
  }

  ghost function NaiveRows(seg: Segment, ch: Chain): seq<nat>
    requires ValidSegment(seg)
  {
    Ids(NaiveMask(seg, ch), 0)
  }

  /** The chain is over the schema: columns exist and constants are 64-bit. */
  ghost predicate ChainFits(ch: Chain, types: seq<DataType>) {
    && ChainColumnsBelow(ch, |types|) && 1 + |ch.links| <= TWO_32 && IsInt64(ch.first.value)
    && forall i :: 0 <= i < |ch.links| ==> IsInt64(ch.links[i].c.value)
  }

  ghost predicate TablesFit(g: Program, n: nat) {
    && (forall i :: 0 <= i < |g.columnIndices| ==> g.columnIndices[i] < n)
    && forall i :: 0 <= i < |g.constants| ==> IsInt64(g.constants[i])
  }

  lemma {:induction false} ChainTablesFit(ch: Chain, n: nat)
    requires ChainColumnsBelow(ch, n) && IsInt64(ch.first.value)
    requires forall i :: 0 <= i < |ch.links| ==> IsInt64(ch.links[i].c.value)
    ensures TablesFit(ChainPred(ch).program, n)
    decreases |ch.links|
  {
    hide AddLink, AddNots;
    if ch.links == [] {
      AddNotsShape(AddComparison(EMPTY_PRED, ch.first), ch.nots);
    } else {
      ChainTablesFit(Shorter(ch), n);
      AddLinkShape(ChainPred(Shorter(ch)), LastLink(ch));
    }
  }

  lemma ChainRunnable(seg: Segment, ch: Chain)
    requires ValidSegment(seg) && ChainFits(ch, seg.types)
    ensures Runnable(ChainPred(ch), seg)
  {
    hide ChainPred, Defined, ChainValue;
    ChainTables(ch);
    ChainTablesFit(ch, |seg.columns|);
    forall r | 0 <= r < seg.numRows ensures Defined(ChainPred(ch).program, RowAt(seg, r)) {
      InfixCorrect(ch, RowAt(seg, r));
    }
  }

  lemma FirstTestOf(ch: Chain)
    ensures var p := ChainPred(ch);
            && HasFirstTest(p) && FirstColumn(p) == ch.first.column && p.program.constants[0] == ch.first.value
            && p.columnPredicates[0] == Cmp(ch.first.op) && (FastPath(p) <==> ch.links == [])
  {
    hide ChainPred;
    ChainTables(ch);
  }

  /** The comparison as pruning and the mask make it: the constant truncated to
      its column's type. */
  function Narrow(types: seq<DataType>, c: Comparison): Comparison
    requires c.column < |types|
  {
    c.(value := Wrap(types[c.column], c.value))
  }

  // ---- the mask is the interpreter

  /** The fast path refines the slow one: for a single comparison whose constant
      fits its column, the block mask is the interpreter run on every widened row,
      complemented kernels included. */
  lemma FastPathRefinesInterpreter(seg: Segment, c: Comparison, r: nat)
    requires ValidSegment(seg) && ChainFits(Chain(c, 0, []), seg.types) && r < seg.numRows
    requires InRange(seg.types[c.column], c.value)
    ensures Runnable(ChainPred(Chain(c, 0, [])), seg)
    ensures RowTest(seg, ChainPred(Chain(c, 0, [])), r) == Eval(ChainPred(Chain(c, 0, [])).program, RowAt(seg, r))
  {
    hide Eval, Defined, ChainPred;
    var ch := Chain(c, 0, []);
    ChainRunnable(seg, ch);
    FirstTestOf(ch);
    InfixCorrect(ch, RowAt(seg, r));
  }

  /** What the scan tests on a row of an unpruned block. A single comparison is
      taken narrowed, without its Nots. */
  lemma RowTestOf(seg: Segment, ch: Chain, r: nat)
    requires ValidSegment(seg) && ChainFits(ch, seg.types) && r < seg.numRows
    ensures Runnable(ChainPred(ch), seg)
    ensures RowTest(seg, ChainPred(ch), r)
         == if ch.links == [] then Holds(Narrow(seg.types, ch.first), RowAt(seg, r)) else ChainValue(ch, RowAt(seg, r))
  {
    hide Eval, Defined, ChainPred;
    ChainRunnable(seg, ch);
    FirstTestOf(ch);
    InfixCorrect(ch, RowAt(seg, r));
  }

  // ---- pruning

  /** The indexes the first comparison consults match the data: its column's zone
      map was built with the scan's block size (or is absent), and for an equality
      every stored value is in the column's bloom filter. */
  ghost predicate IndexesMatch(hash: B.Hash, seg: Segment, first: Comparison, ctx: ScanContext)
    requires ValidSegment(seg) && first.column < |seg.columns|
  {
    var c := first.column;
    && (ctx.zonePruning ==> ZoneMapMatches(seg.zoneMaps[c], seg.columns[c], ctx.blockSize))
    && (ctx.bloomPruning && first.op == CmpOp.Eq ==> BloomMatches(hash, seg.blooms[c], seg.types[c], seg.columns[c]))
  }

  ghost predicate ZoneMapMatches(zm: Z.Map, column: seq<int>, blockSize: nat) {
    zm.entries == [] || (zm.blockRows == blockSize && Z.BuiltFrom(zm, column, []))
  }

  ghost predicate BloomMatches(hash: B.Hash, f: B.Filter, t: DataType, column: seq<int>) {
    f.numBits > 0 && forall r :: 0 <= r < |column| && InRange(t, column[r]) ==>
        B.Contains(hash, f, B.KeyOf(t, column[r]))
  }

  /** The keys agree exactly on the truncated constant, and only if the truncation
      is not felt by the 64-bit probe. */
  lemma KeyMatches(t: DataType, r: int, v: int)
    requires InRange(t, r) && IsInt64(v)
    ensures B.KeyOf(t, r) == ProbeKey(v) <==> r == Wrap(t, v) && ProbeReaches(t, v)
  {
  }

  predicate ProbeReaches(t: DataType, v: int) { t.Int64? || 0 <= v < TWO_32 }

  /** A pruned block holds no row on which the narrowed first comparison is true,
      unless the bloom probe cannot reach the column's keys. */
  lemma PruningKeepsFirstMatches(hash: B.Hash, seg: Segment, ch: Chain, ctx: ScanContext, r: nat)
    requires ValidSegment(seg) && ValidContext(ctx) && ChainFits(ch, seg.types)
    requires IndexesMatch(hash, seg, ch.first, ctx)
    requires r < seg.numRows && Holds(Narrow(seg.types, ch.first), RowAt(seg, r))
    requires !ProbeMisses(seg.types, ch, ctx)
    ensures !Pruned(hash, seg, ChainPred(ch), ctx, Z.BlockOf(ctx.blockSize, r))
  {
    hide ChainPred, Z.BuiltFrom, Z.ShouldScan, B.Contains, Z.BlockOf, B.WellFormed, Wrap;
    FirstTestOf(ch);
    var c := ch.first.column;
    var v := Wrap(seg.types[c], ch.first.value);
    var b := Z.BlockOf(ctx.blockSize, r);
    if PrunedByZone(seg, ChainPred(ch), ctx, b) {
      EmptyMapScans(seg.zoneMaps[c], b, Cmp(ch.first.op), v);
      Z.BlocksPartition(ctx.blockSize, seg.numRows, r, b);
      Z.PrunedBlockHasNoMatch(seg.zoneMaps[c], seg.columns[c], b, ch.first.op, v, r);
    }
    KeyMatches(seg.types[c], seg.columns[c][r], ch.first.value);
  }

  lemma EmptyMapScans(zm: Z.Map, b: nat, pred: PredicateType, v: int)
    ensures zm.entries == [] ==> Z.ShouldScan(zm, b, pred, v)
  {
  }

  // ---- exactness

  ghost predicate TypedRow(types: seq<DataType>, row: seq<int>) {
    |row| == |types| && forall c :: 0 <= c < |types| ==> InRange(types[c], row[c])
  }

  /** Whenever the chain holds, so does its first comparison as pruning sees it. */
  ghost predicate ImpliesFirst(types: seq<DataType>, ch: Chain)
    requires ch.first.column < |types|
  {
    forall row :: TypedRow(types, row) && ChainValue(ch, row) ==> Holds(Narrow(types, ch.first), row)
  }

  ghost predicate Unsatisfiable(types: seq<DataType>, ch: Chain) {
    forall row :: TypedRow(types, row) ==> !ChainValue(ch, row)
  }

  /** The pruning flags in effect can consult the first comparison. */
  predicate MayPrune(ch: Chain, ctx: ScanContext) {
    ctx.zonePruning || (ctx.bloomPruning && ch.first.op == CmpOp.Eq)
  }

  /** An equality constant looked up in a bloom filter whose keys it cannot reach:
      negative, or wider than 32 bits, on an Int32 column. */
  predicate ProbeMisses(types: seq<DataType>, ch: Chain, ctx: ScanContext)
    requires ch.first.column < |types|
  {
    ctx.bloomPruning && ch.first.op == CmpOp.Eq && !ProbeReaches(types[ch.first.column], ch.first.value)
  }

  /** When a lone comparison, truncated and stripped of its Nots, still answers as
      written: an even number of Nots on a constant that fits; otherwise only where
      both the comparison and its truncation are the same constant answer. */
  predicate SingleAgrees(t: DataType, op: CmpOp, v: int, nots: nat) {
    if InRange(t, v) then nots % 2 == 0
    else
      var w, low, high := Wrap(t, v), -HalfRange(t), HalfRange(t) - 1;
      match op
      case Eq => false
      case Ne => false
      case Lt => w == low && !Flip(v > 0, nots)
      case Le => w == high && Flip(v > 0, nots)
      case Gt => w == high && !Flip(v < 0, nots)
      case Ge => w == low && Flip(v < 0, nots)
  }

  /** The condition for exactness, in terms of the chain and the flags. */
  ghost predicate Sound(types: seq<DataType>, ch: Chain, ctx: ScanContext)
    requires ch.first.column < |types|
  {
    && (ch.links == [] ==> SingleAgrees(types[ch.first.column], ch.first.op, ch.first.value, ch.nots))
    && (MayPrune(ch, ctx) ==> ImpliesFirst(types, ch))
    && (ProbeMisses(types, ch, ctx) ==> Unsatisfiable(types, ch))
  }

  /** One value x of the column: the comparison as written against its truncation. */
  predicate SameAnswer(t: DataType, op: CmpOp, v: int, nots: nat, x: int) {
    Flip(Compare(op, x, v), nots) == Compare(op, x, Wrap(t, v))
  }

  lemma AgreesEverywhere(t: DataType, op: CmpOp, v: int, nots: nat, x: int)
    requires SingleAgrees(t, op, v, nots) && InRange(t, x)
    ensures SameAnswer(t, op, v, nots, x)
  {
  }

  lemma DisagreesSomewhere(t: DataType, op: CmpOp, v: int, nots: nat)
    requires forall x :: InRange(t, x) ==> SameAnswer(t, op, v, nots, x)
    ensures SingleAgrees(t, op, v, nots)
  {
    var w := Wrap(t, v);
    assert SameAnswer(t, op, v, nots, w);
    assert SameAnswer(t, op, v, nots, -HalfRange(t));
    assert SameAnswer(t, op, v, nots, HalfRange(t) - 1);
    hide SingleAgrees, Wrap;
    EdgesDecide(t, op, v, nots);
  }

  lemma EdgesDecide(t: DataType, op: CmpOp, v: int, nots: nat)
    requires SameAnswer(t, op, v, nots, Wrap(t, v))
    requires SameAnswer(t, op, v, nots, -HalfRange(t)) && SameAnswer(t, op, v, nots, HalfRange(t) - 1)
    ensures SingleAgrees(t, op, v, nots)
  {
  }

  ghost predicate ScanIsExact(hash: B.Hash, seg: Segment, ch: Chain, ctx: ScanContext)
    requires ValidSegment(seg) && ValidContext(ctx) && ChainFits(ch, seg.types)
  {
    ChainRunnable(seg, ch);
    KeptRows(hash, seg, ChainPred(ch), ctx, seg.numRows) == NaiveRows(seg, ch)
  }

  lemma KeptIsNaive(hash: B.Hash, seg: Segment, ch: Chain, ctx: ScanContext, r: nat)
    requires ValidSegment(seg) && ValidContext(ctx) && ChainFits(ch, seg.types)
    requires IndexesMatch(hash, seg, ch.first, ctx) && Sound(seg.types, ch, ctx) && r < seg.numRows
    ensures Runnable(ChainPred(ch), seg)
    ensures Kept(hash, seg, ChainPred(ch), ctx, r) == ChainValue(ch, RowAt(seg, r))
  {
    hide RowTest, ChainPred, Runnable, IndexesMatch, SingleAgrees, Wrap, Compare;
    ChainRunnable(seg, ch);
    RowTestOf(seg, ch, r);
    var c, f := ch.first.column, ch.first;
    if ch.links == [] { AgreesEverywhere(seg.types[c], f.op, f.value, ch.nots, seg.columns[c][r]); }
    assert TypedRow(seg.types, RowAt(seg, r));
    if ChainValue(ch, RowAt(seg, r)) {
      var b := Z.BlockOf(ctx.blockSize, r);
      if MayPrune(ch, ctx) {
        PruningKeepsFirstMatches(hash, seg, ch, ctx, r);
      } else {
        NeverPruned(hash, seg, ch, ctx, b);
      }
    }
  }

  lemma NeverPruned(hash: B.Hash, seg: Segment, ch: Chain, ctx: ScanContext, b: nat)
    requires !MayPrune(ch, ctx)
    ensures !Pruned(hash, seg, ChainPred(ch), ctx, b)
  {
    hide ChainPred;
    FirstTestOf(ch);
  }

  /** The scan theorem: for every integer segment, block size and setting of the
      pruning flags, the rows delivered are exactly the rows of the filter. */
  lemma ScanExact(hash: B.Hash, seg: Segment, ch: Chain, ctx: ScanContext)
    requires ValidSegment(seg) && ValidContext(ctx) && ChainFits(ch, seg.types)
    requires IndexesMatch(hash, seg, ch.first, ctx) && Sound(seg.types, ch, ctx)
    ensures ScanIsExact(hash, seg, ch, ctx)
  {
    hide Kept, ChainPred, ChainValue, Runnable, ValidSegment, Ids, IndexesMatch, Sound;
    ChainRunnable(seg, ch);
    forall r | 0 <= r < seg.numRows
      ensures KeptMask(hash, seg, ChainPred(ch), ctx, seg.numRows)[r] == NaiveMask(seg, ch)[r]
    {
      KeptIsNaive(hash, seg, ch, ctx, r);
    }
    assert KeptMask(hash, seg, ChainPred(ch), ctx, seg.numRows) == NaiveMask(seg, ch);
  }

  /** And-only chains without Nots imply their first comparison, so every flag is
      safe for them when its constant fits (and a bloom probe can reach it). */
  lemma {:induction false} AndChainImpliesFirst(ch: Chain, row: seq<int>)
    requires ch.nots == 0
    requires forall i :: 0 <= i < |ch.links| ==> ch.links[i].isAnd && ch.links[i].pre == 0 && ch.links[i].post == 0
    ensures ChainValue(ch, row) ==> Holds(ch.first, row)
    decreases |ch.links|
  {
    if ch.links != [] { AndChainImpliesFirst(Shorter(ch), row); }
  }

  // ---- the condition is necessary: one-row segments

  function OneRowEntry(v: int): Z.Entry { Z.Entry(v, v, 0, 0, 0, 1, true, false) }

  function OneRowSegment(types: seq<DataType>, row: seq<int>, blockSize: nat, blooms: seq<B.Filter>): Segment
    requires |row| == |types| == |blooms|
  {
    Segment(1, types, seq(|row|, c requires 0 <= c < |row| => [row[c]]),
            seq(|row|, c requires 0 <= c < |row| => Z.Map([OneRowEntry(row[c])], blockSize)), blooms)
  }

  lemma OneRowBuilt(v: int, blockSize: nat)
    requires blockSize > 0
    ensures Z.BuiltFrom(Z.Map([OneRowEntry(v)], blockSize), [v], [])
  {
    Z.BlockCount(blockSize, 1, 0);
    Z.BlockCount(blockSize, 1, 1);
    assert [v][0..1] == [v];
    Z.ConstantBlock([v], v);
    assert Z.BlockSummarised(OneRowEntry(v), blockSize, [v], [], 0);
  }

  lemma OneRowValid(types: seq<DataType>, row: seq<int>, ch: Chain, ctx: ScanContext, blooms: seq<B.Filter>)
    requires TypedRow(types, row) && ValidContext(ctx) && ChainFits(ch, types)
    requires BloomsHold(types, row, ch.first.column, blooms)
    ensures var seg := OneRowSegment(types, row, ctx.blockSize, blooms);
            && ValidSegment(seg) && IndexesMatch(B.MURMUR, seg, ch.first, ctx) && RowAt(seg, 0) == row
  {
    hide B.Contains, Z.BuiltFrom, B.WellFormed;
    OneRowBuilt(row[ch.first.column], ctx.blockSize);
  }

  /** Well-formed filters, the one on column c holding the row's value. */
  ghost predicate BloomsHold(types: seq<DataType>, row: seq<int>, c: nat, blooms: seq<B.Filter>) {
    && c < |row| == |types| == |blooms| && InRange(types[c], row[c])
    && (forall i :: 0 <= i < |blooms| ==> B.WellFormed(blooms[i]) && blooms[i].numBits > 0)
    && B.Contains(B.MURMUR, blooms[c], B.KeyOf(types[c], row[c]))
  }

  lemma OneRowExact(hash: B.Hash, seg: Segment, ch: Chain, ctx: ScanContext)
    requires ValidSegment(seg) && seg.numRows == 1 && ValidContext(ctx) && ChainFits(ch, seg.types)
    requires ScanIsExact(hash, seg, ch, ctx)
    ensures Runnable(ChainPred(ch), seg)
    ensures Kept(hash, seg, ChainPred(ch), ctx, 0) == ChainValue(ch, RowAt(seg, 0))
  {
    hide Kept, ChainPred, ChainValue, Runnable;
    ChainRunnable(seg, ch);
    var kept, naive := KeptMask(hash, seg, ChainPred(ch), ctx, 1), NaiveMask(seg, ch);
    IdsMeaning(kept, 0);
    IdsMeaning(naive, 0);
    assert 0 + 0 in Ids(kept, 0) <==> kept[0];
    assert 0 + 0 in Ids(naive, 0) <==> naive[0];
  }

  /** Exact on every segment over this schema whose indexes match its data, with
      the hash the filters use. */
  ghost predicate ExactForAll(types: seq<DataType>, ch: Chain, ctx: ScanContext)
    requires ValidContext(ctx) && ChainFits(ch, types)
  {
    forall seg | ValidSegment(seg) && seg.types == types && IndexesMatch(B.MURMUR, seg, ch.first, ctx) ::
      ScanIsExact(B.MURMUR, seg, ch, ctx)
  }

  /** What exactness says of one row. */
  lemma ExactOnRow(types: seq<DataType>, ch: Chain, ctx: ScanContext, row: seq<int>, blooms: seq<B.Filter>)
    requires ValidContext(ctx) && ChainFits(ch, types) && ExactForAll(types, ch, ctx)
    requires TypedRow(types, row) && BloomsHold(types, row, ch.first.column, blooms)
    ensures var seg := OneRowSegment(types, row, ctx.blockSize, blooms);
            ChainValue(ch, row) ==
              (!Pruned(B.MURMUR, seg, ChainPred(ch), ctx, 0)
               && if ch.links == [] then Holds(Narrow(types, ch.first), row) else ChainValue(ch, row))
  {
    hide ChainPred, ChainValue, RowTest, Runnable, Pruned, ScanIsExact, IndexesMatch, B.Contains, B.WellFormed, Narrow;
    var seg := OneRowSegment(types, row, ctx.blockSize, blooms);
    OneRowValid(types, row, ch, ctx, blooms);
    OneRowExact(B.MURMUR, seg, ch, ctx);
    RowTestOf(seg, ch, 0);
    Z.BlocksPartition(ctx.blockSize, 1, 0, 0);
  }

  function FullBlooms(n: nat): (r: seq<B.Filter>)
    ensures |r| == n && forall c :: 0 <= c < n ==> r[c] == B.FULL
  {
    seq(n, _ => B.FULL)
  }

  lemma FullBloomsHold(types: seq<DataType>, row: seq<int>, c: nat)
    requires TypedRow(types, row) && c < |types|
    ensures BloomsHold(types, row, c, FullBlooms(|types|))
  {
    B.FullContains(B.MURMUR, B.KeyOf(types[c], row[c]));
  }

  /** The one-row zone map answers the narrowed comparison exactly. */
  lemma OneRowAnswers(ch: Chain, types: seq<DataType>, row: seq<int>, ctx: ScanContext)
    requires ChainFits(ch, types) && TypedRow(types, row)
    ensures Z.ShouldScan(Z.Map([OneRowEntry(row[ch.first.column])], ctx.blockSize), 0, Cmp(ch.first.op),
                         Wrap(types[ch.first.column], ch.first.value))
        <==> Holds(Narrow(types, ch.first), row)
  {
  }

  /** With full filters, a lone row is kept exactly when it passes its test and
      pruning by zone map does not exclude it. */
  lemma ZoneDecides(types: seq<DataType>, ch: Chain, ctx: ScanContext, row: seq<int>)
    requires ValidContext(ctx) && ChainFits(ch, types) && TypedRow(types, row)
    ensures Pruned(B.MURMUR, OneRowSegment(types, row, ctx.blockSize, FullBlooms(|types|)), ChainPred(ch), ctx, 0)
       <==> ctx.zonePruning && !Holds(Narrow(types, ch.first), row)
  {
    hide ChainPred, Holds, B.Contains, Narrow;
    FirstTestOf(ch);
    OneRowAnswers(ch, types, row, ctx);
    B.FullContains(B.MURMUR, ProbeKey(ch.first.value));
  }

  /** Exactness on one row with full filters. */
  lemma ExactMeansAgreement(types: seq<DataType>, ch: Chain, ctx: ScanContext, row: seq<int>)
    requires ValidContext(ctx) && ChainFits(ch, types) && ExactForAll(types, ch, ctx) && TypedRow(types, row)
    ensures ch.links == [] ==> ChainValue(ch, row) == Holds(Narrow(types, ch.first), row)
    ensures ctx.zonePruning && ChainValue(ch, row) ==> Holds(Narrow(types, ch.first), row)
  {
    hide ChainPred, Holds, ExactForAll, BloomsHold, ChainValue, Pruned, Narrow;
    FullBloomsHold(types, row, ch.first.column);
    ExactOnRow(types, ch, ctx, row, FullBlooms(|types|));
    ZoneDecides(types, ch, ctx, row);
  }

  /** A lone comparison must answer as written after truncation and without Nots. */
  lemma SingleMustAgree(types: seq<DataType>, ch: Chain, ctx: ScanContext)
    requires ValidContext(ctx) && ChainFits(ch, types) && ExactForAll(types, ch, ctx)
    ensures ch.links == [] ==> SingleAgrees(types[ch.first.column], ch.first.op, ch.first.value, ch.nots)
  {
    hide ExactForAll, SingleAgrees, Wrap, Compare;
    var c, f := ch.first.column, ch.first;
    if ch.links == [] {
      forall x | InRange(types[c], x) ensures SameAnswer(types[c], f.op, f.value, ch.nots, x) {
        var row := seq(|types|, _ => 0)[c := x];
        ExactMeansAgreement(types, ch, ctx, row);
      }
      DisagreesSomewhere(types[c], f.op, f.value, ch.nots);
    }
  }

  /** A row that matches without its first comparison is lost to zone pruning. */
  lemma ZonePruningNeedsFirst(types: seq<DataType>, ch: Chain, ctx: ScanContext, row: seq<int>)
    requires ValidContext(ctx) && ChainFits(ch, types) && ExactForAll(types, ch, ctx) && ctx.zonePruning
    requires TypedRow(types, row) && ChainValue(ch, row)
    ensures Holds(Narrow(types, ch.first), row)
  {
    hide ExactForAll, ChainValue, Holds, Narrow;
    ExactMeansAgreement(types, ch, ctx, row);
  }

  /** A row whose bloom key is not the probed key is lost to bloom pruning. */
  lemma BloomPruningNeedsKey(types: seq<DataType>, ch: Chain, ctx: ScanContext, row: seq<int>)
    requires ValidContext(ctx) && ChainFits(ch, types) && ExactForAll(types, ch, ctx)
    requires ctx.bloomPruning && ch.first.op == CmpOp.Eq
    requires TypedRow(types, row) && ChainValue(ch, row)
    ensures B.KeyOf(types[ch.first.column], row[ch.first.column]) == ProbeKey(ch.first.value)
  {
    hide ChainPred, Holds, ExactForAll, ChainValue, B.Contains, B.WellFormed, B.Holding, Narrow, Wrap;
    var c := ch.first.column;
    var k, probe := B.KeyOf(types[c], row[c]), ProbeKey(ch.first.value);
    if k != probe {
      B.SeparatingFilter(k, probe);
      var n :| 2 <= n <= 64 && B.Separates(B.Holding(n, k), k, probe);
      B.HoldingGeometry(n, k);
      var blooms := FullBlooms(|types|)[c := B.Holding(n, k)];
      FullBloomsHold(types, row, c);
      assert BloomsHold(types, row, c, blooms);
      FirstTestOf(ch);
      ExactOnRow(types, ch, ctx, row, blooms);
    }
  }

  /** The scan is exact on every segment over a schema if and only if: a lone
      comparison answers as written after truncation and without its Nots, the
      chain implies its narrowed first comparison whenever pruning can consult it,
      and a bloom probe that cannot reach the column's keys never matches at all. */
  lemma ExactIffSound(types: seq<DataType>, ch: Chain, ctx: ScanContext)
    requires ValidContext(ctx) && ChainFits(ch, types)
    ensures ExactForAll(types, ch, ctx) <==> Sound(types, ch, ctx)
  {
    if Sound(types, ch, ctx) { SoundIsExact(types, ch, ctx); }
    if ExactForAll(types, ch, ctx) { ExactIsSound(types, ch, ctx); }
  }

  lemma SoundIsExact(types: seq<DataType>, ch: Chain, ctx: ScanContext)
    requires ValidContext(ctx) && ChainFits(ch, types) && Sound(types, ch, ctx)
    ensures ExactForAll(types, ch, ctx)
  {
    hide ScanIsExact, IndexesMatch, Sound;
    forall seg | ValidSegment(seg) && seg.types == types && IndexesMatch(B.MURMUR, seg, ch.first, ctx)
      ensures ScanIsExact(B.MURMUR, seg, ch, ctx)
    {
      ScanExact(B.MURMUR, seg, ch, ctx);
    }
  }

  lemma ExactIsSound(types: seq<DataType>, ch: Chain, ctx: ScanContext)
    requires ValidContext(ctx) && ChainFits(ch, types) && ExactForAll(types, ch, ctx)
    ensures Sound(types, ch, ctx)
  {
    hide ChainValue, ExactForAll, Wrap, SingleAgrees, ProbeKey;
    SingleMustAgree(types, ch, ctx);
    var c := ch.first.column;
    forall row | TypedRow(types, row) && ChainValue(ch, row)
      ensures MayPrune(ch, ctx) ==> Holds(Narrow(types, ch.first), row)
      ensures !ProbeMisses(types, ch, ctx)
    {
      if ctx.bloomPruning && ch.first.op == CmpOp.Eq {
        BloomPruningNeedsKey(types, ch, ctx, row);
        KeyMatches(types[c], row[c], ch.first.value);
      } else if ctx.zonePruning {
        ZonePruningNeedsFirst(types, ch, ctx, row);
      }
    }
  }

  /** `a == 1 Or b == 2` under zone pruning: blocks without a 1 in the first column
      are skipped, matches of the second test included. */
  lemma OrChainInexact(ctx: ScanContext)
    requires ValidContext(ctx) && ctx.zonePruning
    ensures var ch := Chain(Comparison(CmpOp.Eq, 0, 1), 0, [Link(false, 0, Comparison(CmpOp.Eq, 1, 2), 0)]);
            ChainFits(ch, [Int64, Int64]) && !ExactForAll([Int64, Int64], ch, ctx)
  {
    var ch := Chain(Comparison(CmpOp.Eq, 0, 1), 0, [Link(false, 0, Comparison(CmpOp.Eq, 1, 2), 0)]);
    var types, row := [Int64, Int64], [0, 2];
    assert TypedRow(types, row) && ChainValue(ch, row) && !Holds(Narrow(types, ch.first), row);
    hide ExactForAll;
    if ExactForAll(types, ch, ctx) { ZonePruningNeedsFirst(types, ch, ctx, row); }
  }

  /** A lone comparison under one Not, whatever the flags. */
  lemma SingleNotInexact(c: Comparison, ctx: ScanContext)
    requires ValidContext(ctx) && c.column == 0 && IsInt64(c.value)
    ensures ChainFits(Chain(c, 1, []), [Int64]) && !ExactForAll([Int64], Chain(c, 1, []), ctx)
  {
    hide ExactForAll;
    if ExactForAll([Int64], Chain(c, 1, []), ctx) { SingleMustAgree([Int64], Chain(c, 1, []), ctx); }
  }
}
