// The segment scan pipeline (include/columnar/scanner.h): prune blocks, test the
// surviving rows by mask or by interpreter, deliver runs of consecutive rows.
module Scanner {
  import opened Types
  import opened Predicate
  import opened Chains
  import Z = ZoneMap
  import B = Bloom

  const SCAN_BLOCK_SIZE: nat := 8192
  const MAX_RUN: nat := 4096

  datatype Segment = Segment(
    numRows: nat, types: seq<DataType>, columns: seq<seq<int>>, zoneMaps: seq<Z.Map>, blooms: seq<B.Filter>)

  datatype ScanContext = ScanContext(blockSize: nat, zonePruning: bool, bloomPruning: bool)

  datatype Stats = Stats(blocksScanned: nat, prunedZone: nat, prunedBloom: nat,
                         rowsScanned: nat, rowsFiltered: nat, rowsReturned: nat)

  const NO_STATS := Stats(0, 0, 0, 0, 0, 0)

  ghost predicate ValidSegment(seg: Segment) {
    && |seg.types| == |seg.columns| == |seg.zoneMaps| == |seg.blooms|
    && (forall c :: 0 <= c < |seg.columns| ==> |seg.columns[c]| == seg.numRows && AllInRange(seg.types[c],
        seg.columns[c]))
    && forall c :: 0 <= c < |seg.blooms| ==> B.WellFormed(seg.blooms[c])
  }

  predicate ValidContext(ctx: ScanContext) { 1 <= ctx.blockSize <= SCAN_BLOCK_SIZE }

  /** One row, every column widened to 64 bits. */
  function RowAt(seg: Segment, r: nat): (row: seq<int>)
    requires forall c :: 0 <= c < |seg.columns| ==> r < |seg.columns[c]|
    ensures |row| == |seg.columns| && forall c :: 0 <= c < |row| ==> row[c] == seg.columns[c][r]
  {
    seq(|seg.columns|, c requires 0 <= c < |seg.columns| => seg.columns[c][r])
  }

  /** The predicate indexes only columns the segment has, and its program is
      defined on every row. */
  ghost predicate Runnable(p: Pred, seg: Segment)
    requires ValidSegment(seg)
  {
    && (forall i :: 0 <= i < |p.program.columnIndices| ==> p.program.columnIndices[i] < |seg.columns|)
    && (forall i :: 0 <= i < |p.program.constants| ==> IsInt64(p.program.constants[i]))
    && (p.columnPredicates != [] ==> p.program.columnIndices != [])
    && forall r :: 0 <= r < seg.numRows ==> Defined(p.program, RowAt(seg, r))
  }

  // ---- what the scan decides about a block and a row

  predicate HasFirstTest(p: Pred) {
    p.columnPredicates != [] && p.program.constants != [] && p.program.columnIndices != []
  }

  function FirstColumn(p: Pred): nat requires HasFirstTest(p) { p.program.columnIndices[0] }

  ghost predicate PrunedByZone(seg: Segment, p: Pred, ctx: ScanContext, b: nat) {
    && ctx.zonePruning && HasFirstTest(p) && FirstColumn(p) < |seg.types| == |seg.zoneMaps|
    && !Z.ShouldScan(seg.zoneMaps[FirstColumn(p)], b, p.columnPredicates[0],
                     Wrap(seg.types[FirstColumn(p)], p.program.constants[0]))
  }

  /** The constant as the filter is probed with it: a 64-bit integer. */
  function ProbeKey(constant: int): nat { B.KeyOf(Int64, Wrap(Int64, constant)) }

  ghost predicate PrunedByBloom(hash: B.Hash, seg: Segment, p: Pred, ctx: ScanContext) {
    && ctx.bloomPruning && HasFirstTest(p) && FirstColumn(p) < |seg.blooms|
    && p.columnPredicates[0] == Cmp(CmpOp.Eq)
    && seg.blooms[FirstColumn(p)].numBits > 0
    && !B.Contains(hash, seg.blooms[FirstColumn(p)], ProbeKey(p.program.constants[0]))
  }

  ghost predicate Pruned(hash: B.Hash, seg: Segment, p: Pred, ctx: ScanContext, b: nat) {
    PrunedByZone(seg, p, ctx, b) || PrunedByBloom(hash, seg, p, ctx)
  }

  predicate FastPath(p: Pred) {
    |p.columnPredicates| == 1 && |p.program.columnIndices| == 1 && |p.program.constants| == 1
  }

  /** The block mask's answer for one value of the predicate column. */
  predicate MaskTest(t: DataType, pred: PredicateType, constant: int, v: int) {
    match pred
    case Cmp(op) => Compare(op, v, Wrap(t, constant))
    case IsNull => false
    case IsNotNull => true
  }

  ghost predicate RowTest(seg: Segment, p: Pred, r: nat)
    requires ValidSegment(seg) && Runnable(p, seg) && r < seg.numRows
  {
    if FastPath(p) then
      var c := p.program.columnIndices[0];
      MaskTest(seg.types[c], p.columnPredicates[0], p.program.constants[0], seg.columns[c][r])
    else Eval(p.program, RowAt(seg, r))
  }

  /** Row r reaches the callback: its block is not pruned and it passes its test. */
  ghost predicate Kept(hash: B.Hash, seg: Segment, p: Pred, ctx: ScanContext, r: nat)
    requires ValidSegment(seg) && Runnable(p, seg) && ValidContext(ctx) && r < seg.numRows
  {
    !Pruned(hash, seg, p, ctx, Z.BlockOf(ctx.blockSize, r)) && RowTest(seg, p, r)
  }

  // ---- selecting rows by mask

  /** The positions of the true entries, counted from base. */
  function Ids(mask: seq<bool>, base: nat): seq<nat> {
    if mask == [] then []
    else
      var n := |mask| - 1;
      Ids(mask[..n], base) + (if mask[n] then [base + n] else [])
  }

  lemma {:induction false} IdsAppend(a: seq<bool>, b: seq<bool>, base: nat)
    ensures Ids(a + b, base) == Ids(a, base) + Ids(b, base + |a|)
    decreases |b|
  {
    if b == [] {
      assert a + b == a;
    } else {
      var n := |b| - 1;
      IdsAppend(a, b[..n], base);
      assert (a + b)[..|a| + n] == a + b[..n];
    }
  }

  /** Strictly increasing, inside the mask's range, and exactly the true positions. */
  lemma {:induction false} IdsMeaning(mask: seq<bool>, base: nat)
    ensures |Ids(mask, base)| <= |mask|
    ensures forall k :: 0 <= k < |Ids(mask, base)| ==> base <= Ids(mask, base)[k] < base + |mask|
    ensures forall j, k :: 0 <= j < k < |Ids(mask, base)| ==> Ids(mask, base)[j] < Ids(mask, base)[k]
    ensures forall i :: 0 <= i < |mask| ==> (base + i in Ids(mask, base) <==> mask[i])
  {
    if mask != [] {
      var n := |mask| - 1;
      IdsMeaning(mask[..n], base);
      var front := Ids(mask[..n], base);
      if mask[n] { assert base + n in [base + n]; }
    }
  }

  lemma {:induction false} IdsShift(mask: seq<bool>, base: nat)
    ensures |Ids(mask, base)| == |Ids(mask, 0)|
    ensures forall k :: 0 <= k < |Ids(mask, 0)| ==> Ids(mask, base)[k] == base + Ids(mask, 0)[k]
  {
    if mask != [] { IdsShift(mask[..|mask| - 1], base); }
  }

  ghost function KeptMask(hash: B.Hash, seg: Segment, p: Pred, ctx: ScanContext, n: nat): (m: seq<bool>)
    requires ValidSegment(seg) && Runnable(p, seg) && ValidContext(ctx) && n <= seg.numRows
    ensures |m| == n && forall r :: 0 <= r < n ==> m[r] == Kept(hash, seg, p, ctx, r)
  {
    seq(n, r requires 0 <= r < n => Kept(hash, seg, p, ctx, r))
  }

  ghost function MatchMask(seg: Segment, p: Pred, offset: nat, count: nat): (m: seq<bool>)
    requires ValidSegment(seg) && Runnable(p, seg) && offset + count <= seg.numRows
    ensures |m| == count && forall i :: 0 <= i < count ==> m[i] == RowTest(seg, p, offset + i)
  {
    seq(count, i requires 0 <= i < count => RowTest(seg, p, offset + i))
  }

  // ---- the block mask

  class BlockFilter {
    var mask: array<bool>

    constructor ()
      ensures fresh(mask) && mask.Length == SCAN_BLOCK_SIZE && forall i :: 0 <= i < mask.Length ==> mask[i]
    {
      mask := new bool[SCAN_BLOCK_SIZE](_ => true);
    }

    method SetAll(value: bool)
      modifies mask
      ensures forall i :: 0 <= i < mask.Length ==> mask[i] == value
    {
      for i := 0 to mask.Length
        invariant forall j :: 0 <= j < i ==> mask[j] == value
      {
        mask[i] := value;
      }
    }
  }

  /** The three scalar kernels of VectorFilter. */
  method Kernel(op: CmpOp, data: seq<int>, value: int, mask: array<bool>)
    requires op in {CmpOp.Eq, CmpOp.Lt, CmpOp.Le} && |data| <= mask.Length
    modifies mask
    ensures forall i :: 0 <= i < |data| ==> mask[i] == Compare(op, data[i], value)
    ensures forall i :: |data| <= i < mask.Length ==> mask[i] == old(mask[i])
  {
    for i := 0 to |data|
      invariant forall j :: 0 <= j < i ==> mask[j] == Compare(op, data[j], value)
      invariant forall j :: i <= j < mask.Length ==> mask[j] == old(mask[j])
    {
      mask[i] :=
        if op == CmpOp.Eq then data[i] == value
        else if op == CmpOp.Lt then data[i] < value
        else data[i] <= value;
    }
  }

  method Complement(mask: array<bool>, count: nat)
    requires count <= mask.Length
    modifies mask
    ensures forall i :: 0 <= i < mask.Length ==> mask[i] == if i < count then !old(mask[i]) else old(mask[i])
  {
    for i := 0 to count
      invariant forall j :: 0 <= j < mask.Length ==> mask[j] == if j < i then !old(mask[j]) else old(mask[j])
    {
      mask[i] := !mask[i];
    }
  }

  /** Not-equal, greater and greater-or-equal are computed by complementing
      equal, less-or-equal and less. */
  method ScanBlock(t: DataType, data: seq<int>, constant: int, pred: PredicateType, filter: BlockFilter)
    requires |data| <= filter.mask.Length
    modifies filter.mask
    ensures forall i :: 0 <= i < |data| ==> filter.mask[i] == MaskTest(t, pred, constant, data[i])
  {
    if |data| == 0 { return; }
    match pred
    case IsNull => filter.SetAll(false);
    case IsNotNull => filter.SetAll(true);
    case Cmp(op) =>
      var value := Wrap(t, constant);
      hide Wrap;
      match op {
        case Eq => Kernel(CmpOp.Eq, data, value, filter.mask);
        case Lt => Kernel(CmpOp.Lt, data, value, filter.mask);
        case Le => Kernel(CmpOp.Le, data, value, filter.mask);
        case Ne => Kernel(CmpOp.Eq, data, value, filter.mask); Complement(filter.mask, |data|);
        case Gt => Kernel(CmpOp.Le, data, value, filter.mask); Complement(filter.mask, |data|);
        case Ge => Kernel(CmpOp.Lt, data, value, filter.mask); Complement(filter.mask, |data|);
      }
  }

  /** The survivors of a mask, in order. */
  method Compact(mask: array<bool>, count: nat) returns (rows: seq<nat>)
    requires count <= mask.Length
    ensures rows == Ids(mask[..count], 0)
  {
    rows := [];
    for i := 0 to count
      invariant rows == Ids(mask[..i], 0)
    {
      assert mask[..i + 1][..i] == mask[..i];
      if mask[i] { rows := rows + [i]; }
    }
  }

  // ---- the slow path

  /** Let the interpreter decide, compacting the candidate list in place. */
  method KeepEvaluated(seg: Segment, p: Pred, offset: nat, candidates: seq<nat>, interp: BytecodeInterpreter)
    returns (rows: seq<nat>)
    requires ValidSegment(seg) && Runnable(p, seg) && !FastPath(p) && interp.program == p.program
    requires offset + |candidates| <= seg.numRows && forall k :: 0 <= k < |candidates| ==> candidates[k] == k
    modifies interp
    ensures rows == Ids(MatchMask(seg, p, offset, |candidates|), 0)
  {
    hide Eval, Defined;
    ghost var mask := MatchMask(seg, p, offset, |candidates|);
    rows := candidates;
    var kept := 0;
    for k := 0 to |candidates|
      invariant kept <= k && |rows| == |candidates| && rows[k..] == candidates[k..]
      invariant rows[..kept] == Ids(mask[..k], 0)
    {
      var i := rows[k];
      assert rows[k..][0] == candidates[k..][0];
      assert mask[..k + 1][..k] == mask[..k];
      assert mask[k] == RowTest(seg, p, offset + k);
      var passes := interp.EvaluateRow(RowAt(seg, offset + i));
      assert rows[k + 1..] == rows[k..][1..];
      if passes {
        rows := rows[kept := i];
        kept := kept + 1;
        assert rows[..kept] == rows[..kept - 1] + [i];
      }
    }
    rows := rows[..kept];
    assert mask[..|candidates|] == mask;
  }

  // ---- delivery

  /** One callback: the values of n rows, column by column. */
  datatype Batch = Batch(cols: seq<seq<int>>, n: nat)

  /** The batch is a run of 1 .. MAX_RUN consecutive rows starting at s. */
  ghost predicate IsRun(seg: Segment, b: Batch, s: nat)
    requires ValidSegment(seg)
  {
    && 1 <= b.n <= MAX_RUN && s + b.n <= seg.numRows && |b.cols| == |seg.columns|
    && forall c :: 0 <= c < |b.cols| ==> b.cols[c] == seg.columns[c][s..s + b.n]
  }

  function Range(s: nat, n: nat): (r: seq<nat>)
    ensures |r| == n && forall i :: 0 <= i < n ==> r[i] == s + i
  {
    seq(n, i requires 0 <= i => s + i)
  }

  /** The row numbers of a list of runs, in order. */
  function RowsOf(batches: seq<Batch>, starts: seq<nat>): seq<nat>
    requires |batches| == |starts|
  {
    if batches == [] then []
    else
      var k := |batches| - 1;
      RowsOf(batches[..k], starts[..k]) + Range(starts[k], batches[k].n)
  }

  lemma RowsOfSnoc(a: seq<Batch>, s: seq<nat>, b: Batch, t: nat)
    requires |a| == |s|
    ensures RowsOf(a + [b], s + [t]) == RowsOf(a, s) + Range(t, b.n)
  {
    var ab, st := a + [b], s + [t];
    assert ab[..|a|] == a && st[..|a|] == s;
  }

  lemma RowsOfNone(a: seq<Batch>, s: seq<nat>)
    requires |a| == |s|
    ensures RowsOf(a, s) == RowsOf(a, s) + RowsOf([], [])
  {
  }

  lemma {:induction false} RowsOfAppend(a: seq<Batch>, s: seq<nat>, b: seq<Batch>, t: seq<nat>)
    requires |a| == |s| && |b| == |t|
    ensures RowsOf(a + b, s + t) == RowsOf(a, s) + RowsOf(b, t)
    decreases |b|
  {
    hide RowsOf, Range;
    if b == [] {
      assert a + b == a && s + t == s;
      RowsOfNone(a, s);
    } else {
      var k := |b| - 1;
      RowsOfAppend(a, s, b[..k], t[..k]);
      RowsOfSnoc(b[..k], t[..k], b[k], t[k]);
      RowsOfSnoc(a + b[..k], s + t[..k], b[k], t[k]);
      assert b == b[..k] + [b[k]] && t == t[..k] + [t[k]];
      assert a + b == (a + b[..k]) + [b[k]] && s + t == (s + t[..k]) + [t[k]];
    }
  }

  /** The callbacks deliver exactly these rows, in this order. */
  ghost predicate Delivers(seg: Segment, batches: seq<Batch>, starts: seq<nat>, rows: seq<nat>)
    requires ValidSegment(seg)
  {
    && |batches| == |starts| && RowsOf(batches, starts) == rows
    && forall k :: 0 <= k < |batches| ==> IsRun(seg, batches[k], starts[k])
  }

  lemma DeliversMore(seg: Segment, a: seq<Batch>, s: seq<nat>, rows: seq<nat>, b: seq<Batch>, t: seq<nat>,
                     more: seq<nat>)
    requires ValidSegment(seg) && Delivers(seg, a, s, rows) && Delivers(seg, b, t, more)
    ensures Delivers(seg, a + b, s + t, rows + more)
  {
    hide IsRun;
    RowsOfAppend(a, s, b, t);
  }

  lemma DeliversOne(seg: Segment, b: Batch, s: nat)
    requires ValidSegment(seg) && IsRun(seg, b, s)
    ensures Delivers(seg, [b], [s], Range(s, b.n))
  {
    hide IsRun;
    assert RowsOf([b][..0], [s][..0]) == [];
    assert RowsOf([b], [s]) == [] + Range(s, b.n);
  }

  /** One bulk read per column. */
  method ReadRun(seg: Segment, row0: nat, n: nat) returns (b: Batch)
    requires ValidSegment(seg) && 1 <= n <= MAX_RUN && row0 + n <= seg.numRows
    ensures b.n == n && IsRun(seg, b, row0)
  {
    var scratch: seq<seq<int>> := [];
    for c := 0 to |seg.columns|
      invariant |scratch| == c && forall k :: 0 <= k < c ==> scratch[k] == seg.columns[k][row0..row0 + n]
    {
      scratch := scratch + [seg.columns[c][row0..row0 + n]];
    }
    b := Batch(scratch, n);
  }

  ghost predicate Rising(rows: seq<nat>) { forall j, k :: 0 <= j < k < |rows| ==> rows[j] < rows[k] }

  function Shifted(rows: seq<nat>, offset: nat): (r: seq<nat>)
    ensures |r| == |rows| && forall k :: 0 <= k < |rows| ==> r[k] == offset + rows[k]
  {
    seq(|rows|, k requires 0 <= k < |rows| => offset + rows[k])
  }

  lemma ShiftedRun(rows: seq<nat>, offset: nat, pos: nat, runEnd: nat)
    requires pos < runEnd <= |rows|
    requires forall j :: pos <= j < runEnd ==> rows[j] == rows[pos] + (j - pos)
    ensures Shifted(rows, offset)[..runEnd] == Shifted(rows, offset)[..pos] + Range(offset + rows[pos], runEnd - pos)
    ensures Shifted(rows, offset)[..|rows|] == Shifted(rows, offset)
  {
  }

  lemma DeliversNone(seg: Segment, rows: seq<nat>, offset: nat)
    requires ValidSegment(seg)
    ensures Delivers(seg, [], [], Shifted(rows, offset)[..0])
    ensures Shifted(rows, offset)[..|rows|] == Shifted(rows, offset)
  {
  }

  /** The last batch is full, or row s does not follow it. */
  ghost predicate RunEnds(batches: seq<Batch>, starts: seq<nat>, s: nat) {
    && |batches| == |starts| > 0
    && var k := |batches| - 1; batches[k].n == MAX_RUN || starts[k] + batches[k].n != s
  }

  /** No batch could have been longer: the next one starts further on, unless the
      batch is full. */
  ghost predicate LongestRuns(batches: seq<Batch>, starts: seq<nat>) {
    && |batches| == |starts|
    && forall i :: 0 < i < |batches| ==> batches[i - 1].n == MAX_RUN || starts[i - 1] + batches[i - 1].n != starts[i]
  }

  /** The same for the batches of one block. */
  ghost predicate LongestInBlocks(batches: seq<Batch>, starts: seq<nat>, size: nat)
    requires size > 0
  {
    && |batches| == |starts|
    && forall i :: 0 < i < |batches| && Z.BlockOf(size, starts[i - 1]) == Z.BlockOf(size, starts[i]) ==>
         batches[i - 1].n == MAX_RUN || starts[i - 1] + batches[i - 1].n != starts[i]
  }

  lemma LongestMore(a: seq<Batch>, s: seq<nat>, b: seq<Batch>, t: seq<nat>, size: nat, block: nat)
    requires size > 0 && LongestInBlocks(a, s, size) && LongestRuns(b, t)
    requires forall i :: 0 <= i < |s| ==> Z.BlockOf(size, s[i]) != block
    requires forall i :: 0 <= i < |t| ==> Z.BlockOf(size, t[i]) == block
    ensures LongestInBlocks(a + b, s + t, size)
  {
    hide Z.BlockOf;
  }

  /** Group rising row numbers into maximal capped runs; deliver each once. */
  method DeliverRuns(seg: Segment, offset: nat, rows: seq<nat>, ghost count: nat)
    returns (batches: seq<Batch>, ghost starts: seq<nat>, delivered: nat)
    requires ValidSegment(seg) && Rising(rows)
    requires forall k :: 0 <= k < |rows| ==> rows[k] < count && offset + rows[k] < seg.numRows
    ensures Delivers(seg, batches, starts, Shifted(rows, offset)) && delivered == |rows|
    ensures LongestRuns(batches, starts) && forall i :: 0 <= i < |starts| ==> offset <= starts[i] < offset + count
  {
    hide IsRun, Delivers, ValidSegment, Rising;
    batches, starts, delivered := [], [], 0;
    var pos := 0;
    DeliversNone(seg, rows, offset);
    while pos < |rows|
      invariant 0 <= pos <= |rows| && delivered == pos
      invariant Delivers(seg, batches, starts, Shifted(rows, offset)[..pos])
      invariant LongestRuns(batches, starts) && forall i :: 0 <= i < |starts| ==> offset <= starts[i] < offset + count
      invariant batches != [] && pos < |rows| ==> RunEnds(batches, starts, offset + rows[pos])
    {
      var runEnd := EndOfRun(rows, pos);
      var n, row0 := runEnd - pos, offset + rows[pos];
      assert rows[runEnd - 1] == rows[pos] + (n - 1);
      var b := ReadRun(seg, row0, n);
      DeliversOne(seg, b, row0);
      DeliversMore(seg, batches, starts, Shifted(rows, offset)[..pos], [b], [row0], Range(row0, n));
      ShiftedRun(rows, offset, pos, runEnd);
      batches, starts := batches + [b], starts + [row0];
      delivered := delivered + n;
      pos := runEnd;
    }
  }

  method EndOfRun(rows: seq<nat>, pos: nat) returns (runEnd: nat)
    requires pos < |rows|
    ensures pos < runEnd <= |rows| && runEnd - pos <= MAX_RUN
    ensures forall j :: pos <= j < runEnd ==> rows[j] == rows[pos] + (j - pos)
    ensures runEnd == |rows| || runEnd - pos == MAX_RUN || rows[runEnd] != rows[runEnd - 1] + 1
  {
    runEnd := pos + 1;
    while runEnd < |rows| && rows[runEnd] == rows[runEnd - 1] + 1 && runEnd - pos < MAX_RUN
      invariant pos < runEnd <= |rows| && runEnd - pos <= MAX_RUN
      invariant forall j :: pos <= j < runEnd ==> rows[j] == rows[pos] + (j - pos)
    {
      runEnd := runEnd + 1;
    }
  }

  // ---- one block

  /** Mask or interpreter: either way, the rows of the block that pass. */
  method MatchBlock(seg: Segment, p: Pred, offset: nat, count: nat, filter: BlockFilter, interp: BytecodeInterpreter)
    returns (rows: seq<nat>)
    requires ValidSegment(seg) && Runnable(p, seg) && interp.program == p.program
    requires offset + count <= seg.numRows && count <= filter.mask.Length
    modifies filter.mask, interp
    ensures rows == Ids(MatchMask(seg, p, offset, count), 0)
  {
    hide Eval, Defined, MaskTest;
    filter.SetAll(true);
    ghost var mask := MatchMask(seg, p, offset, count);
    if FastPath(p) {
      var c := p.program.columnIndices[0];
      ScanBlock(seg.types[c], seg.columns[c][offset..offset + count], p.program.constants[0], p.columnPredicates[0],
                filter);
      assert filter.mask[..count] == mask;
    }
    rows := Compact(filter.mask, count);
    if !FastPath(p) {
      AllTrue(filter.mask[..count]);
      rows := KeepEvaluated(seg, p, offset, rows, interp);
    }
  }

  lemma {:induction false} AllTrue(mask: seq<bool>)
    requires forall i :: 0 <= i < |mask| ==> mask[i]
    ensures |Ids(mask, 0)| == |mask| && forall i :: 0 <= i < |mask| ==> Ids(mask, 0)[i] == i
  {
    if mask != [] { AllTrue(mask[..|mask| - 1]); }
  }

  // ---- the whole segment

  ghost function PrunedMask(hash: B.Hash, seg: Segment, p: Pred, ctx: ScanContext, n: nat): (m: seq<bool>)
    requires ValidContext(ctx)
    ensures |m| == n && forall r :: 0 <= r < n ==> m[r] == Pruned(hash, seg, p, ctx, Z.BlockOf(ctx.blockSize, r))
  {
    seq(n, r requires 0 <= r < n => Pruned(hash, seg, p, ctx, Z.BlockOf(ctx.blockSize, r)))
  }

  /** The number of rows in pruned blocks. */
  ghost function PrunedRows(hash: B.Hash, seg: Segment, p: Pred, ctx: ScanContext, n: nat): nat
    requires ValidContext(ctx)
  {
    |Ids(PrunedMask(hash, seg, p, ctx, n), 0)|
  }

  ghost function KeptRows(hash: B.Hash, seg: Segment, p: Pred, ctx: ScanContext, n: nat): seq<nat>
    requires ValidSegment(seg) && Runnable(p, seg) && ValidContext(ctx) && n <= seg.numRows
  {
    Ids(KeptMask(hash, seg, p, ctx, n), 0)
  }

  lemma {:induction false} AllFalse(mask: seq<bool>, base: nat)
    requires forall i :: 0 <= i < |mask| ==> !mask[i]
    ensures Ids(mask, base) == []
  {
    if mask != [] { AllFalse(mask[..|mask| - 1], base); }
  }

  /** What one block adds to the kept rows and to the pruned rows. */
  lemma BlockAdds(hash: B.Hash, seg: Segment, p: Pred, ctx: ScanContext, b: nat)
    requires ValidSegment(seg) && Runnable(p, seg) && ValidContext(ctx)
    requires Z.BlockStart(ctx.blockSize, b) < seg.numRows
    ensures var s, e := Z.BlockStart(ctx.blockSize, b), Z.BlockEnd(ctx.blockSize, seg.numRows, b);
            && s < e
            && (Pruned(hash, seg, p, ctx, b) ==> KeptRows(hash, seg, p, ctx, e) == KeptRows(hash, seg, p, ctx, s))
            && (!Pruned(hash, seg, p, ctx, b) ==>
                  KeptRows(hash, seg, p, ctx, e) == KeptRows(hash, seg, p, ctx, s) + Ids(MatchMask(seg, p, s, e - s),
                      s))
            && PrunedRows(hash, seg, p, ctx, e) == PrunedRows(hash, seg, p, ctx, s)
                 + (if Pruned(hash, seg, p, ctx, b) then e - s else 0)
  {
    hide Pruned, RowTest, Ids, Z.BlockOf;
    var s, e := Z.BlockStart(ctx.blockSize, b), Z.BlockEnd(ctx.blockSize, seg.numRows, b);
    forall r | s <= r < e ensures Z.BlockOf(ctx.blockSize, r) == b {
      Z.BlocksPartition(ctx.blockSize, seg.numRows, r, b);
    }
    var kept, gone := KeptMask(hash, seg, p, ctx, e), PrunedMask(hash, seg, p, ctx, e);
    assert kept == KeptMask(hash, seg, p, ctx, s) + kept[s..];
    assert gone == PrunedMask(hash, seg, p, ctx, s) + gone[s..];
    IdsAppend(KeptMask(hash, seg, p, ctx, s), kept[s..], 0);
    IdsAppend(PrunedMask(hash, seg, p, ctx, s), gone[s..], 0);
    if Pruned(hash, seg, p, ctx, b) {
      AllFalse(kept[s..], s);
      AllTrue(gone[s..]);
      IdsShift(gone[s..], s);
    } else {
      AllFalse(gone[s..], s);
      assert kept[s..] == MatchMask(seg, p, s, e - s);
    }
  }

  /** The first b blocks that the zone map skips. */
  ghost function ZoneBlocks(seg: Segment, p: Pred, ctx: ScanContext, b: nat): nat {
    if b == 0 then 0 else ZoneBlocks(seg, p, ctx, b - 1) + if PrunedByZone(seg, p, ctx, b - 1) then 1 else 0
  }

  /** The first b blocks that pass the zone map and that the bloom filter skips. */
  ghost function BloomBlocks(hash: B.Hash, seg: Segment, p: Pred, ctx: ScanContext, b: nat): nat {
    if b == 0 then 0
    else
      var skipped := Pruned(hash, seg, p, ctx, b - 1) && !PrunedByZone(seg, p, ctx, b - 1);
      BloomBlocks(hash, seg, p, ctx, b - 1) + if skipped then 1 else 0
  }

  /** The block counters after b blocks. */
  ghost predicate CountsBlocks(after: Stats, before: Stats, hash: B.Hash, seg: Segment, p: Pred, ctx: ScanContext,
                               b: nat) {
    && after.blocksScanned == before.blocksScanned + b
    && after.prunedZone == before.prunedZone + ZoneBlocks(seg, p, ctx, b)
    && after.prunedBloom == before.prunedBloom + BloomBlocks(hash, seg, p, ctx, b)
  }

  /** What a scan added to the row counters: every scanned row was returned,
      filtered or pruned, exactly one of them. */
  predicate Accounts(after: Stats, before: Stats, rows: nat, returned: nat, pruned: nat) {
    && after.rowsScanned == before.rowsScanned + rows
    && after.rowsReturned == before.rowsReturned + returned
    && rows == returned + (after.rowsFiltered - before.rowsFiltered) + pruned
  }

  /** An unpruned block: match its rows and deliver them. */
  method ProcessBlock(seg: Segment, p: Pred, offset: nat, count: nat, filter: BlockFilter, interp: BytecodeInterpreter)
    returns (batches: seq<Batch>, ghost starts: seq<nat>, delivered: nat)
    requires ValidSegment(seg) && Runnable(p, seg) && interp.program == p.program
    requires offset + count <= seg.numRows && count <= filter.mask.Length
    modifies filter.mask, interp
    ensures Delivers(seg, batches, starts, Ids(MatchMask(seg, p, offset, count), offset))
    ensures delivered == |Ids(MatchMask(seg, p, offset, count), offset)| <= count
    ensures LongestRuns(batches, starts) && forall i :: 0 <= i < |starts| ==> offset <= starts[i] < offset + count
  {
    hide Delivers, ValidSegment, Runnable, Ids, LongestRuns;
    var rows := MatchBlock(seg, p, offset, count, filter, interp);
    MatchesDeliverable(seg, p, offset, count, rows);
    batches, starts, delivered := DeliverRuns(seg, offset, rows, count);
  }

  class SegmentScanner {
    const segment: Segment
    const context: ScanContext
    const hash: B.Hash
    var stats: Stats

    constructor (seg: Segment, ctx: ScanContext, h: B.Hash)
      ensures segment == seg && context == ctx && hash == h && stats == NO_STATS
    {
      segment, context, hash, stats := seg, ctx, h, NO_STATS;
    }

    /** The two pruning checks for block b. */
    method ShouldSkip(p: Pred, b: nat) returns (zone: bool, bloom: bool)
      requires ValidSegment(segment) && Runnable(p, segment)
      ensures zone == PrunedByZone(segment, p, context, b)
      ensures bloom ==> !zone
      ensures zone || bloom <==> Pruned(hash, segment, p, context, b)
    {
      zone, bloom := false, false;
      var testable := p.columnPredicates != [] && p.program.constants != [];
      if context.zonePruning && testable {
        var c := p.program.columnIndices[0];
        zone := !Z.ShouldScan(segment.zoneMaps[c], b, p.columnPredicates[0], Wrap(segment.types[c],
            p.program.constants[0]));
      }
      if !zone && context.bloomPruning && testable {
        var c := p.program.columnIndices[0];
        if c < |segment.blooms| && p.columnPredicates[0] == Cmp(CmpOp.Eq) {
          var found := B.Probe(hash, segment.blooms[c], ProbeKey(p.program.constants[0]));
          bloom := !found;
        }
      }
    }

    /** Scan delivers exactly the kept rows, in order, in runs, and its counters
        account for every row once. */
    method Scan(p: Pred) returns (batches: seq<Batch>, ghost starts: seq<nat>)
      requires ValidSegment(segment) && Runnable(p, segment) && ValidContext(context)
      modifies this`stats
      ensures Delivers(segment, batches, starts, KeptRows(hash, segment, p, context, segment.numRows))
      ensures LongestInBlocks(batches, starts, context.blockSize)
      ensures CountsBlocks(stats, old(stats), hash, segment, p, context,
                           Z.NumBlocks(context.blockSize, segment.numRows))
      ensures Accounts(stats, old(stats), segment.numRows,
                       |KeptRows(hash, segment, p, context, segment.numRows)|,
                       PrunedRows(hash, segment, p, context, segment.numRows))
    {
      hide Delivers, KeptRows, PrunedRows, ValidSegment, Runnable, Pruned, PrunedByZone, Ids, Reached;
      hide Z.BlockStart, Z.BlockEnd, Z.NumBlocks, Z.BlockOf, LongestInBlocks, LongestRuns;
      NoBatches(context.blockSize);
      var numBlocks := Z.NumBlocks(context.blockSize, segment.numRows);
      var filter := new BlockFilter();
      var interp := new BytecodeInterpreter(p.program);
      batches, starts := [], [];
      var done := 0;
      var st := stats;
      NothingKept(p);
      ReachedEnds(context.blockSize, segment.numRows);
      for b := 0 to numBlocks
        invariant done <= segment.numRows && done == Reached(context.blockSize, segment.numRows, b)
        invariant Delivers(segment, batches, starts, KeptRows(hash, segment, p, context, done))
        invariant LongestInBlocks(batches, starts, context.blockSize)
        invariant forall i :: 0 <= i < |starts| ==> starts[i] < done
        invariant stats == old(stats) && filter.mask.Length == SCAN_BLOCK_SIZE
        invariant fresh(filter) && fresh(filter.mask) && fresh(interp)
        invariant CountsBlocks(st, stats, hash, segment, p, context, b)
        invariant Accounts(st, stats, done, |KeptRows(hash, segment, p, context, done)|,
                           PrunedRows(hash, segment, p, context, done))
      {
        ReachedStep(context.blockSize, segment.numRows, b);
        var offset := Z.BlockStart(context.blockSize, b);
        var end := Z.BlockEnd(context.blockSize, segment.numRows, b);
        BlockAdds(hash, segment, p, context, b);
        var blockCount := end - offset;
        st := st.(blocksScanned := st.blocksScanned + 1, rowsScanned := st.rowsScanned + blockCount);
        var zone, bloom := ShouldSkip(p, b);
        if zone {
          st := st.(prunedZone := st.prunedZone + 1);
        } else if bloom {
          st := st.(prunedBloom := st.prunedBloom + 1);
        } else {
          var more: seq<Batch>, moreStarts, delivered := ProcessBlock(segment, p, offset, blockCount, filter, interp);
          DeliversMore(segment, batches, starts, KeptRows(hash, segment, p, context, offset),
                       more, moreStarts, Ids(MatchMask(segment, p, offset, blockCount), offset));
          BlocksApart(context.blockSize, segment.numRows, b, starts, moreStarts);
          LongestMore(batches, starts, more, moreStarts, context.blockSize, b);
          batches, starts := batches + more, starts + moreStarts;
          st := st.(rowsFiltered := st.rowsFiltered + (blockCount - delivered),
                    rowsReturned := st.rowsReturned + delivered);
        }
        done := end;
      }
      stats := st;
    }

    lemma NothingKept(p: Pred)
      requires ValidSegment(segment) && Runnable(p, segment) && ValidContext(context)
      ensures KeptRows(hash, segment, p, context, 0) == [] && PrunedRows(hash, segment, p, context, 0) == 0
      ensures Delivers(segment, [], [], [])
    {
    }
  }

  lemma NoBatches(size: nat)
    requires size > 0
    ensures LongestInBlocks([], [], size)
  {
  }

  lemma BlocksApart(size: nat, count: nat, b: nat, before: seq<nat>, inside: seq<nat>)
    requires size > 0 && Z.BlockEnd(size, count, b) <= count
    requires forall i :: 0 <= i < |before| ==> before[i] < Z.BlockStart(size, b) && before[i] < count
    requires forall i :: 0 <= i < |inside| ==> Z.BlockStart(size, b) <= inside[i] < Z.BlockEnd(size, count, b)
    ensures forall i :: 0 <= i < |before| ==> Z.BlockOf(size, before[i]) != b
    ensures forall i :: 0 <= i < |inside| ==> Z.BlockOf(size, inside[i]) == b
  {
    hide Z.BlockStart, Z.BlockEnd, Z.BlockOf;
    forall i | 0 <= i < |before| ensures Z.BlockOf(size, before[i]) != b {
      Z.BlocksPartition(size, count, before[i], b);
    }
    forall i | 0 <= i < |inside| ensures Z.BlockOf(size, inside[i]) == b {
      Z.BlocksPartition(size, count, inside[i], b);
    }
  }

  /** Rows covered by the first b blocks. */
  function Reached(blockRows: nat, count: nat, b: nat): nat {
    if Z.BlockStart(blockRows, b) < count then Z.BlockStart(blockRows, b) else count
  }

  lemma ReachedStep(blockRows: nat, count: nat, b: nat)
    requires blockRows > 0 && b < Z.NumBlocks(blockRows, count)
    ensures Z.BlockStart(blockRows, b) < count
    ensures Reached(blockRows, count, b) == Z.BlockStart(blockRows, b)
    ensures Reached(blockRows, count, b + 1) == Z.BlockEnd(blockRows, count, b)
    ensures Z.BlockEnd(blockRows, count, b) - Z.BlockStart(blockRows, b) <= blockRows
    ensures Z.BlockEnd(blockRows, count, b) <= count
  {
    Z.BlockCount(blockRows, count, b);
  }

  lemma ReachedEnds(blockRows: nat, count: nat)
    requires blockRows > 0
    ensures Reached(blockRows, count, 0) == 0
    ensures Reached(blockRows, count, Z.NumBlocks(blockRows, count)) == count
  {
    Z.BlockCount(blockRows, count, Z.NumBlocks(blockRows, count));
  }

  lemma MatchesDeliverable(seg: Segment, p: Pred, offset: nat, count: nat, rows: seq<nat>)
    requires ValidSegment(seg) && Runnable(p, seg) && offset + count <= seg.numRows
    requires rows == Ids(MatchMask(seg, p, offset, count), 0)
    ensures Rising(rows) && forall k :: 0 <= k < |rows| ==> rows[k] < count && offset + rows[k] < seg.numRows
    ensures Shifted(rows, offset) == Ids(MatchMask(seg, p, offset, count), offset) && |rows| <= count
  {
    hide Ids, RowTest;
    IdsMeaning(MatchMask(seg, p, offset, count), 0);
    IdsShift(MatchMask(seg, p, offset, count), offset);
  }
}
