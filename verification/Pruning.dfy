// Which blocks a scan skips, and what its counters show, in terms of the column's
// values (include/columnar/scanner.h, the two pruning checks).
module Pruning {
  import opened Types
  import opened Chains
  import opened Scanner
  import opened Exactness
  import Z = ZoneMap
  import B = Bloom

  /** No row of block b can satisfy the test, as far as the block's range of values
      shows: for an equality all values are below the constant or all are above it,
      for another comparison no value satisfies it. Stored columns have no nulls. */
  ghost predicate Misses(column: seq<int>, size: nat, b: nat, pred: PredicateType, w: int)
    requires size > 0
  {
    match pred
    case IsNull => true
    case IsNotNull => false
    case Cmp(op) =>
      if op == CmpOp.Eq then
        || (forall r :: 0 <= r < |column| && Z.BlockOf(size, r) == b ==> column[r] < w)
        || (forall r :: 0 <= r < |column| && Z.BlockOf(size, r) == b ==> column[r] > w)
      else forall r :: 0 <= r < |column| && Z.BlockOf(size, r) == b ==> !Compare(op, column[r], w)
  }

  lemma SlicePositions(column: seq<int>, size: nat, b: nat)
    requires size > 0 && b < Z.NumBlocks(size, |column|)
    ensures var s, t := Z.BlockStart(size, b), Z.BlockEnd(size, |column|, b);
            && s < t <= |column|
            && forall r :: 0 <= r < |column| ==> (s <= r < t <==> Z.BlockOf(size, r) == b)
  {
    Z.BlockCount(size, |column|, b);
    hide Z.BlockStart, Z.BlockEnd, Z.NumBlocks, Z.BlockOf;
    forall r | 0 <= r < |column| ensures Z.InBlock(size, |column|, b, r) <==> Z.BlockOf(size, r) == b {
      Z.BlocksPartition(size, |column|, r, b);
    }
  }

  /** A comparison matches some row of the slice or none of the block. */
  lemma SliceMatches(column: seq<int>, size: nat, b: nat, op: CmpOp, w: int)
    requires size > 0 && b < Z.NumBlocks(size, |column|)
    ensures var s, t := Z.BlockStart(size, b), Z.BlockEnd(size, |column|, b);
            && s < t <= |column|
            && (Z.SomeMatch(column[s..t], [], op, w)
                <==> exists r :: 0 <= r < |column| && Z.BlockOf(size, r) == b && Compare(op, column[r], w))
  {
    SlicePositions(column, size, b);
    hide Z.BlockStart, Z.BlockEnd, Z.NumBlocks, Z.BlockOf, Compare;
    var s, t := Z.BlockStart(size, b), Z.BlockEnd(size, |column|, b);
    if Z.SomeMatch(column[s..t], [], op, w) {
      var i :| 0 <= i < t - s && !Z.Null([], i) && Compare(op, column[s..t][i], w);
      assert Z.BlockOf(size, s + i) == b && Compare(op, column[s + i], w);
    }
    if r :| 0 <= r < |column| && Z.BlockOf(size, r) == b && Compare(op, column[r], w) {
      assert !Z.Null([], r - s) && column[s..t][r - s] == column[r];
    }
  }

  /** The entry of block b answers from the block's values alone. */
  lemma ZoneAnswers(zm: Z.Map, column: seq<int>, b: nat, pred: PredicateType, w: int)
    requires Z.BuiltFrom(zm, column, []) && b < Z.NumBlocks(zm.blockRows, |column|)
    ensures Z.ShouldScan(zm, b, pred, w) <==> !Misses(column, zm.blockRows, b, pred, w)
  {
    var size := zm.blockRows;
    SlicePositions(column, size, b);
    hide Z.BlockStart, Z.BlockEnd, Z.NumBlocks, Z.BlockOf, Z.Summarises, Z.CanMatch;
    var s, t := Z.BlockStart(size, b), Z.BlockEnd(size, |column|, b);
    var e, slice := zm.entries[b], column[s..t];
    assert Z.BlockSummarised(e, size, column, [], b);
    assert !Z.Null([], 0) && Z.SomeValid(slice, []);
    match pred
    case IsNotNull => Z.NotNullExact(e, slice, []);
    case IsNull => NoNullsSeen(e, slice);
    case Cmp(op) =>
      Z.AnswersExactly(e, slice, [], op, w);
      ComparisonMisses(column, size, b, op, w);
  }

  lemma NoNullsSeen(e: Z.Entry, slice: seq<int>)
    requires Z.Summarises(e, slice, []) && slice != []
    ensures !Z.MightHold(e, IsNull, 0)
  {
    var f: nat :| Z.EntryFor(e, slice, [], f);
    assert !Z.Null([], 0);
    if f < |slice| { Z.CountNullsZero([], f + 1, |slice|); }
  }

  lemma ComparisonMisses(column: seq<int>, size: nat, b: nat, op: CmpOp, w: int)
    requires size > 0 && b < Z.NumBlocks(size, |column|)
    ensures var s, t := Z.BlockStart(size, b), Z.BlockEnd(size, |column|, b);
            && s < t <= |column|
            && (op != CmpOp.Eq ==> (Misses(column, size, b, Cmp(op), w) <==> !Z.SomeMatch(column[s..t], [], op, w)))
            && (Misses(column, size, b, Cmp(CmpOp.Eq), w)
                <==> !(Z.SomeMatch(column[s..t], [], CmpOp.Le, w) && Z.SomeMatch(column[s..t], [], CmpOp.Ge, w)))
  {
    hide Z.BlockStart, Z.BlockEnd, Z.NumBlocks, Z.BlockOf, Z.SomeMatch;
    SliceMatches(column, size, b, op, w);
    SliceMatches(column, size, b, CmpOp.Le, w);
    SliceMatches(column, size, b, CmpOp.Ge, w);
  }

  // ---- the decision for a block

  /** What the first test of a predicate is made of. */
  ghost predicate FirstTest(seg: Segment, p: Pred, c: nat, pred: PredicateType, v: int) {
    && |p.columnPredicates| > 0 && |p.program.columnIndices| > 0 && |p.program.constants| > 0
    && c == p.program.columnIndices[0] && c < |seg.columns|
    && pred == p.columnPredicates[0] && v == p.program.constants[0]
  }

  /** The zone map skips a block if and only if the flag is on, the column has a map,
      and the block's values miss the test with the constant truncated to the
      column's type. */
  lemma ZonePrunedIff(seg: Segment, p: Pred, ctx: ScanContext, b: nat, c: nat, pred: PredicateType, v: int)
    requires ValidSegment(seg) && ValidContext(ctx) && FirstTest(seg, p, c, pred, v)
    requires ctx.zonePruning ==> ZoneMapMatches(seg.zoneMaps[c], seg.columns[c], ctx.blockSize)
    requires b < Z.NumBlocks(ctx.blockSize, seg.numRows)
    ensures PrunedByZone(seg, p, ctx, b)
       <==> ctx.zonePruning && seg.zoneMaps[c].entries != []
            && Misses(seg.columns[c], ctx.blockSize, b, pred, Wrap(seg.types[c], v))
  {
    hide Misses, Wrap, Z.NumBlocks, Z.MightHold, Z.BuiltFrom;
    if ctx.zonePruning && seg.zoneMaps[c].entries != [] {
      ZoneAnswers(seg.zoneMaps[c], seg.columns[c], b, pred, Wrap(seg.types[c], v));
    }
  }

  /** The bloom filter skips every block if and only if the flag is on, the first
      test is an equality, and the filter lacks the constant's 64-bit pattern. */
  ghost predicate FilterRejects(hash: B.Hash, seg: Segment, ctx: ScanContext, c: nat, pred: PredicateType, v: int)
    requires c < |seg.blooms| && seg.blooms[c].numBits > 0
  {
    ctx.bloomPruning && pred == Cmp(CmpOp.Eq) && !B.Contains(hash, seg.blooms[c], v % TWO_64)
  }

  lemma BloomPrunedIff(hash: B.Hash, seg: Segment, p: Pred, ctx: ScanContext, c: nat, pred: PredicateType, v: int)
    requires ValidSegment(seg) && FirstTest(seg, p, c, pred, v) && IsInt64(v)
    ensures seg.blooms[c].numBits > 0
    ensures PrunedByBloom(hash, seg, p, ctx) <==> FilterRejects(hash, seg, ctx, c, pred, v)
  {
    hide B.Contains;
    assert B.WellFormed(seg.blooms[c]);
    assert ProbeKey(v) == v % TWO_64;
  }

  // ---- the counters

  /** The blocks below n that the zone map skips. */
  ghost function MissedBlocks(column: seq<int>, size: nat, pred: PredicateType, w: int, n: nat): set<nat>
    requires size > 0
  {
    set b: nat | b < n && Misses(column, size, b, pred, w)
  }

  /** The rows below n in such blocks. */
  ghost function MissedRows(column: seq<int>, size: nat, pred: PredicateType, w: int, n: nat): set<nat>
    requires size > 0
  {
    set r: nat | r < n && Misses(column, size, Z.BlockOf(size, r), pred, w)
  }

  lemma {:induction false} ZoneCounter(seg: Segment, p: Pred, ctx: ScanContext, n: nat, c: nat,
                                       pred: PredicateType, v: int)
    requires ValidSegment(seg) && ValidContext(ctx) && FirstTest(seg, p, c, pred, v)
    requires ctx.zonePruning ==> ZoneMapMatches(seg.zoneMaps[c], seg.columns[c], ctx.blockSize)
    requires n <= Z.NumBlocks(ctx.blockSize, seg.numRows)
    ensures ZoneBlocks(seg, p, ctx, n)
         == if ctx.zonePruning && seg.zoneMaps[c].entries != []
            then |MissedBlocks(seg.columns[c], ctx.blockSize, pred, Wrap(seg.types[c], v), n)| else 0
  {
    hide Misses, Wrap, PrunedByZone, ZoneMapMatches, Z.NumBlocks;
    var w := Wrap(seg.types[c], v);
    var size := ctx.blockSize;
    if n == 0 {
      assert MissedBlocks(seg.columns[c], size, pred, w, 0) == {};
    } else {
      ZoneCounter(seg, p, ctx, n - 1, c, pred, v);
      ZonePrunedIff(seg, p, ctx, n - 1, c, pred, v);
      var before := MissedBlocks(seg.columns[c], size, pred, w, n - 1);
      assert MissedBlocks(seg.columns[c], size, pred, w, n)
          == if Misses(seg.columns[c], size, n - 1, pred, w) then before + {n - 1} else before;
      assert n - 1 !in before;
    }
  }

  lemma {:induction false} BloomCounter(hash: B.Hash, seg: Segment, p: Pred, ctx: ScanContext, n: nat, c: nat,
                                        pred: PredicateType, v: int)
    requires ValidSegment(seg) && FirstTest(seg, p, c, pred, v) && IsInt64(v)
    ensures seg.blooms[c].numBits > 0
    ensures BloomBlocks(hash, seg, p, ctx, n)
         == if FilterRejects(hash, seg, ctx, c, pred, v) then n - ZoneBlocks(seg, p, ctx, n) else 0
  {
    BloomPrunedIff(hash, seg, p, ctx, c, pred, v);
    hide PrunedByZone, PrunedByBloom, FilterRejects, ValidSegment, FirstTest;
    if n > 0 { BloomCounter(hash, seg, p, ctx, n - 1, c, pred, v); }
  }

  lemma {:induction false} IdsCount(mask: seq<bool>)
    ensures |Ids(mask, 0)| == |set i: nat | i < |mask| && mask[i]|
  {
    var all := set i: nat | i < |mask| && mask[i];
    if mask == [] {
      assert all == {};
    } else {
      var n := |mask| - 1;
      IdsCount(mask[..n]);
      var before := set i: nat | i < n && mask[..n][i];
      assert all == if mask[n] then before + {n} else before;
      assert n !in before;
    }
  }

  /** Rows in skipped blocks: all of them if the filter rejects, else those the zone
      map skips. */
  lemma PrunedRowsCount(hash: B.Hash, seg: Segment, p: Pred, ctx: ScanContext, c: nat, pred: PredicateType, v: int)
    requires ValidSegment(seg) && ValidContext(ctx) && FirstTest(seg, p, c, pred, v) && IsInt64(v)
    requires ctx.zonePruning ==> ZoneMapMatches(seg.zoneMaps[c], seg.columns[c], ctx.blockSize)
    ensures seg.blooms[c].numBits > 0
    ensures PrunedRows(hash, seg, p, ctx, seg.numRows)
         == if FilterRejects(hash, seg, ctx, c, pred, v) then seg.numRows
            else if ctx.zonePruning && seg.zoneMaps[c].entries != []
            then |MissedRows(seg.columns[c], ctx.blockSize, pred, Wrap(seg.types[c], v), seg.numRows)| else 0
  {
    BloomPrunedIff(hash, seg, p, ctx, c, pred, v);
    hide Misses, Wrap, PrunedByZone, PrunedByBloom, FilterRejects, ZoneMapMatches, FirstTest, Ids, Z.NumBlocks;
    var mask, w := PrunedMask(hash, seg, p, ctx, seg.numRows), Wrap(seg.types[c], v);
    IdsCount(mask);
    var rows := set r: nat | r < |mask| && mask[r];
    forall r: nat | r < seg.numRows
      ensures mask[r] == (PrunedByBloom(hash, seg, p, ctx)
                          || (ctx.zonePruning && seg.zoneMaps[c].entries != []
                              && Misses(seg.columns[c], ctx.blockSize, Z.BlockOf(ctx.blockSize, r), pred, w)))
    {
      Z.BlocksPartition(ctx.blockSize, seg.numRows, r, Z.BlockOf(ctx.blockSize, r));
      ZonePrunedIff(seg, p, ctx, Z.BlockOf(ctx.blockSize, r), c, pred, v);
    }
    if FilterRejects(hash, seg, ctx, c, pred, v) {
      AllTrue(mask);
    } else if ctx.zonePruning && seg.zoneMaps[c].entries != [] {
      assert rows == MissedRows(seg.columns[c], ctx.blockSize, pred, w, seg.numRows);
    } else {
      AllFalse(mask, 0);
    }
  }

  /** The blocks and the rows that the two checks take from a scan. */
  ghost function ZoneSkips(seg: Segment, ctx: ScanContext, c: nat, pred: PredicateType, v: int): nat
    requires ValidContext(ctx) && c < |seg.columns| && c < |seg.types| && c < |seg.zoneMaps|
  {
    var n := Z.NumBlocks(ctx.blockSize, seg.numRows);
    if ctx.zonePruning && seg.zoneMaps[c].entries != []
    then |MissedBlocks(seg.columns[c], ctx.blockSize, pred, Wrap(seg.types[c], v), n)| else 0
  }

  ghost function BloomSkips(hash: B.Hash, seg: Segment, ctx: ScanContext, c: nat, pred: PredicateType, v: int): int
    requires ValidContext(ctx) && c < |seg.columns| && c < |seg.types| && c < |seg.zoneMaps|
    requires c < |seg.blooms| && seg.blooms[c].numBits > 0
  {
    if FilterRejects(hash, seg, ctx, c, pred, v)
    then Z.NumBlocks(ctx.blockSize, seg.numRows) - ZoneSkips(seg, ctx, c, pred, v) else 0
  }

  ghost function RowsSkipped(hash: B.Hash, seg: Segment, ctx: ScanContext, c: nat, pred: PredicateType, v: int): nat
    requires ValidContext(ctx) && c < |seg.columns| && c < |seg.types| && c < |seg.zoneMaps|
    requires c < |seg.blooms| && seg.blooms[c].numBits > 0
  {
    if FilterRejects(hash, seg, ctx, c, pred, v) then seg.numRows
    else if ctx.zonePruning && seg.zoneMaps[c].entries != []
    then |MissedRows(seg.columns[c], ctx.blockSize, pred, Wrap(seg.types[c], v), seg.numRows)| else 0
  }

  /** The counters of a scan, from the column's values: the blocks skipped by zone
      map are those whose values miss the first test, the blocks skipped by the
      filter are the others if it lacks the constant, and every other row is either
      returned or filtered. */
  lemma ScanCounters(hash: B.Hash, seg: Segment, p: Pred, ctx: ScanContext, before: Stats, after: Stats, c: nat,
                     pred: PredicateType, v: int)
    requires ValidSegment(seg) && ValidContext(ctx) && Runnable(p, seg) && FirstTest(seg, p, c, pred, v)
    requires ctx.zonePruning ==> ZoneMapMatches(seg.zoneMaps[c], seg.columns[c], ctx.blockSize)
    requires CountsBlocks(after, before, hash, seg, p, ctx, Z.NumBlocks(ctx.blockSize, seg.numRows))
    requires Accounts(after, before, seg.numRows, |KeptRows(hash, seg, p, ctx, seg.numRows)|,
                      PrunedRows(hash, seg, p, ctx, seg.numRows))
    ensures seg.blooms[c].numBits > 0
    ensures var blocks, missed := Z.NumBlocks(ctx.blockSize, seg.numRows), ZoneSkips(seg, ctx, c, pred, v);
            && after.blocksScanned == before.blocksScanned + blocks
            && after.prunedZone == before.prunedZone + missed
            && after.prunedBloom
               == before.prunedBloom + (if FilterRejects(hash, seg, ctx, c, pred, v) then blocks - missed else 0)
            && after.rowsScanned == before.rowsScanned + seg.numRows
            && (after.rowsFiltered - before.rowsFiltered) + (after.rowsReturned - before.rowsReturned)
               == seg.numRows - RowsSkipped(hash, seg, ctx, c, pred, v)
  {
    hide Misses, Wrap, FilterRejects, ZoneMapMatches, FirstTest, PrunedRows, KeptRows, ZoneBlocks, BloomBlocks;
    hide MissedBlocks, MissedRows, Runnable, Z.NumBlocks;
    var n := Z.NumBlocks(ctx.blockSize, seg.numRows);
    ConstantIs64(seg, p, c, pred, v);
    ZoneCounter(seg, p, ctx, n, c, pred, v);
    BloomCounter(hash, seg, p, ctx, n, c, pred, v);
    PrunedRowsCount(hash, seg, p, ctx, c, pred, v);
  }

  lemma ConstantIs64(seg: Segment, p: Pred, c: nat, pred: PredicateType, v: int)
    requires ValidSegment(seg) && Runnable(p, seg) && FirstTest(seg, p, c, pred, v)
    ensures IsInt64(v)
  {
  }
}
