# ColumnarStore in Dafny

A model of ColumnarStore's read path, codecs, write path and segment file, with
proofs that each fast form agrees with a simple one.

- **Scanning.** A predicate is compiled to bytecode; blocks are pruned by zone map
  and bloom filter; surviving rows pass a mask or a stack interpreter and are
  delivered in runs. `Exactness` proves that the result is a row-by-row filter
  exactly when the predicate is sound for the pruning flags; `Pruning` says which
  blocks are skipped, from the column's values; `ParallelScan` proves both for every
  interleaving of threads; `StoredScan` proves exactness from the bytes of a file.
- **Codecs.** Bit packing across word boundaries, word-aligned lanes, run-length,
  dictionary and delta coding, each decoded back from its bytes.
- **Writing.** The delta store under every interleaving of its locked steps, double
  buffered flushing, column-by-column merging, and the segment file's layout.

`dafny verify dfyconfig.toml` checks everything.

## How it is modelled

- Words are natural numbers with explicit bit operations (`Bits`); signed columns
  are integers with explicit 32- or 64-bit range and wrap-around (`Types`); bytes
  are little-endian (`Bytes`).
- Loops over buffers, arrays and fields are methods with invariants, proved against
  specification functions; the interpreter, scanner, builders, encoders, filters,
  stores, the manager, the segment writer and the reader are classes.
- Concurrency is a state machine: one event is one atomic step (a flag or counter
  test, a column write or clear under its lock, a counter update), a run is any
  sequence of events. A writer keeps the store it was given, also after a switch.
- A callback is a returned batch; a file is a byte sequence. Bloom results hold for
  any hash where they can, and use the filters' own where they say what fails.
- Signed overflow in delta coding, undefined in C++, is taken as two's-complement
  wrap-around.
- An undefined read or pop in the interpreter is an undefined outcome, and the
  compiler theorems prove that it does not happen.

## What does not hold of the code

Each is stated by a concrete failing input, by the exact condition under which the
code is right, or by both.

- The fast path ignores Not, constants are truncated to the column's type, pruning
  looks at the first comparison only, and Int32 bloom keys are zero-extended when
  added but sign-extended when probed: `Exactness.ExactIffSound`,
  `Exactness.OrChainInexact`, `Exactness.SingleNotInexact`, `Bloom.ProbeNeverMisses`.
- Zone maps must be built with the scan's block size: `ZoneMap.BlockSizesMustAgree`.
- Nulls before the first non-null row of a block are not counted:
  `ZoneMap.NullExactUnlessOnlyLeading`, `ZoneMap.LeadingNullMissed`.
- Null tests never fold a pending And/Or, and a Not between operands negates the
  left one: `Chains.NullTestHarmlessIff`, `Chains.NotBeforeOperandNegatesLeft`.
- A column without a bloom filter reads back one that holds nothing, so equality
  scans lose its rows: `StoredScan.ExactWithoutFilterIff`, `StoredScan.StoredRowLost`.
- The segment's creation time is always written as 0:
  `SegmentIo.SegmentWriter.Finish`.
- Point and range reads disagree on a row inserted again after a delete:
  `DeltaStore.ReadsAfterHistory`.
- Concurrent inserts on one row can leave a torn row:
  `DeltaInterleaving.AlignedIffDistinct`.
- Compaction loses inserts that overlap it: `CompactionLoss.NothingLostIff`,
  `FlushSchedules.InsertAfterTestLost`, `FlushSchedules.CountAfterResetLost`. It drops
  all deletes of an idle store: `FlushManager.DeletesSurviveIff`.
- Merges list deleted rows: `Merger.ListsOnlyVisibleIff`, `Merger.DeletedRowMerged`.
- The background merge leaves out the delta store: `Merger.MergesAgreeIff`,
  `Merger.InsertLost`.
- Encoding an empty column keeps the previous runs (`Rle.RleEncoder.Encode`), and a
  reused sorted dictionary keeps stale codes
  (`Dictionary.DictionaryEncoder.BuildSorted`).

## Model

| member | source | states |
|---|---|---|
| `Exactness.ExactIffSound` | include/columnar/scanner.h:333-481 | Scan exactness, both directions, with the filters' own hash: a builder chain's scan returns exactly the rows of a row-by-row filter on every integer segment whose consulted indexes match, for a given block size and setting of the two pruning flags, if and only if the chain is sound: a lone comparison, truncated to its column's type and without its Nots, still answers as written; a chain that may prune implies its truncated first comparison; and an equality whose 64-bit probe cannot reach the column's keys matches nothing |
| `Exactness.ScanExact` | include/columnar/scanner.h:357-477 | For every hash, integer segment, block size in 1..8192 and setting of the pruning flags, the rows kept by a sound chain are exactly the rows of the naive filter, given that the indexes its first comparison consults match its column |
| `Scanner.SegmentScanner.Scan` | include/columnar/scanner.h:333-481 | The block loop delivers exactly the kept rows, in row order, each once, in runs of 1..4096 consecutive rows with every column's values, no run stopping short of the next row of its block unless it holds 4096; each scanned row is counted once as returned, filtered or pruned, and each block pruned by zone map or by bloom filter is counted as such |
| `Scanner.SegmentScanner.ShouldSkip` | include/columnar/scanner.h:365-401 | The zone-map check, then the bloom check, decide whether the block is skipped and by which; `Pruning.ZonePrunedIff` and `Pruning.BloomPrunedIff` say which blocks these are |
| `Pruning.ZonePrunedIff` | include/columnar/scanner.h:365-388 | For every block of a column with a matching zone map: the block is pruned if and only if the flag is on and its values miss the first test with the truncated constant: no row satisfies it, or, for an equality, all rows lie below or all above it |
| `Pruning.BloomPrunedIff` | include/columnar/scanner.h:391-401 | The bloom check skips every block that the zone map left if and only if the flag is on, the first test is an equality and the filter lacks the constant's 64-bit pattern |
| `Pruning.ZoneAnswers` | include/columnar/zone_map.h:194-222 | The entry of each block of a map built from a column answers from that block's values alone |
| `Pruning.ZoneCounter` | include/columnar/scanner.h:386 | The zone counter is the number of blocks whose values miss the first test |
| `Pruning.BloomCounter` | include/columnar/scanner.h:397 | The bloom counter is the number of the other blocks if the filter rejects the constant, else zero |
| `Pruning.PrunedRowsCount` | include/columnar/scanner.h:360-401 | The rows counted as pruned are all of them if the filter rejects the constant, else those in blocks whose values miss the first test |
| `Pruning.ScanCounters` | include/columnar/scanner.h:358-476 | What a whole scan adds to each counter, from the column's values, the flags and the filter's answer alone |
| `Scanner.ScanBlock` | include/columnar/scanner.h:211-285 | The block mask of one comparison, including those obtained by complementing Equal, LessThan or LessEqual, holds the comparison's truth row by row; null tests set the whole mask |
| `Scanner.Kernel` | include/columnar/scanner.h:160-168 | The three comparison loops write the comparison's truth for each of the first `count` values and touch nothing else |
| `Scanner.Complement` | include/columnar/scanner.h:238 | Negating a mask in place flips each of the first `count` entries and no other |
| `Scanner.Compact` | include/columnar/scanner.h:425-428 | The surviving row numbers are the positions whose mask is true, ascending |
| `Scanner.KeepEvaluated` | include/columnar/scanner.h:431-446 | In-place compaction by the interpreter keeps exactly the rows on which the program answers true, in order |
| `Scanner.DeliverRuns` | include/columnar/scanner.h:448-473 | The callbacks are the longest runs of at most 4096 consecutive rows that together list exactly the given rows: two neighbouring ones are not adjacent unless the first holds 4096 |
| `Scanner.EndOfRun` | include/columnar/scanner.h:456-461 | The run found is consecutive and at most 4096 long |
| `Scanner.MatchBlock` | include/columnar/scanner.h:403-446 | Fast or slow path, the matching rows of a block are those of the row test |
| `Scanner.ProcessBlock` | include/columnar/scanner.h:403-476 | An unpruned block's callbacks deliver exactly its matching rows, and their number is what the counters are given |
| `Scanner.BlockAdds` | include/columnar/scanner.h:357-363 | One more block extends the kept rows by its matches, or by nothing if it is pruned |
| `Exactness.FastPathRefinesInterpreter` | include/columnar/scanner.h:403-446 | For every single comparison whose constant fits its column, the mask's answer equals the interpreter run on the widened row |
| `Exactness.RowTestOf` | include/columnar/scanner.h:403-446 | The scan's row test is the chain's meaning, except that a lone comparison is taken with its constant truncated and without its Nots |
| `Exactness.KeptIsNaive` | include/columnar/scanner.h:357-446 | A row survives pruning and testing exactly when the chain holds of it |
| `Exactness.PruningKeepsFirstMatches` | include/columnar/scanner.h:364-401 | A row on which the truncated first comparison is true is never in a pruned block when the consulted indexes match and the bloom probe can reach the column's keys |
| `Exactness.AndChainImpliesFirst` | include/columnar/scanner.h:365-401 | Every And-only chain without Nots implies its first comparison, so pruning is safe for it |
| `Exactness.SingleMustAgree` | include/columnar/scanner.h:403-422 | If scans are exact on all segments, a lone comparison answers as written after truncation and without Nots: an even number of Nots when its constant fits, and otherwise only where both are the same constant answer |
| `Exactness.ZonePruningNeedsFirst` | include/columnar/scanner.h:365-389 | If scans with zone pruning are exact on all segments, every row satisfying the chain satisfies its truncated first comparison |
| `Exactness.BloomPruningNeedsKey` | include/columnar/scanner.h:391-401 | If scans with bloom pruning are exact on all segments, every row satisfying an equality-first chain has the probed key |
| `Exactness.KeyMatches` | include/columnar/scanner.h:395-396 | A stored value has the probed key exactly when it is the truncated constant and the constant is one the column's zero-extended keys can equal |
| `Exactness.DisagreesSomewhere` | include/columnar/scanner.h:369-381 | If a comparison and its truncation agree on every value of the column, the closed condition on operator, constant and Nots holds |
| `Exactness.AgreesEverywhere` | include/columnar/scanner.h:369-381 | Under that condition they agree on every value |
| `Exactness.OrChainInexact` | include/columnar/scanner.h:365-389 | `a == 1 Or b == 2` under zone pruning does not scan exactly on all segments |
| `Exactness.SingleNotInexact` | include/columnar/scanner.h:403-422 | No lone Int64 comparison under one Not scans exactly on all segments |
| `Chains.InfixCorrect` | include/columnar/predicate.h:239-252 | For every builder chain of comparisons joined by And/Or with trailing Nots, of any length, the deferred-operator interpreter returns the strict left-to-right fold in which each Not negates everything so far |
| `Chains.ChainRuns` | include/columnar/predicate.h:338-364 | After any chain the stack holds the one folded value and no And or Or is pending |
| `Chains.ChainTables` | include/columnar/predicate.h:458-514 | A chain's tables have one constant, column and kind per comparison, and the first entries, which pruning reads, are the first comparison's |
| `Chains.BuildChain` | include/columnar/predicate.h:458-514 | Driving the builder over a chain, call by call on its mutable predicate, leaves exactly the program and tables that the chain theorems are about |
| `Chains.NotBeforeOperandNegatesLeft` | include/columnar/predicate.h:338-364 | `a And Not b` is evaluated as (not a) and b, which agrees with a and (not b) if and only if a and b have the same truth |
| `Chains.NullTestDropsChain` | include/columnar/predicate.h:328-337 | A null test after And/Or never folds the pending operator: the answer is the null test alone, whatever came before |
| `Chains.NullTestHarmlessIff` | include/columnar/predicate.h:328-337 | The answer is the intended combination on all rows if and only if the null test implies the dropped chain (And) or is implied by it (Or) |
| `Chains.OrNullLosesRow` | include/columnar/predicate.h:328-337 | A row that satisfies `a` and is not null is rejected by `a Or Null` |
| `Chains.PredicateBuilder.AppendComparison` | include/columnar/predicate.h:93-135 | Appending a comparison adds its constant, column, predicate kind and three instructions |
| `Compilation.PostfixCorrect` | include/columnar/predicate.h:268-395 | For every tree of comparisons, And, Or and Not emitted operands first, with or without a trailing Return, EvaluateRow returns the tree's meaning on every row and never pops an empty stack |
| `Compilation.PostfixRuns` | include/columnar/predicate.h:273-393 | Running a tree's code pushes exactly the tree's value on whatever stack it finds |
| `Compilation.NeverDefers` | include/columnar/predicate.h:338-359 | At no point of running a postfix program is a pending flag set |
| `Compilation.EmitShape` | include/columnar/predicate.h:93-135 | Emitting a tree only appends to the program's code and tables, so earlier code keeps its meaning |
| `Predicate.BytecodeInterpreter.EvaluateRow` | include/columnar/predicate.h:268-395 | The instruction loop over the mutable stack and flags computes the program's small-step meaning for the row |
| `Predicate.BytecodeInterpreter.Execute` | include/columnar/predicate.h:274-391 | One instruction changes stack and flags as its small-step meaning says, and reports a return |
| `Predicate.BytecodeInterpreter.FoldPendingAnd` | include/columnar/predicate.h:239-245 | A pending And with two values folds them and clears its flag; otherwise nothing changes |
| `Predicate.BytecodeInterpreter.FoldPendingOr` | include/columnar/predicate.h:246-252 | A pending Or with two values folds them and clears its flag; otherwise nothing changes |
| `Predicate.RunAppend` | include/columnar/predicate.h:273-393 | Running a concatenation is running its parts in turn, unless the first returned |
| `Predicate.ComparisonRuns` | include/columnar/predicate.h:286-327 | Load, constant, compare pushes the comparison's truth and folds what was pending |
| `Predicate.BitwiseBits` | include/columnar/predicate.h:374-386 | AndMask and OrMask work bit by bit on 64-bit two's complement |
| `Predicate.MaskSteps` | include/columnar/predicate.h:374-390 | On two truth values the mask operators are the connectives, and BranchIfFalse drops the top |
| `ZoneMap.Update` | include/columnar/zone_map.h:28-70 | A fresh entry updated from a block summarises it: exact extremes of the non-null values, the row count, and nulls counted only after the first non-null row unless all are null |
| `ZoneMap.ValidExtremes` | include/columnar/zone_map.h:46-60 | The minimum and maximum found are attained by non-null rows and bound all of them, and the null count is of the rows after the first non-null one |
| `ZoneMap.CountNullsMeaning` | include/columnar/zone_map.h:49-53 | The null count of a range is the number of its null rows |
| `ZoneMap.PrunesOnlyMisses` | include/columnar/zone_map.h:73-105 | A comparison answered 'cannot match' holds on no non-null row of the block |
| `ZoneMap.AnswersExactly` | include/columnar/zone_map.h:84-89 | On a block with a non-null row, every comparison but Equal says 'scan' if and only if some non-null row matches; Equal says 'scan' if and only if one row is at most and one at least the constant |
| `ZoneMap.NotNullExact` | include/columnar/zone_map.h:208 | IsNotNull says 'scan' exactly when the block has a non-null row, all-null blocks included |
| `ZoneMap.NullExactUnlessOnlyLeading` | include/columnar/zone_map.h:34-37 | IsNull says 'scan' exactly when the block has a null, except for blocks whose nulls all come before the first non-null row |
| `ZoneMap.LeadingNullMissed` | include/columnar/zone_map.h:34-37 | A block of a null and then a value answers IsNull with: do not scan |
| `ZoneMap.BlocksPartition` | include/columnar/zone_map.h:175-182 | Every row is in exactly one block |
| `ZoneMap.BuildFromColumn` | include/columnar/zone_map.h:174-183 | The map built for a column has one summarising entry per block |
| `ZoneMap.PrunedBlockHasNoMatch` | include/columnar/zone_map.h:194-222 | If the map prunes a block, no row of that block satisfies the comparison |
| `ZoneMap.BlockSizesMustAgree` | include/columnar/scanner.h:357-383 | Looking up scan blocks in a map is safe for all columns and comparisons if and only if the map's block size equals the scan's |
| `ZoneMap.Write` | include/columnar/zone_map.h:252-265 | Writing appends exactly the map's image to the buffer |
| `ZoneMap.ImageRoundTrip` | include/columnar/zone_map.h:267-291 | Reading a written map gives the same map, so every answer survives |
| `Bloom.NoFalseNegatives` | include/columnar/bloom_filter.h:52-94 | For any hash function and any history of Add, AddBatch, same-geometry Merge and Write-then-Read, every key added to any filter that went in still answers MightContain |
| `Bloom.BloomFilter.Add` | include/columnar/bloom_filter.h:52-63 | After adding a key the filter contains it, no set bit is lost, and only the key's positions become set |
| `Bloom.BloomFilter.AddBatch` | include/columnar/bloom_filter.h:77-79 | The filter becomes the iterated Add of the batch, contains every key of it, and no set bit is lost |
| `Bloom.BloomFilter.MightContain` | include/columnar/bloom_filter.h:82-94 | Answers true if and only if every position of the key is set |
| `Bloom.BloomFilter.Merge` | include/columnar/bloom_filter.h:150-155 | Same geometry: the bits become the union; otherwise nothing changes |
| `Bloom.Probe` | include/columnar/bloom_filter.h:82-94 | The membership test of a filter value, used by the scan |
| `Bloom.SetKeyEffect` | include/columnar/bloom_filter.h:58-62 | Setting a key's positions sets all of them, keeps every bit, and sets no other |
| `Bloom.PositionIs` | include/columnar/bloom_filter.h:55-61 | The i-th position is the two seeded hashes combined in 64 bits, modulo the filter's size |
| `Bloom.OrAllEffect` | include/columnar/bloom_filter.h:152-154 | A bit of the word-wise union is set exactly when it is set in either filter |
| `Bloom.Write` | include/columnar/bloom_filter.h:176-180 | Writing appends exactly the filter's image |
| `Bloom.ImageRoundTrip` | include/columnar/bloom_filter.h:182-194 | Reading a written filter gives the same filter |
| `Bloom.ProbeKeyAgrees` | include/columnar/bloom_filter.h:53-54 | A value added with its own width and probed as a 64-bit integer uses the same key if and only if it is Int64 or not negative |
| `Bloom.NegativeInt32Missed` | include/columnar/scanner.h:395-396 | For every negative Int32 some filter of at most 64 bits, filled with it by Add, is missed by the scan's 64-bit probe |
| `Bloom.ProbeNeverMisses` | include/columnar/scanner.h:391-399 | The scan's probe finds a stored value in every filter if and only if it is Int64 or not negative |
| `Bloom.ProbeFindsSameKey` | include/columnar/bloom_filter.h:82-94 | Under any hash, a value that is Int64 or not negative is found after Add by its 64-bit probe |
| `Bloom.SeparatingFilter` | include/columnar/bloom_filter.h:23-63 | For any two distinct 64-bit keys some filter of at most 64 bits and one hash holds the first and rejects the second |
| `Murmur.MurmurInjective` | include/columnar/bloom_filter.h:23-31 | The hash never collides on distinct 64-bit values, whatever the seed: the xor-shifts and the multiplications modulo 2^64 can be undone |
| `Murmur.XorShiftInjective` | include/columnar/bloom_filter.h:25-29 | Xor with the word shifted by 33 loses nothing |
| `Murmur.TimesInjective` | include/columnar/bloom_filter.h:26-28 | Multiplication by a factor with an inverse modulo 2^64 loses nothing |
| `Murmur.SomeModulusDiffers` | include/columnar/bloom_filter.h:60 | Two distinct 64-bit hashes fall on different bits of some filter of at most 64 bits |
| `ParallelScan.ParallelExact` | include/columnar/scanner.h:496-547 | For every number of threads and every interleaving, a finished uncancelled run delivers, batch for batch and each once, the rows a row-by-row filter of every segment selects, and its summed counters are the plain integer sums, over the segments, of the rows, the rows selected, the other rows of unskipped blocks, the blocks, the blocks whose values miss the first comparison, and the remaining blocks of segments whose filter rejects the constant; in every state scanned = returned + filtered + pruned rows |
| `ParallelScan.RunInv` | include/columnar/scanner.h:531-547 | Every state of every run: each thread is on its own stride, its counters are those of the segments it passed, delivered batches are real, behind their owner and never repeated, and before a cancel none is skipped |
| `ParallelScan.ScheduleIndependent` | include/columnar/scanner.h:531-536 | When all threads are out the delivered multiset is the sequential one; after a cancel a sub-multiset of it |
| `ParallelScan.OutputIndependent` | include/columnar/scanner.h:535-537 | The same for the delivered values themselves |
| `ParallelScan.StatsConserved` | include/columnar/scanner.h:511-518 | Finished uncancelled, the threads' counters sum to the segments' counters, whatever the schedule |
| `ParallelScan.TotalOfCounter` | include/columnar/scanner.h:511-518 | Each of the six counters of that sum is the integer sum of that counter over the segments |
| `ParallelScan.ExactCounters` | include/columnar/scanner.h:539-545 | A segment's counters read its rows, the rows a row-by-row filter selects, its blocks, those whose values miss the first comparison, those the filter rejects, and the rejected rows of unskipped blocks |
| `ParallelScan.CancelStops` | include/columnar/scanner.h:521-537 | From a cancel on, whatever is scheduled, no thread starts another segment, and the only callbacks still made are those already past their test of the flag, at most one for each thread |
| `ParallelScan.AlwaysBalanced` | include/columnar/scanner.h:539-545 | In every state, cancelled or not, the summed counters balance |
| `ParallelScan.OneOwner` | include/columnar/scanner.h:531 | The strided loops give each segment to exactly one thread's share |
| `ParallelScan.SharesAddUp` | include/columnar/scanner.h:531 | The threads' shares are all the segments |
| `ParallelScan.ScanSegment` | include/columnar/scanner.h:534-539 | One turn of a thread's loop: the segment's batches and counters as SegmentScanner produces them |
| `ParallelScan.StepProgress` | include/columnar/scanner.h:531-546 | Every step of an unfinished thread lowers its bound on remaining steps and leaves the other threads where they are |
| `ParallelScan.FairRunsFinish` | include/columnar/scanner.h:509 | Every run that gives each thread its bound of turns, in any order and with any cancels, has all threads finished |
| `ParallelScan.StepKeeps` | include/columnar/scanner.h:531-546 | Each atomic step of a thread keeps the invariant |
| `ParallelScan.CancelKeeps` | include/columnar/scanner.h:524 | A cancel at any moment keeps the invariant |
| `BitPack.RoundTrip` | include/columnar/bitpack.h:28-136 | For every non-empty Int64 column with range below 2^63, decoding the packed words returns the column, and so does the random-access loop |
| `BitPack.Encode` | include/columnar/bitpack.h:28-77 | Minimum, least width that holds the range, and the packed words; a constant column packs no word |
| `BitPack.PackColumn` | include/columnar/bitpack.h:54-74 | The packing loop ORs each offset in at its bit position, never disturbing earlier values, and `word + 1` exists whenever it is used |
| `BitPack.Decode` | include/columnar/bitpack.h:112-136 | The running-position loop yields minimum plus the bits at each value's window |
| `BitPack.DecodeIndexed` | include/columnar/bitpack.h:300-319 | The loop that recomputes `i * bits` yields the same output |
| `BitPack.Write` | include/columnar/bitpack.h:79-84 | Appends exactly the packed column's image |
| `BitPack.Read` | include/columnar/bitpack.h:86-103 | Reads the fields at their offsets |
| `BitPack.ImageRoundTrip` | include/columnar/bitpack.h:79-103 | Reading a written image gives the packed column back |
| `BitPack.Minus64Exact` | include/columnar/bitpack.h:46 | The unsigned difference of two Int64 values in range order is their exact difference |
| `Packing.DenseRoundTrip` | include/columnar/bitpack.h:60-131 | Values packed back to back at any width up to the word size, straddling words, read back unchanged |
| `Packing.PackHolds` | include/columnar/bitpack.h:67-72 | After packing, every value's window still holds its own bits whatever was written later |
| `Packing.UnpackReturns` | include/columnar/bitpack.h:127-131 | Reading any packed value's window returns the value |
| `Packing.UnpackColumn` | include/columnar/bitpack.h:122-135 | Adding the minimum to the unpacked offsets returns the column |
| `Packing.PackingRoom` | include/columnar/bitpack.h:54 | The computed word count holds every window, so both words of a straddle exist |
| `Packing.WidthOf` | include/columnar/bitpack.h:46-48 | The width loop returns the least width whose power exceeds the range |
| `Packing.LeastWidthUnique` | include/columnar/bitpack.h:46-48 | There is only one least width |
| `Packing.MinMax` | include/columnar/bitpack.h:37-42 | The loop returns the column's exact minimum and maximum |
| `Packing.MaskKeeps` | include/columnar/bitpack.h:58-62 | Masking an offset that fits the width leaves it unchanged |
| `Packing.LaneRoundTrip` | include/columnar/encoding/encoding.h:356-403 | With 64/bits lanes per word every packed value reads back unchanged |
| `Packing.LaneStaysInWord` | include/columnar/encoding/encoding.h:360-365 | No lane crosses a word boundary |
| `BitStream.PutBitsEffect` | include/columnar/bitpack.h:64-72 | ORing a value in at a bit position changes exactly the bits of its window |
| `BitStream.GetBitsBit` | include/columnar/bitpack.h:123-131 | Each bit read is the stream bit of the window |
| `BitStream.GetReturns` | include/columnar/bitpack.h:123-131 | A window that holds a value's bits reads as that value |
| `Bits.BitsDetermine` | include/columnar/bitpack.h:67-72 | Words with equal bits are equal, the principle behind the packing proofs |
| `Bits.ShrIsDivision` | include/columnar/bitpack.h:128 | The shift-right model is division by a power of two |
| `Bits.LowBitsIsRemainder` | include/columnar/bitpack.h:128 | The mask model is remainder by a power of two |
| `Bits.ScaleUpIsProduct` | include/columnar/bitpack.h:68 | The shift-left model is multiplication by a power of two before truncation |
| `FrameOfReference.RoundTrip` | include/columnar/for.h:27-133 | Decoding an encoded non-empty Int64 column with range below 2^63 from its bytes returns the column |
| `FrameOfReference.Encode` | include/columnar/for.h:27-69 | Appends base, width, count and the packed words; nothing for an empty column |
| `FrameOfReference.Decode` | include/columnar/for.h:95-133 | Yields base plus each window's bits; the base alone at width 0 |
| `FrameOfReference.HeaderRoundTrip` | include/columnar/for.h:103-108 | Base, width, words and the row count of a 13-byte header read back from the image |
| `Codecs.BitPackRoundTrip` | include/columnar/encoding/encoding.h:228-322 | For Int32 columns with range below 2^31 in 32-bit words and Int64 columns with range below 2^63 in 64-bit words, with minimum below maximum, decode after encode is the identity through the byte buffer |
| `Codecs.EncodeBitPack` | include/columnar/encoding/encoding.h:228-272 | Appends minimum, maximum, least width and the packed words of the column's word size |
| `Codecs.PackWide` | include/columnar/encoding/encoding.h:254-269 | The packing loop in the column's own word width |
| `Codecs.DecodeBitPack` | include/columnar/encoding/encoding.h:288-322 | Yields minimum plus the bits of each window read from the bytes |
| `Codecs.NarrowWidth` | include/columnar/encoding/encoding.h:242-250 | Clamping the width to the word size changes nothing on columns in range |
| `Codecs.ConstantColumnHasNoWord` | include/columnar/encoding/encoding.h:254-263 | A constant column packs an empty word vector although the loop indexes word 0 |
| `Codecs.ForRoundTrip` | include/columnar/encoding/encoding.h:330-406 | For every non-empty Int32 column with range below 2^31 and Int64 column with range below 2^63, zero width included, decode after encode is the identity |
| `Codecs.EncodeFor` | include/columnar/encoding/encoding.h:330-368 | Appends minimum, maximum, least width and the lane words |
| `Codecs.PackLanes` | include/columnar/encoding/encoding.h:356-365 | The lane loop stores each offset in its own disjoint lane |
| `Codecs.DecodeFor` | include/columnar/encoding/encoding.h:376-406 | Yields minimum plus each lane's bits |
| `Codecs.DeltaRoundTrip` | include/columnar/encoding/encoding.h:187-215 | Summing the wrapped differences gives back every column, overflowing steps included |
| `Codecs.EncodeDelta` | include/columnar/encoding/encoding.h:187-198 | Appends the first value and the wrapped differences |
| `Codecs.DecodeDelta` | include/columnar/encoding/encoding.h:206-215 | Fills the output with running wrapped sums and nothing past the count |
| `Codecs.EncodePlain` | include/columnar/encoding/encoding.h:114-116 | Appends the column's bytes |
| `Codecs.DecodePlain` | include/columnar/encoding/encoding.h:124-126 | Copies the values back and nothing past the count |
| `Bytes.Buffer.Append` | include/columnar/encoding/encoding.h:26-31 | The logical contents grow by exactly the appended bytes, after a Clear too |
| `Bytes.Buffer.Clear` | include/columnar/encoding/encoding.h:87 | The logical contents become empty |
| `Bytes.RecordRoundTrip` | include/columnar/segment.h:123-128 | Consecutive little-endian fields read back as written, whatever follows |
| `Bytes.ValuesRoundTrip` | include/columnar/encoding/encoding.h:58-68 | An array of signed values reads back from its bytes |
| `Rle.RleEncoder.Encode` | include/columnar/rle.h:32-51 | The runs expand to the input, are positive, sum to the count and are maximal (up to the 32-bit cap); an empty input keeps the previous runs, so the result matches the input if and only if it is non-empty or there were none |
| `Rle.RunsUnique` | include/columnar/rle.h:38-50 | The maximal run list of a column is unique |
| `Rle.ExpandTotal` | include/columnar/rle.h:101-108 | Run lengths sum to the number of decoded values |
| `Rle.Decode` | include/columnar/rle.h:101-108 | Fills the output with the first `count` values of the expansion and nothing else |
| `Rle.Filter` | include/columnar/rle.h:172-203 | Filtering runs writes the same mask as filtering the decoded column, for all six comparisons |
| `Rle.EncodeStream` | include/columnar/encoding/encoding.h:134-153 | Appends the byte images of the maximal runs |
| `Rle.DecodeStream` | include/columnar/encoding/encoding.h:161-179 | Decodes the expansion of the stream's runs up to the count |
| `Rle.StreamRoundTrip` | include/columnar/encoding/encoding.h:167-173 | A run stream's bytes read back as its runs |
| `Rle.StreamDecodes` | include/columnar/encoding/encoding.h:134-179 | Decoding an encoded column's stream returns the column |
| `Rle.Write` | include/columnar/rle.h:53-59 | Appends the run count and the runs |
| `Rle.Read` | include/columnar/rle.h:65-82 | Reads back the runs of an image |
| `Rle.ReadBack` | include/columnar/rle.h:53-82 | Reading written runs restores them |
| `Dictionary.DictionaryEncoder.Build` | include/columnar/dictionary.h:27-44 | The dictionary has no duplicates, the map is its inverse, and dictionary[indices[i]] is values[i]; earlier entries keep their codes |
| `Dictionary.DictionaryEncoder.BuildSorted` | include/columnar/dictionary.h:46-61 | The dictionary is the sorted distinct column and its indices decode to the column; the map is its inverse if and only if no key left from an earlier build is absent from the new column |
| `Dictionary.DictionaryEncoder.Encode` | include/columnar/dictionary.h:68-72 | Every value found gives its code; a value outside the dictionary is an error |
| `Dictionary.DictionaryEncoder.Decode` | include/columnar/dictionary.h:74-78 | Codes give back the dictionary's values |
| `Dictionary.SortedCodesPreserveOrder` | include/columnar/dictionary.h:46-61 | With a sorted dictionary, codes compare as values do |
| `Dictionary.SortUniqueSorts` | include/columnar/dictionary.h:47-49 | Sort plus unique gives the strictly ascending list of the column's values |
| `Dictionary.ExtendElements` | include/columnar/dictionary.h:32-43 | First-occurrence order: the dictionary holds exactly the old entries and the column's values |
| `Dictionary.IndexBits` | include/columnar/dictionary.h:132-134 | The width loop finds the least width that numbers every entry |
| `Dictionary.Write` | include/columnar/dictionary.h:128-148 | Appends the dictionary and the indices at 8, 16 or 32 bits |
| `Dictionary.Read` | include/columnar/dictionary.h:150-187 | Reads dictionary, rebuilt map and indices from an image |
| `Dictionary.ImageRoundTrip` | include/columnar/dictionary.h:128-187 | Reading a written encoder restores dictionary, indices and map at every index width |
| `DeltaInterleaving.AlignedIffDistinct` | include/columnar/delta_store.h:55-63 | For whole-row self-stamped inserts into two or more columns: every schedule comes to rest with aligned columns if and only if no two inserts share a row id |
| `DeltaInterleaving.AlignedIffFullWidth` | include/columnar/delta_store.h:55-63 | With distinct row ids, every schedule that comes to rest leaves all columns with the same row-to-timestamp map if and only if every insert supplies all columns or none |
| `DeltaInterleaving.QuiescentColumns` | include/columnar/delta_store.h:58-61 | At rest each column holds exactly the versions of the inserts that reached it, whatever the schedule |
| `DeltaInterleaving.CountersAlways` | include/columnar/delta_store.h:56-62 | In every state of every run, flushes included, pending rows are completed inserts minus flushed rows (64-bit), self-drawn timestamps are pairwise distinct and given ones are used as given; at rest every insert is counted |
| `DeltaInterleaving.SameRowTears` | include/columnar/delta_store.h:58-61 | Two whole-row inserts on one row have a schedule that leaves one version in the first column and the other in the second |
| `DeltaInterleaving.SerialCall` | include/columnar/delta_store.h:55-72 | A call whose steps run without interleaving has exactly the method's effect |
| `DeltaStore.DeltaStore.Insert` | include/columnar/delta_store.h:55-63 | Each supplied column maps the row to the data with the given timestamp, or the next clock tick if it is 0; every other row, column and delete is unchanged; one row is counted |
| `DeltaStore.DeltaStore.Delete` | include/columnar/delta_store.h:65-72 | Every column records the row's delete at the given time, or the next clock tick if it is 0; every other delete and all inserts are unchanged; nothing is counted |
| `DeltaStore.DeltaStore.Get` | include/columnar/delta_store.h:74-92 | Finds a row exactly when it was inserted and no delete is recorded, and returns its version |
| `DeltaStore.DeltaStore.GetRange` | include/columnar/delta_store.h:94-107 | Reports, in ascending row order, exactly the rows of the range whose insert is newer than any recorded delete |
| `DeltaStore.DeltaStore.BeginFlush` | include/columnar/delta_store.h:126-128 | Sets the flushing flag only |
| `DeltaStore.DeltaStore.EndFlush` | include/columnar/delta_store.h:130-133 | Subtracts the flushed rows modulo 2^64, clears the flag and changes nothing else |
| `DeltaStore.DeltaStore.Clear` | include/columnar/delta_store.h:143-150 | Every column and the pending counter become empty; clock and flag stay |
| `DeltaStore.DeltaStore.VisitInserts` | include/columnar/delta_store.h:152-159 | Visits the column's inserts in ascending row order |
| `DeltaStore.VisitsMeaning` | include/columnar/delta_store.h:152-159 | Every insert is visited exactly once, deleted or not |
| `DeltaStore.AscendingUnique` | include/columnar/delta_store.h:156 | Ascending iteration of a map is determined by its key set |
| `DeltaStore.ReadsAfterHistory` | include/columnar/delta_store.h:74-107 | After every history of calls with any timestamps, a row's version is the data and stamp of its last insert; a range read reports it exactly when that stamp exceeds the last delete's, a point read exactly when it was inserted and never deleted; they differ exactly on rows whose newest write is an insert over a delete |
| `DeltaStore.SelfStampedOrder` | include/columnar/delta_store.h:56-57 | When every call draws its own stamp, the newest write of a row is its last one |
| `DeltaStore.GivenTimestampKept` | include/columnar/delta_store.h:55-63 | A timestamp given to an insert is the one a read returns |
| `DeltaStore.ReinsertedRowHidden` | include/columnar/delta_store.h:79-82 | Insert, delete, insert again: the range read sees the row and the point read does not |
| `FlushManager.DeletesSurviveIff` | include/columnar/delta_store.h:211-213 | Recorded deletes survive a compaction if and only if the store is flushing or has pending rows |
| `FlushManager.ActiveFlushingIff` | include/columnar/delta_store.h:190-197 | Taking a store for flushing makes a flushing store active if and only if the other store is still being flushed |
| `CompactionLoss.NothingLostIff` | include/columnar/delta_store.h:208-215 | Over every run of writers, flusher and compaction, step by step, that leaves no compaction half way: compaction discards only inserts that finished flushes accounted for if and only if, at each passed counter test, no insert into that store was between its first column write and its count, and before each reset none wrote a column still to be cleared or counted |
| `CompactionLoss.InsertsKept` | include/columnar/delta_store.h:55-63 | In such runs every column an insert has written is in its store and every insert that counted is in the pending count, until a finished flush accounts for it |
| `CompactionLoss.WipedRowsGone` | include/columnar/delta_store.h:143-150 | A column that compaction wiped no longer holds the row, with distinct row ids |
| `CompactionLoss.ConflictDooms` | include/columnar/delta_store.h:211-212 | A conflicting step leaves something unaccounted that the compaction under way will take |
| `CompactionLoss.SafeNext` | include/columnar/delta_store.h:208-215 | A step that does not conflict loses nothing and leaves only accounted inserts to be cleared |
| `FlushInterleaving.RunInv` | include/columnar/delta_store.h:184-215 | Every run, whatever the schedule, with one flush outstanding at a time: at most two stores, a valid active index that is never a flushing store, pending counters that stand for exactly the inserts counted and not settled, and every written column still held unless its insert was accounted for or wiped |
| `FlushInterleaving.BooksKept` | include/columnar/delta_store.h:55-150 | Each atomic step of a writer, the flusher or the compaction keeps the books |
| `FlushInterleaving.FlushKept` | include/columnar/delta_store.h:188-215 | Each step keeps the flush protocol: flags, active store and compaction's claim |
| `FlushSchedules.InsertAfterTestLost` | include/columnar/delta_store.h:211-212 | A whole insert between compaction's counter test and its clear is lost, row and count, though none was under way at the test |
| `FlushSchedules.CountAfterResetLost` | include/columnar/delta_store.h:143-150 | An insert under way at the test loses its column, and its late count leaves a pending row with no data |
| `FlushSchedules.SerialCompaction` | include/columnar/delta_store.h:208-215 | A compaction that nothing interleaves with has exactly the effect of CompactStores |
| `FlushSchedules.SerialTake` | include/columnar/delta_store.h:188-200 | The switch and the mark together are GetStoreForFlush |
| `FlushSchedules.SerialFinish` | include/columnar/delta_store.h:202-206 | The subtraction and the flag together are FinishFlush |
| `FlushManager.DeltaStoreManager.GetStoreForFlush` | include/columnar/delta_store.h:188-200 | A store is returned if and only if the active one's pending count is at least the threshold; then a second store is added if there was one only, the active index moves on and the old store is marked flushing; otherwise nothing changes |
| `FlushManager.DeltaStoreManager.FinishFlush` | include/columnar/delta_store.h:202-206 | Subtracts the flushed rows from an existing store and lowers its flag; an unknown index changes nothing |
| `FlushManager.DeltaStoreManager.CompactStores` | include/columnar/delta_store.h:208-215 | Run alone, empties exactly the stores that are not flushing and have no pending rows, keeping their clocks, and changes nothing else |
| `Merger.MergedRowIsOneRow` | include/columnar/merger.h:52-112 | With aligned delta columns, merged row k is one original row: each column independently shows its own cell of the same segment row or delta insert |
| `Merger.TogetherIffFullWidth` | include/columnar/merger.h:71-88 | After any schedule of inserts on distinct rows at rest, merging column by column keeps rows together if and only if every insert supplied all columns or none |
| `Merger.MergedMeaning` | include/columnar/merger.h:58-88 | A merge lists every segment row and every delta insert exactly once, by timestamp, and in collection order among equal timestamps |
| `Merger.MergedInTimeOrder` | include/columnar/merger.h:80-83 | Rows are listed by segment creation time and insert timestamp, segment rows before inserts of the same time, each kind in its own order |
| `Merger.ListsOnlyVisibleIff` | include/columnar/merger.h:71-78 | After any history of calls, a merged column lists only rows that a range read reports if and only if every row ever inserted in it has an insert as its newest write |
| `Merger.DeletedRowMerged` | include/columnar/merger.h:71-78 | A row inserted and then deleted is in no read and in every merge |
| `Merger.MergeColumn` | include/columnar/merger.h:52-112 | The output is the plain image of the merged column and the statistics hold its exact extremes |
| `Merger.CellOfValue` | include/columnar/merger.h:71-78 | An insert's bytes are read as the value they are the image of; bytes past the type's size are ignored |
| `Merger.CellOfShort` | include/columnar/merger.h:71-78 | Fewer bytes than the type has are zero-extended |
| `Merger.MergedValues` | include/columnar/merger.h:58-88 | A merged column holds exactly, with multiplicity, the segments' values and the inserts' values |
| `Merger.MergeHoldsInserts` | include/columnar/merger.h:52-112 | After any schedule of whole-row inserts of typed values on distinct rows comes to rest, each merged column holds exactly those values beside the segments' values |
| `Merger.Collect` | include/columnar/merger.h:58-78 | The collection loops gather every value with its timestamp in collection order |
| `Merger.Gather` | include/columnar/merger.h:85-88 | The sorted values are the collected ones in index order |
| `Merger.StableUnique` | include/columnar/merger.h:80-83 | Sorted, stable and complete determines the order, so any stable sort gives this one |
| `Merger.OrderSorted` | include/columnar/merger.h:80-83 | The order is sorted by timestamp and stable |
| `Merger.OrderIsIdentityIff` | include/columnar/merger.h:80-83 | Positions stay put if and only if timestamps never go down |
| `Merger.OriginsMeaning` | include/columnar/merger.h:61-78 | Every segment row and delta insert is collected exactly once |
| `Merger.ExecuteMerge` | include/columnar/merger.h:181-277 | Two or more segments are concatenated column by column with every segment row kept, creation time 0; a lone segment is returned as it is; whatever delta store the task carries, each column is short of ColumnMerger's by exactly its inserts |
| `Merger.MergeIsConcatenationIff` | include/columnar/merger.h:194-206 | The timestamp merge is plain concatenation if and only if the delta column has no inserts and the non-empty segments come in timestamp order |
| `Merger.MergesAgreeIff` | include/columnar/merger.h:194-206 | ColumnMerger and ExecuteMerge give a column the same values, whatever segments of that shape hold, if and only if the delta column has no inserts and the segments come in timestamp order |
| `Merger.InsertLost` | include/columnar/merger.h:181-187 | One insert of a value: ColumnMerger's column holds that value, ExecuteMerge's is empty |
| `StoredScan.StoredScanExact` | include/columnar/segment.h:256-291 | From file to result: writing equal-length Int32/Int64 columns, reopening the file and scanning it returns exactly the rows of the original columns that satisfy a sound chain, given matching indexes on the first comparison's column |
| `StoredScan.LoadedValid` | include/columnar/segment.h:75-133 | The reopened file is a valid segment with the original columns and types |
| `StoredScan.MissingBloomHoldsNothing` | include/columnar/segment.h:109-111 | A column stored without a bloom filter reads back a filter that holds no key at all |
| `StoredScan.ExactWithoutFilterIff` | include/columnar/segment.h:109-111 | On every file without a filter on the first comparison's column, a chain sound without bloom pruning scans exactly if and only if bloom pruning is off, the first operator is not an equality, or the chain matches nothing |
| `StoredScan.StoredRowLost` | include/columnar/segment.h:109-111 | One value stored without a filter and looked up by equality under the default flags: the file loses its only row |
| `SegmentIo.RangeRoundTrip` | include/columnar/segment.h:256-271 | Reopening and reading any row range of any Plain or Delta column returns the original values |
| `SegmentIo.SegmentWriter.constructor` | include/columnar/segment.h:302-306 | The creation time is copied before a timestamp can be set, so it is 0 |
| `SegmentIo.SegmentWriter.SetTimestamp` | include/columnar/segment.h:152 | Sets the timestamp and leaves what will be written unchanged |
| `SegmentIo.SegmentWriter.AddColumn` | include/columnar/segment.h:155-189 | Adds the column's encoded bytes and its statistics: type, total, nulls, distinct values and exact extremes; the row count becomes the longest column's |
| `SegmentIo.SegmentWriter.AddZoneMap` | include/columnar/segment.h:191-194 | Sets the column's map, padding with empty maps |
| `SegmentIo.SegmentWriter.AddBloomFilter` | include/columnar/segment.h:196-199 | Sets the column's filter, padding with all-zero default filters |
| `SegmentIo.SegmentWriter.WritePieces` | include/columnar/segment.h:324-355 | Appends a column's data, zone map and filter and records where they are, with its type, encoding and statistics |
| `SegmentIo.SegmentWriter.Finish` | include/columnar/segment.h:312-372 | The sequential writes, the seek and the header rewrite leave a file that, within the field widths, reads back with magic 0x434F4C53, version 1, the row count, and for each column the type, encoding, statistics, values, zone map and filter it was given; the creation time reads 0, which equals the timestamp set if and only if that was 0 |
| `SegmentIo.ImageHolds` | include/columnar/segment.h:312-372 | The file image reads back as the columns given to AddColumn, statistics included |
| `SegmentIo.CountTrueMeaning` | include/columnar/segment.h:168 | The recorded null count is the number of null rows |
| `SegmentIo.WriteHeader` | include/columnar/segment.h:357-367 | The header rewrite replaces exactly the placeholder and touches nothing behind it |
| `SegmentIo.WriteFixed` | include/columnar/segment.h:358-364 | The six fixed fields fill exactly the first 36 bytes |
| `SegmentIo.StatMinMax` | include/columnar/segment.h:171-182 | The exact extremes over the first row and every later non-null row |
| `SegmentIo.SegmentReader.GetColumn` | include/columnar/segment.h:75-96 | The cache is transparent: the result is what the file decodes to |
| `SegmentIo.SegmentReader.GetColumnData` | include/columnar/segment.h:256-271 | The requested rows of the decoded column |
| `SegmentIo.DecodeFrom` | include/columnar/segment.h:84-92 | Decodes the column's region with as many rows as its bytes hold |
| `SegmentFile.RegionsDisjoint` | include/columnar/segment.h:324-355 | All data, zone-map and filter regions lie after the header and inside the file, and no two overlap |
| `SegmentFile.PiecesInPlace` | include/columnar/segment.h:334-352 | Each region of the finished file holds the bytes put there |
| `SegmentFile.OffsetsExact` | include/columnar/segment.h:334-351 | In a file below 2^32 bytes the 32-bit offsets and sizes are exact |
| `SegmentFile.ReopenedHeader` | include/columnar/segment.h:121-133 | The reopened header is the written one |
| `SegmentFile.ReopenedColumn` | include/columnar/segment.h:84-92 | Decoding a column's region gives its values, for Plain and Delta |
| `SegmentFile.ReopenedZoneMap` | include/columnar/segment.h:98-107 | A zone map with blocks reads back as written, otherwise an empty map that prunes nothing |
| `SegmentFile.ReopenedBloom` | include/columnar/segment.h:109-118 | A filter reads back as written, a missing one as the default |
| `SegmentHeader.HeaderRoundTrip` | include/columnar/segment.h:121-133 | A written header reads back unchanged, whatever follows it |
| `SegmentHeader.MetaRoundTrip` | include/columnar/segment.h:34-44 | A column record of 136 bytes reads back unchanged |
| `SegmentHeader.MetaLayout` | include/columnar/segment.h:34-44 | Where the fields of a column record are, and the numbers that stand for types and encodings |
| `SegmentHeader.StatsRoundTrip` | include/columnar/types.h:142-155 | A column's statistics read back unchanged |

## Left out

- SIMD bodies and everything under `include/simd`: the scalar forms are modelled.
- Float, Double, Boolean and Varchar columns: no useful exact statement, or no encoder.
- ZigZag and `ForZigZag*`: the logical shift does not invert on negative values.
- `MightContainBatch` under AVX-512: it hashes differently from `Add`.
- `encoding::DictEncoder`: its wider index forms write too few bytes; `dictionary.h` is modelled instead.
- Int32 instances of `bitpack.h` and `for.h`: their shifts are done in 32 bits; the Int64 instances are modelled.
- Segment read-back of run-length, frame-of-reference, bit-pack and dictionary columns: the row count is taken from the encoded size, so these are proved at codec level only.
- `Predicate::CanMatchZoneMap` and `CanMatchBloom`: the scan does not use them.
- Null tests inside scans: segments store no null bits; their interpreter and zone-map behaviour is modelled.
- `AggregateScanner`, column projection and context callbacks: sums in double precision and plumbing.
- ZSTD and LZ4 wrappers, encoder factories, thread pool, task queue, futures, timing fields, `MemoryUsage`: library calls or bookkeeping.
- Memory orderings weaker than sequential consistency: one event is one step that every thread sees.
- Fairness of the thread scheduler: runs are any finite sequence of steps.
- Readers of the delta store that run between the column writes of an insert: only states at rest are proved aligned.
- FlushManager.DeltaStoreManager.GetStoreForFlush: returns the store's index where the code returns a pointer; writes through a pointer taken earlier are steps of FlushInterleaving.
- FlushManager.DeltaStoreManager.CompactStores: its effect when nothing runs beside it; the interleaved steps are those of FlushInterleaving.
- FlushInterleaving.RunInv: a flush reports the pending count it read, and a second flush does not start before the first has ended (FlushManager.ActiveFlushingIff says what happens otherwise).
- Growth of the vector of stores while another thread indexes it.
- Dictionary.Write: dictionaries of more than 2^31 entries, where the width loop shifts by the word size.
- Dictionary.IndexBits: the same bound; beyond it the code's shift is undefined.
- ZoneMap.Update: stated for a fresh entry, the only way the map builds entries.
- Bloom.NoFalseNegatives: false positives are not bounded.
- Merger.MergeColumn: floating-point columns and the encoding parameter, which the code ignores in favour of Plain.
- Merger.ExecuteMerge: the statistics it computes and drops, and the encoding of the written columns.
- SegmentIo.SegmentWriter.AddColumn: Plain and Delta only; other encodings are proved at codec level.
- SegmentIo.SegmentReader.GetColumnData: the caller asks for rows the column has, as the copy in the code demands.
- File errors, the destructor that finishes an open writer, and prefetching.
