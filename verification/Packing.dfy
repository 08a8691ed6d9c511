// Packing fixed-width values into words: the layout theory shared by the three
// bit-packing codecs. Values are OR-ed one after the other into zeroed words,
// either back to back (dense, straddling words) or in lanes of whole words.
module Packing {
  import opened Bits
  import opened BitStream
  import opened Types

  // ---- windows of equal width that do not overlap

  ghost predicate Apart(ps: seq<nat>, bits: nat) {
    forall i, j :: 0 <= i < j < |ps| ==> ps[i] + bits <= ps[j]
  }

  ghost predicate Room(width: nat, bits: nat, ps: seq<nat>, len: nat) {
    && WordSize(width) && 0 < bits <= width
    && forall i :: 0 <= i < |ps| ==> ps[i] + bits <= Capacity(width, len)
  }

  ghost predicate AllFit(vals: seq<nat>, bits: nat) {
    forall i :: 0 <= i < |vals| ==> vals[i] < Pow2(bits)
  }

  function Zeros(len: nat): (r: seq<nat>)
    ensures |r| == len
  {
    seq(len, _ => 0)
  }

  /** The words after OR-ing value i in at position ps[i], for every i in turn. */
  ghost function PackWords(width: nat, bits: nat, vals: seq<nat>, ps: seq<nat>, len: nat): (r: seq<nat>)
    requires |ps| == |vals| && Room(width, bits, ps, len)
    ensures |r| == len
    decreases |vals|
  {
    if |vals| == 0 then Zeros(len)
    else
      var last := |vals| - 1;
      PutBits(PackWords(width, bits, vals[..last], ps[..last], len), width, ps[last], bits, vals[last])
  }

  lemma {:induction false} PackIsWords(width: nat, bits: nat, vals: seq<nat>, ps: seq<nat>, len: nat)
    requires |ps| == |vals| && Room(width, bits, ps, len) && AllFit(vals, bits)
    ensures Words(PackWords(width, bits, vals, ps, len), width)
    decreases |vals|
  {
    if |vals| > 0 {
      var last := |vals| - 1;
      PackIsWords(width, bits, vals[..last], ps[..last], len);
      PutBitsWords(PackWords(width, bits, vals[..last], ps[..last], len), width, ps[last], bits, vals[last]);
    }
  }

  /** A bit outside every window is still zero. */
  lemma {:induction false} PackClear(width: nat, bits: nat, vals: seq<nat>, ps: seq<nat>, len: nat, p: nat)
    requires |ps| == |vals| && Room(width, bits, ps, len) && AllFit(vals, bits)
    requires forall i :: 0 <= i < |ps| ==> ps[i] + bits <= p
    ensures !StreamBit(PackWords(width, bits, vals, ps, len), width, p)
    decreases |vals|
  {
    if |vals| == 0 {
      BitZero(OffsetOf(width, p));
    } else {
      var last := |vals| - 1;
      PackClear(width, bits, vals[..last], ps[..last], len, p);
      PutBitsEffect(PackWords(width, bits, vals[..last], ps[..last], len), width, ps[last], bits, vals[last], p);
    }
  }

  /** Every window holds its own value's bits: later writes disturb nothing. */
  lemma {:induction false} PackHolds(width: nat, bits: nat, vals: seq<nat>, ps: seq<nat>, len: nat, i: nat, k: nat)
    requires |ps| == |vals| && Room(width, bits, ps, len) && AllFit(vals, bits) && Apart(ps, bits)
    requires i < |vals| && k < bits
    ensures StreamBit(PackWords(width, bits, vals, ps, len), width, ps[i] + k) == Bit(vals[i], k)
    decreases |vals|
  {
    hide StreamBit, PutBits, Bit;
    var last := |vals| - 1;
    var p := ps[i] + k;
    PutBitsEffect(PackWords(width, bits, vals[..last], ps[..last], len), width, ps[last], bits, vals[last], p);
    if i < last {
      assert ps[i] + bits <= ps[last];
      PackHolds(width, bits, vals[..last], ps[..last], len, i, k);
    } else {
      PackClear(width, bits, vals[..last], ps[..last], len, p);
    }
  }

  /** Unpacking any index returns the value packed there. */
  lemma UnpackReturns(width: nat, bits: nat, vals: seq<nat>, ps: seq<nat>, len: nat, i: nat)
    requires |ps| == |vals| && Room(width, bits, ps, len) && AllFit(vals, bits) && Apart(ps, bits)
    requires i < |vals|
    ensures Window(width, len, ps[i], bits)
    ensures GetBits(PackWords(width, bits, vals, ps, len), width, ps[i], bits) == vals[i]
  {
    var words := PackWords(width, bits, vals, ps, len);
    PackIsWords(width, bits, vals, ps, len);
    forall k: nat | k < bits
      ensures StreamBit(words, width, ps[i] + k) == Bit(vals[i], k)
    {
      PackHolds(width, bits, vals, ps, len, i, k);
    }
    GetReturns(words, width, ps[i], bits, vals[i]);
  }

  // ---- the dense layout: value i at bit i * bits

  function DenseAt(bits: nat, i: nat): nat { i * bits }

  ghost function DensePositions(bits: nat, count: nat): (ps: seq<nat>)
    ensures |ps| == count
  {
    seq(count, i requires 0 <= i => DenseAt(bits, i))
  }

  lemma DenseStep(bits: nat, i: nat)
    ensures DenseAt(bits, i + 1) == DenseAt(bits, i) + bits
  {
  }

  lemma {:induction false} DenseApart(bits: nat, i: nat, j: nat)
    requires i < j
    ensures DenseAt(bits, i) + bits <= DenseAt(bits, j)
    decreases j
  {
    DenseStep(bits, j - 1);
    if i < j - 1 { DenseApart(bits, i, j - 1); }
  }

  /** ceil(count * bits / width) words give every value its window. */
  lemma DenseRoom(width: nat, bits: nat, count: nat, len: nat)
    requires WordSize(width) && 0 < bits <= width
    requires DenseAt(bits, count) <= Capacity(width, len)
    ensures Room(width, bits, DensePositions(bits, count), len)
    ensures Apart(DensePositions(bits, count), bits)
  {
    forall i, j | 0 <= i < j <= count ensures DenseAt(bits, i) + bits <= DenseAt(bits, j) {
      DenseApart(bits, i, j);
    }
    forall i | 0 <= i < count ensures DensePositions(bits, count)[i] + bits <= Capacity(width, len) {
      assert DenseAt(bits, i) + bits <= DenseAt(bits, count);
    }
  }

  // ---- the lane layout: 64 / bits values to a word, none crossing it

  function LanesPerWord(bits: nat): (r: nat)
    requires 0 < bits <= 64
    ensures 1 <= r && r * bits <= 64
  {
    LaneCount(bits);
    64 / bits
  }

  lemma LaneCount(bits: nat)
    requires 0 < bits <= 64
    ensures 1 <= 64 / bits && 64 / bits * bits <= 64
  {
    var q := 64 / bits;
    assert 64 == q * bits + 64 % bits;
    if q < 1 { ScaleGap(q, 1, bits); }
  }

  function LaneAt(bits: nat, i: nat): nat
    requires 0 < bits <= 64
  {
    64 * LaneWord(bits, i) + LaneShift(bits, i)
  }

  /** i / values_per_word */
  function LaneWord(bits: nat, i: nat): nat
    requires 0 < bits <= 64
  {
    DivNat(i, LanesPerWord(bits));
    i / LanesPerWord(bits)
  }

  /** (i % values_per_word) * bits */
  function LaneShift(bits: nat, i: nat): nat
    requires 0 < bits <= 64
  {
    i % LanesPerWord(bits) * bits
  }

  lemma DivNat(n: nat, d: nat)
    requires d > 0
    ensures n / d >= 0
  {
  }

  ghost function LanePositions(bits: nat, count: nat): (ps: seq<nat>)
    requires 0 < bits <= 64
    ensures |ps| == count
  {
    seq(count, i requires 0 <= i => LaneAt(bits, i))
  }

  lemma LaneFits(lane: nat, lanes: nat, bits: nat)
    requires lane < lanes && lanes * bits <= 64 && bits > 0
    ensures lane * bits + bits <= 64
  {
    ScaleGap(lane, lanes, bits);
  }

  /** With whole-word lanes no value crosses a word. */
  lemma LaneStaysInWord(bits: nat, i: nat)
    requires 0 < bits <= 64
    ensures WordOf(64, LaneAt(bits, i)) == LaneWord(bits, i)
    ensures OffsetOf(64, LaneAt(bits, i)) == LaneShift(bits, i)
    ensures LaneShift(bits, i) + bits <= 64
  {
    LaneFits(i % LanesPerWord(bits), LanesPerWord(bits), bits);
  }

  lemma SuccessorQuotient(i: nat, d: nat)
    requires d > 0
    ensures i % d + 1 < d ==> (i + 1) / d == i / d && (i + 1) % d == i % d + 1
    ensures i % d + 1 == d ==> (i + 1) / d == i / d + 1 && (i + 1) % d == 0
  {
    var q, r := i / d, i % d;
    assert i == q * d + r;
    if r + 1 < d {
      DivUnique(i + 1, d, q, r + 1);
    } else {
      assert (q + 1) * d == q * d + d;
      DivUnique(i + 1, d, q + 1, 0);
    }
  }

  lemma LaneStep(bits: nat, i: nat)
    requires 0 < bits <= 64
    ensures LaneAt(bits, i) + bits <= LaneAt(bits, i + 1)
  {
    var lanes := LanesPerWord(bits);
    SuccessorQuotient(i, lanes);
    var lane := i % lanes;
    LaneFits(lane, lanes, bits);
    assert (lane + 1) * bits == lane * bits + bits;
  }

  lemma {:induction false} LaneApart(bits: nat, i: nat, j: nat)
    requires 0 < bits <= 64 && i < j
    ensures LaneAt(bits, i) + bits <= LaneAt(bits, j)
    decreases j
  {
    LaneStep(bits, j - 1);
    if i < j - 1 { LaneApart(bits, i, j - 1); }
  }

  lemma QuotientMono(i: nat, j: nat, d: nat)
    requires d > 0 && i <= j
    ensures i / d <= j / d
  {
    assert i == i / d * d + i % d && j == j / d * d + j % d;
    if j / d < i / d { ScaleGap(j / d, i / d, d); }
  }

  /** One word per started group of lanes is enough. */
  lemma LaneRoom(bits: nat, count: nat, len: nat)
    requires 0 < bits <= 64 && (count > 0 ==> LaneWord(bits, count - 1) < len)
    ensures Room(64, bits, LanePositions(bits, count), len)
    ensures Apart(LanePositions(bits, count), bits)
  {
    forall i, j | 0 <= i < j < count ensures LaneAt(bits, i) + bits <= LaneAt(bits, j) {
      LaneApart(bits, i, j);
    }
    forall i | 0 <= i < count ensures LaneAt(bits, i) + bits <= Capacity(64, len) {
      LaneStaysInWord(bits, i);
      QuotientMono(i, count - 1, LanesPerWord(bits));
    }
  }

  // ---- the width of a range

  predicate LeastWidth(bits: nat, range: nat) {
    range < Pow2(bits) && (bits > 0 ==> Pow2(bits - 1) <= range)
  }

  lemma LeastWidthUnique(a: nat, b: nat, range: nat)
    requires LeastWidth(a, range) && LeastWidth(b, range)
    ensures a == b
  {
    if a < b { Pow2Mono(a, b - 1); }
    if b < a { Pow2Mono(b, a - 1); }
  }

  lemma Pow2Step(n: nat)
    ensures Pow2(0) == 1 && Pow2(n + 1) == 2 * Pow2(n)
  {
  }

  lemma Pow2Sizes()
    ensures Pow2(31) == TWO_31 && Pow2(32) == TWO_32 && Pow2(63) == TWO_63 && Pow2(64) == TWO_64
  {
    hide Pow2;
    Pow2Step(0);
    Pow2Add(1, 1);
    Pow2Add(2, 2);
    Pow2Add(4, 4);
    Pow2Add(8, 8);
    Pow2Add(16, 16);
    Pow2Add(32, 32);
    Pow2Step(31);
    Pow2Step(63);
  }

  /** 1 << bits, for a defined shift amount, is the power of two. */
  lemma {:induction false} ShiftedOne(bits: nat, width: nat)
    requires bits < width
    ensures Shl(1, bits, width) == Pow2(bits)
  {
    ScaleUpIsProduct(1, bits);
    LowBitsKeeps(Pow2(bits), width);
  }

  lemma LowBitsKeeps(w: nat, n: nat)
    requires exists k: nat :: k < n && w == Pow2(k)
    ensures LowBits(w, n) == w
  {
    var k: nat :| k < n && w == Pow2(k);
    Pow2Mono(k + 1, n);
    LowBitsIsRemainder(w, n);
    DivUnique(w, Pow2(n), 0, w);
  }

  /** The width loop: the least number of bits holding the range, at most 63
      because the shift is only defined below the word size. */
  method WidthOf(range: nat) returns (bits: nat)
    requires range < TWO_63
    ensures LeastWidth(bits, range) && bits <= 63
  {
    Pow2Sizes();
    bits := 0;
    ShiftedOne(0, 64);
    while Shl(1, bits, 64) <= range && bits < 64
      invariant bits <= 63 && Shl(1, bits, 64) == Pow2(bits)
      invariant bits > 0 ==> Pow2(bits - 1) <= range
      decreases 64 - bits
    {
      if bits == 63 { assert false; }
      bits := bits + 1;
      ShiftedOne(bits, 64);
    }
  }

  // ---- extremes of a column

  ghost predicate Extremes(xs: seq<int>, lo: int, hi: int) {
    && lo in xs && hi in xs
    && forall i :: 0 <= i < |xs| ==> lo <= xs[i] <= hi
  }

  lemma ExtremesUnique(xs: seq<int>, lo: int, hi: int, lo': int, hi': int)
    requires Extremes(xs, lo, hi) && Extremes(xs, lo', hi')
    ensures lo == lo' && hi == hi'
  {
  }

  /** The scan for minimum and maximum that opens every encoder. */
  method MinMax(xs: seq<int>) returns (lo: int, hi: int)
    requires |xs| > 0
    ensures Extremes(xs, lo, hi)
  {
    lo, hi := xs[0], xs[0];
    var i := 1;
    while i < |xs|
      invariant 1 <= i <= |xs|
      invariant Extremes(xs[..i], lo, hi)
    {
      assert xs[..i + 1] == xs[..i] + [xs[i]];
      if xs[i] < lo { lo := xs[i]; }
      if xs[i] > hi { hi := xs[i]; }
      i := i + 1;
    }
    assert xs[..i] == xs;
  }

  // ---- columns as offsets from their minimum

  /** Every pairwise difference is below the limit, so no subtraction overflows. */
  ghost predicate RangeBelow(xs: seq<int>, limit: int) {
    forall i, j :: 0 <= i < |xs| && 0 <= j < |xs| ==> xs[i] - xs[j] < limit
  }

  ghost function Deltas(xs: seq<int>, lo: int): (ds: seq<nat>)
    requires forall i :: 0 <= i < |xs| ==> lo <= xs[i]
    ensures |ds| == |xs| && forall i :: 0 <= i < |xs| ==> ds[i] == xs[i] - lo
  {
    seq(|xs|, i requires 0 <= i < |xs| => xs[i] - lo)
  }

  lemma DeltasFit(xs: seq<int>, lo: int, hi: int, bits: nat)
    requires Extremes(xs, lo, hi) && LeastWidth(bits, hi - lo)
    ensures AllFit(Deltas(xs, lo), bits)
  {
  }

  lemma ExtremesRange(xs: seq<int>, lo: int, hi: int, limit: int)
    requires Extremes(xs, lo, hi) && RangeBelow(xs, limit)
    ensures 0 <= hi - lo < limit
  {
  }

  /** Before the first turn of a packing loop. */
  lemma PackNone(width: nat, bits: nat, vals: seq<nat>, ps: seq<nat>, len: nat)
    requires |ps| == |vals| && Room(width, bits, ps, len)
    ensures PackWords(width, bits, vals[..0], ps[..0], len) == Zeros(len)
  {
  }

  /** One turn of a packing loop. */
  lemma PackStep(width: nat, bits: nat, vals: seq<nat>, ps: seq<nat>, len: nat, i: nat)
    requires |ps| == |vals| && Room(width, bits, ps, len) && i < |vals|
    ensures PackWords(width, bits, vals[..i + 1], ps[..i + 1], len)
         == PutBits(PackWords(width, bits, vals[..i], ps[..i], len), width, ps[i], bits, vals[i])
  {
    assert vals[..i + 1][..i] == vals[..i] && ps[..i + 1][..i] == ps[..i];
  }

  /** The words a whole column packs into, densely. */
  ghost function DenseWords(width: nat, bits: nat, vals: seq<nat>): (r: seq<nat>)
    requires WordSize(width) && 0 < bits <= width
    ensures |r| == WordCount(width, DenseAt(bits, |vals|))
  {
    DenseRoom(width, bits, |vals|, WordCount(width, DenseAt(bits, |vals|)));
    PackWords(width, bits, vals, DensePositions(bits, |vals|), WordCount(width, DenseAt(bits, |vals|)))
  }

  /** (bits + width - 1) / width */
  function WordCount(width: nat, bits: nat): nat
    requires WordSize(width)
  {
    if width == 64 then (bits + 63) / 64 else (bits + 31) / 32
  }

  /** Dense unpacking inverts dense packing, index by index. */
  lemma DenseRoundTrip(width: nat, bits: nat, vals: seq<nat>, i: nat)
    requires WordSize(width) && 0 < bits <= width && AllFit(vals, bits) && i < |vals|
    ensures Window(width, |DenseWords(width, bits, vals)|, DenseAt(bits, i), bits)
    ensures GetBits(DenseWords(width, bits, vals), width, DenseAt(bits, i), bits) == vals[i]
    ensures Words(DenseWords(width, bits, vals), width)
  {
    hide GetBits, PackWords, Window;
    var len := WordCount(width, DenseAt(bits, |vals|));
    DenseRoom(width, bits, |vals|, len);
    UnpackReturns(width, bits, vals, DensePositions(bits, |vals|), len, i);
    PackIsWords(width, bits, vals, DensePositions(bits, |vals|), len);
  }

  lemma {:induction false} MaskKeeps(v: nat, bits: nat)
    requires v < Pow2(bits)
    ensures And(v, Mask(bits)) == v
  {
    if bits > 0 && v > 0 {
      assert Mask(bits) / 2 == Mask(bits - 1);
      MaskKeeps(v / 2, bits - 1);
    }
  }

  // ---- a packed column and its reading back

  /** What every dense codec stores for a non-empty column: its minimum, the
      least width that holds its range, and its offsets packed at that width. */
  ghost predicate IsPacking(width: nat, lo: int, bits: nat, packed: seq<nat>, data: seq<int>) {
    && WordSize(width) && bits < width
    && (exists hi: int {:trigger Extremes(data, lo, hi)} :: Extremes(data, lo, hi) && LeastWidth(bits, hi - lo))
    && packed == if bits == 0 then [] else DenseWords(width, bits, Deltas(data, lo))
  }

  /** The value a decoder produces at index i: the minimum plus the value read
      at bit i * bits, in the column's type. */
  function UnpackAt(t: DataType, width: nat, lo: int, bits: nat, packed: seq<nat>, i: nat): int {
    if bits == 0 then lo
    else if Window(width, |packed|, DenseAt(bits, i), bits)
      then Rebased(t, lo, GetBits(packed, width, DenseAt(bits, i), bits))
    else 0
  }

  /** min_val + static_cast<NativeType>(value) */
  function Rebased(t: DataType, lo: int, value: nat): int {
    Wrap(t, lo + Wrap(t, value))
  }

  lemma RebasedExact(t: DataType, lo: int, x: int)
    requires InRange(t, lo) && InRange(t, x) && 0 <= x - lo < HalfRange(t)
    ensures Rebased(t, lo, x - lo) == x
  {
  }

  /** Reading a packing back gives the column. */
  lemma UnpackColumn(t: DataType, width: nat, lo: int, bits: nat, packed: seq<nat>, data: seq<int>, i: nat)
    requires IsPacking(width, lo, bits, packed, data) && AllInRange(t, data) && RangeBelow(data, HalfRange(t))
    requires i < |data|
    ensures UnpackAt(t, width, lo, bits, packed, i) == data[i]
  {
    hide GetBits, DenseWords, Window, Rebased;
    var hi :| Extremes(data, lo, hi) && LeastWidth(bits, hi - lo);
    RebasedExact(t, lo, data[i]);
    if bits > 0 {
      DeltasFit(data, lo, hi, bits);
      DenseRoundTrip(width, bits, Deltas(data, lo), i);
    }
  }

  /** A packing has the words its readers index. */
  lemma PackingRoom(width: nat, lo: int, bits: nat, packed: seq<nat>, data: seq<int>)
    requires IsPacking(width, lo, bits, packed, data) && bits > 0
    ensures DenseAt(bits, |data|) <= Capacity(width, |packed|)
    ensures Words(packed, width)
  {
    hide PackWords;
    var hi :| Extremes(data, lo, hi) && LeastWidth(bits, hi - lo);
    DeltasFit(data, lo, hi, bits);
    DenseRoundTrip(width, bits, Deltas(data, lo), 0);
  }

  lemma ReadWindow(width: nat, bits: nat, count: nat, len: nat, i: nat)
    requires WordSize(width) && 0 < bits <= width && DenseAt(bits, count) <= Capacity(width, len) && i < count
    ensures Window(width, len, DenseAt(bits, i), bits)
  {
    DenseApart(bits, i, count);
  }

  // ---- the lane codec's words

  ghost function LaneWords(bits: nat, vals: seq<nat>): (r: seq<nat>)
    requires 0 < bits <= 64
    ensures |r| == LaneWordCount(bits, |vals|)
  {
    LaneWordsSuffice(bits, |vals|);
    LaneRoom(bits, |vals|, LaneWordCount(bits, |vals|));
    PackWords(64, bits, vals, LanePositions(bits, |vals|), LaneWordCount(bits, |vals|))
  }

  /** (count + values_per_word - 1) / values_per_word */
  function LaneWordCount(bits: nat, count: nat): nat
    requires 0 < bits <= 64
  {
    CeilingDivision(count, LanesPerWord(bits))
  }

  function CeilingDivision(n: nat, d: nat): nat
    requires d > 0
  {
    QuotientMono(0, n + d - 1, d);
    DivUnique(0, d, 0, 0);
    (n + d - 1) / d
  }

  lemma LaneWordsSuffice(bits: nat, count: nat)
    requires 0 < bits <= 64
    ensures count > 0 ==> LaneWord(bits, count - 1) < LaneWordCount(bits, count)
  {
    var lanes := LanesPerWord(bits);
    if count > 0 {
      var q, r := (count - 1) / lanes, (count - 1) % lanes;
      assert count - 1 == q * lanes + r;
      assert (q + 1) * lanes == q * lanes + lanes;
      DivUnique(count + lanes - 1, lanes, q + 1, r);
    }
  }

  /** A lane put touches one word: packed[i / lanes] |= value << shift. */
  lemma LanePut(words: seq<nat>, bits: nat, i: nat, v: nat)
    requires 0 < bits <= 64 && Window(64, |words|, LaneAt(bits, i), bits)
    ensures LaneWord(bits, i) < |words|
    ensures PutBits(words, 64, LaneAt(bits, i), bits, v)
         == OrWord(words, LaneWord(bits, i), Shl(v, LaneShift(bits, i), 64))
  {
    hide Shl, LaneWord, LaneShift;
    WindowIsCell(64, |words|, LaneAt(bits, i), bits);
    LaneStaysInWord(bits, i);
  }

  /** A lane get reads one word: (packed[i / lanes] >> shift) & mask. */
  lemma LaneGet(words: seq<nat>, bits: nat, i: nat)
    requires 0 < bits <= 64 && Window(64, |words|, LaneAt(bits, i), bits)
    ensures LaneWord(bits, i) < |words|
    ensures GetBits(words, 64, LaneAt(bits, i), bits)
         == And(Shr(words[LaneWord(bits, i)], LaneShift(bits, i)), Mask(bits))
  {
    hide Shr, And, Mask, LaneWord, LaneShift;
    WindowIsCell(64, |words|, LaneAt(bits, i), bits);
    LaneStaysInWord(bits, i);
  }

  lemma LaneWindow(bits: nat, count: nat, len: nat, i: nat)
    requires 0 < bits <= 64 && count > 0 && LaneWord(bits, count - 1) < len && i < count
    ensures Window(64, len, LaneAt(bits, i), bits)
  {
    LaneStaysInWord(bits, i);
    QuotientMono(i, count - 1, LanesPerWord(bits));
  }

  lemma LaneRoundTrip(bits: nat, vals: seq<nat>, i: nat)
    requires 0 < bits <= 64 && AllFit(vals, bits) && i < |vals|
    ensures Window(64, |LaneWords(bits, vals)|, LaneAt(bits, i), bits)
    ensures GetBits(LaneWords(bits, vals), 64, LaneAt(bits, i), bits) == vals[i]
    ensures Words(LaneWords(bits, vals), 64)
  {
    hide GetBits, PackWords, Window, LaneAt, LaneWordCount;
    var len := LaneWordCount(bits, |vals|);
    LaneWordsSuffice(bits, |vals|);
    LaneRoom(bits, |vals|, len);
    UnpackReturns(64, bits, vals, LanePositions(bits, |vals|), len, i);
    PackIsWords(64, bits, vals, LanePositions(bits, |vals|), len);
  }
}
