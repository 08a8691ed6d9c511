// Bloom filters (include/columnar/bloom_filter.h), for any 64-bit hash and for the
// one the filters use.
module Bloom {
  import opened Types
  import opened Bits
  import opened BitStream
  import opened Packing
  import opened Bytes
  import M = Murmur

  /** hash(value bits, seed) */
  type Hash = (nat, nat) -> nat

  /** The hash of the filters; the other results hold for any. */
  const MURMUR: Hash := (value, seed) => M.MurmurHash64(value, seed)

  const SEED_1: nat := 0x9e37_79b9_7f4a_7c15
  const SEED_2: nat := 0xbf58_476d_1ce4_e5b9

  datatype Filter = Filter(bits: seq<nat>, numBits: nat, numHashes: nat)

  function WordsFor(numBits: nat): nat { (numBits + 63) / 64 }

  ghost predicate WellFormed(f: Filter) {
    && 0 < f.numBits < TWO_64 && f.numHashes < TWO_64
    && |f.bits| == WordsFor(f.numBits) && Words(f.bits, 64)
  }

  function Fresh(numBits: nat, numHashes: nat): Filter { Filter(Zeros(WordsFor(numBits)), numBits, numHashes) }

  /** The key bits of a typed value: its bytes, zero-extended to 64 bits. */
  function KeyOf(t: DataType, v: int): nat
    requires InRange(t, v)
  {
    Unsigned(t, v)
  }

  /** Double hashing, then the bit index */
  function Position(hash: Hash, key: nat, i: nat, numBits: nat): (p: nat)
    requires numBits > 0
    ensures p < numBits
  {
    Modulo((hash(key, SEED_1) + i * hash(key, SEED_2)) % TWO_64, numBits)
  }

  function Modulo(n: nat, d: nat): (r: nat)
    requires d > 0
    ensures r < d
  {
    n % d
  }

  // ---- single bits

  /** bits[p / 64] |= 1 << (p % 64) */
  function SetBit(words: seq<nat>, p: nat): (r: seq<nat>)
    requires p / 64 < |words|
    ensures |r| == |words|
  {
    OrWord(words, p / 64, Shl(1, p % 64, 64))
  }

  /** bits[p / 64] & (1 << (p % 64)) is non-zero */
  predicate TestBit(words: seq<nat>, p: nat)
    requires p / 64 < |words|
  {
    And(words[p / 64], Shl(1, p % 64, 64)) != 0
  }

  lemma BitOne(k: nat)
    ensures Bit(1, k) == (k == 0)
  {
    if k > 0 { BitZero(k - 1); }
  }

  lemma SetBitEffect(words: seq<nat>, p: nat, q: nat)
    requires p / 64 < |words|
    ensures StreamBit(SetBit(words, p), 64, q) == (StreamBit(words, 64, q) || q == p)
  {
    if q / 64 == p / 64 {
      BitOr(words[p / 64], Shl(1, p % 64, 64), q % 64);
      BitShl(1, p % 64, 64, q % 64);
      if q % 64 >= p % 64 { BitOne(q % 64 - p % 64); }
    }
  }

  lemma SetBitWords(words: seq<nat>, p: nat)
    requires p / 64 < |words| && Words(words, 64)
    ensures Words(SetBit(words, p), 64)
  {
    hide Shl;
    ShiftedOne(p % 64, 64);
    Pow2Mono(p % 64 + 1, 64);
    Pow2Step(p % 64);
    OrWordWords(words, 64, p / 64, Shl(1, p % 64, 64));
  }

  lemma {:induction false} AndLe(a: nat, b: nat)
    ensures And(a, b) <= b
  {
    if a != 0 && b != 0 { AndLe(a / 2, b / 2); }
  }

  lemma TestBitMeaning(words: seq<nat>, p: nat)
    requires p / 64 < |words|
    ensures TestBit(words, p) == StreamBit(words, 64, p)
  {
    hide Shl, And;
    var w, k := words[p / 64], p % 64;
    var s := Shl(1, k, 64);
    BitAnd(w, s, k);
    BitShl(1, k, 64, k);
    BitZero(k);
    if !Bit(w, k) {
      ShlBound(k);
      AndLe(w, s);
      forall j: nat | j < 64 ensures Bit(And(w, s), j) == Bit(0, j) {
        BitAnd(w, s, j);
        BitShl(1, k, 64, j);
        BitZero(j);
        if j >= k { BitOne(j - k); }
      }
      BitsDetermine(And(w, s), 0, 64);
    }
  }

  lemma ShlBound(k: nat)
    ensures Shl(1, k, 64) < Pow2(64)
  {
    LowBitsBound(ScaleUp(1, k), 64);
  }

  // ---- filters

  /** The words after setting the first n positions of a key. */
  function SetKey(hash: Hash, f: Filter, key: nat, n: nat): (r: seq<nat>)
    requires f.numBits > 0 && |f.bits| == WordsFor(f.numBits)
    ensures |r| == |f.bits|
  {
    if n == 0 then f.bits
    else
      SetBit(SetKey(hash, f, key, n - 1), Position(hash, key, n - 1, f.numBits))
  }

  function Added(hash: Hash, f: Filter, key: nat): Filter
    requires f.numBits > 0 && |f.bits| == WordsFor(f.numBits)
  {
    f.(bits := SetKey(hash, f, key, f.numHashes))
  }

  function AddedAll(hash: Hash, f: Filter, keys: seq<nat>): (r: Filter)
    requires f.numBits > 0 && |f.bits| == WordsFor(f.numBits)
    ensures r.numBits == f.numBits && r.numHashes == f.numHashes && |r.bits| == |f.bits|
  {
    if keys == [] then f else Added(hash, AddedAll(hash, f, keys[..|keys| - 1]), keys[|keys| - 1])
  }

  /** Every position of the key is set. */
  ghost predicate Contains(hash: Hash, f: Filter, key: nat)
    requires f.numBits > 0
  {
    forall i :: 0 <= i < f.numHashes ==> StreamBit(f.bits, 64, Position(hash, key, i, f.numBits))
  }

  /** No bit of f is missing from g. */
  ghost predicate Keeps(f: seq<nat>, g: seq<nat>) { forall q: nat :: StreamBit(f, 64, q) ==> StreamBit(g, 64, q) }

  lemma {:induction false} SetKeyEffect(hash: Hash, f: Filter, key: nat, n: nat)
    requires f.numBits > 0 && |f.bits| == WordsFor(f.numBits)
    ensures Keeps(f.bits, SetKey(hash, f, key, n))
    ensures forall i :: 0 <= i < n ==> StreamBit(SetKey(hash, f, key, n), 64, Position(hash, key, i, f.numBits))
    ensures Words(f.bits, 64) ==> Words(SetKey(hash, f, key, n), 64)
    ensures forall q: nat :: StreamBit(SetKey(hash, f, key, n), 64, q) && !StreamBit(f.bits, 64, q) ==>
      exists i :: 0 <= i < n && q == Position(hash, key, i, f.numBits)
  {
    hide StreamBit, SetBit, Position, Words;
    if n > 0 {
      SetKeyEffect(hash, f, key, n - 1);
      var before, p := SetKey(hash, f, key, n - 1), Position(hash, key, n - 1, f.numBits);
      forall q: nat ensures StreamBit(SetBit(before, p), 64, q) == (StreamBit(before, 64, q) || q == p) {
        SetBitEffect(before, p, q);
      }
      if Words(before, 64) { SetBitWords(before, p); }
    }
  }

  /** bits[i] |= other.bits[i] for every word */
  function OrAll(a: seq<nat>, b: seq<nat>): (r: seq<nat>)
    requires |a| == |b|
    ensures |r| == |a| && forall k :: 0 <= k < |a| ==> r[k] == Or(a[k], b[k])
  {
    seq(|a|, k requires 0 <= k < |a| => Or(a[k], b[k]))
  }

  predicate SameGeometry(f: Filter, g: Filter) { f.numBits == g.numBits && f.numHashes == g.numHashes }

  /** Merging with a filter of another geometry does nothing. */
  function Merged(f: Filter, g: Filter): Filter
    requires SameGeometry(f, g) ==> |f.bits| == |g.bits|
  {
    if SameGeometry(f, g) then f.(bits := OrAll(f.bits, g.bits)) else f
  }

  lemma OrAllEffect(a: seq<nat>, b: seq<nat>)
    requires |a| == |b|
    ensures forall q: nat :: StreamBit(OrAll(a, b), 64, q) == (StreamBit(a, 64, q) || StreamBit(b, 64, q))
    ensures Keeps(a, OrAll(a, b)) && Keeps(b, OrAll(a, b))
  {
    forall q: nat ensures StreamBit(OrAll(a, b), 64, q) == (StreamBit(a, 64, q) || StreamBit(b, 64, q)) {
      if q / 64 < |a| { BitOr(a[q / 64], b[q / 64], q % 64); }
    }
  }

  lemma OrAllWords(a: seq<nat>, b: seq<nat>)
    requires |a| == |b| && Words(a, 64) && Words(b, 64)
    ensures Words(OrAll(a, b), 64)
  {
    forall k | 0 <= k < |a| ensures OrAll(a, b)[k] < Pow2(64) { OrBound(a[k], b[k], 64); }
  }

  // ---- the class

  class BloomFilter {
    var bits: seq<nat>
    var numBits: nat
    var numHashes: nat

    function Value(): Filter reads this { Filter(bits, numBits, numHashes) }

    constructor (nb: nat, nh: nat)
      ensures Value() == Fresh(nb, nh)
    {
      bits, numBits, numHashes := Zeros(WordsFor(nb)), nb, nh;
    }

    method Add(hash: Hash, key: nat)
      requires WellFormed(Value())
      modifies this`bits
      ensures WellFormed(Value()) && Value() == Added(hash, old(Value()), key)
      ensures Contains(hash, Value(), key) && Keeps(old(bits), bits)
      ensures forall q: nat :: StreamBit(bits, 64, q) && !StreamBit(old(bits), 64, q) ==>
        exists i :: 0 <= i < numHashes && q == Position(hash, key, i, numBits)
    {
      hide SetBit, StreamBit, Words, Position;
      ghost var f := Value();
      var h1, h2 := hash(key, SEED_1), hash(key, SEED_2);
      for i := 0 to numHashes
        invariant Filter(bits, numBits, numHashes) == f.(bits := SetKey(hash, f, key, i))
      {
        var bit := Modulo((h1 + i * h2) % TWO_64, numBits);
        assert bit == Position(hash, key, i, numBits) by { PositionIs(hash, key, i, numBits); }
        bits := SetBit(bits, bit);
      }
      SetKeyEffect(hash, f, key, numHashes);
    }

    method AddBatch(hash: Hash, keys: seq<nat>)
      requires WellFormed(Value())
      modifies this`bits
      ensures WellFormed(Value()) && Value() == AddedAll(hash, old(Value()), keys)
      ensures forall k :: 0 <= k < |keys| ==> Contains(hash, Value(), keys[k])
      ensures Keeps(old(bits), bits)
    {
      hide StreamBit, Words, Position, SetKey;
      for i := 0 to |keys|
        invariant WellFormed(Value()) && Keeps(old(bits), bits)
        invariant Value() == AddedAll(hash, old(Value()), keys[..i])
        invariant forall k :: 0 <= k < i ==> Contains(hash, Value(), keys[k])
      {
        assert keys[..i + 1][..i] == keys[..i];
        Add(hash, keys[i]);
      }
      assert keys[..|keys|] == keys;
    }

    method MightContain(hash: Hash, key: nat) returns (r: bool)
      requires WellFormed(Value())
      ensures r <==> Contains(hash, Value(), key)
    {
      r := Probe(hash, Value(), key);
    }

    method Merge(other: BloomFilter)
      requires WellFormed(Value()) && WellFormed(other.Value())
      modifies this`bits
      ensures WellFormed(Value()) && Value() == Merged(old(Value()), old(other.Value()))
      ensures Keeps(old(bits), bits)
    {
      hide StreamBit;
      if numBits != other.numBits || numHashes != other.numHashes { return; }
      ghost var a, b := bits, other.bits;
      var theirs := other.bits;
      OrAllWords(a, b);
      OrAllEffect(a, b);
      for i := 0 to |bits|
        invariant |bits| == |a| && numBits == old(numBits)
        invariant forall k :: 0 <= k < |a| ==> bits[k] == if k < i then Or(a[k], b[k]) else a[k]
      {
        bits := bits[i := Or(bits[i], theirs[i])];
      }
      assert bits == OrAll(a, b);
    }
  }

  /** The probe loop: stop at the first clear bit. */
  method Probe(hash: Hash, f: Filter, key: nat) returns (r: bool)
    requires WellFormed(f)
    ensures r <==> Contains(hash, f, key)
  {
    hide StreamBit, Words, Position, TestBit;
    var h1, h2 := hash(key, SEED_1), hash(key, SEED_2);
    for i := 0 to f.numHashes
      invariant forall k :: 0 <= k < i ==> StreamBit(f.bits, 64, Position(hash, key, k, f.numBits))
    {
      var bit := Modulo((h1 + i * h2) % TWO_64, f.numBits);
      assert bit == Position(hash, key, i, f.numBits) by { PositionIs(hash, key, i, f.numBits); }
      TestBitMeaning(f.bits, bit);
      if !TestBit(f.bits, bit) { return false; }
    }
    return true;
  }

  /** The i-th position: both hashes combined in 64 bits, modulo the filter's size. */
  lemma PositionIs(hash: Hash, key: nat, i: nat, numBits: nat)
    requires numBits > 0
    ensures Position(hash, key, i, numBits)
         == (hash(key, 0x9e37_79b9_7f4a_7c15) + i * hash(key, 0xbf58_476d_1ce4_e5b9)) % TWO_64 % numBits
    ensures Position(hash, key, i, numBits) == Modulo((hash(key, SEED_1) + i * hash(key, SEED_2)) % TWO_64, numBits)
  {
  }

  // ---- the byte image

  function Image(f: Filter): seq<Byte> {
    LeBytes(f.numBits, 8) + (LeBytes(f.numHashes, 8) + WordsBytes(f.bits, 8))
  }

  method Write(f: Filter, out: Buffer)
    requires out.Valid()
    modifies out
    ensures out.Valid() && out.Contents() == old(out.Contents()) + Image(f)
  {
    out.Append(LeBytes(f.numBits, 8));
    out.Append(LeBytes(f.numHashes, 8));
    out.Append(WordsBytes(f.bits, 8));
  }

  function Read(data: seq<Byte>): Filter
    requires |data| >= 16
  {
    var nb := LeValue(data[..8]);
    Filter(AsWords(data[16..], 8, WordsFor(nb)), nb, LeValue(data[8..][..8]))
  }

  lemma ImageRoundTrip(f: Filter, rest: seq<Byte>)
    requires WellFormed(f)
    ensures |Image(f)| >= 16 && Read(Image(f) + rest) == f
  {
    hide LeBytes, LeValue, AsWords, WordsBytes, Pow2, Pow256;
    Pow256Sizes();
    Pow2Sizes();
    var tail := WordsBytes(f.bits, 8) + rest;
    var data := Image(f) + rest;
    assert data == LeBytes(f.numBits, 8) + (LeBytes(f.numHashes, 8) + tail);
    FieldRoundTrip(f.numBits, 8, LeBytes(f.numHashes, 8) + tail);
    FieldRoundTrip(f.numHashes, 8, tail);
    assert data[16..] == tail;
    WordsRoundTrip(f.bits, 8, rest);
  }

  // ---- every history of operations

  /** How a filter came to be. */
  datatype History =
    | Created(numBits: nat, numHashes: nat)
    | Adding(h: History, key: nat)
    | AddingAll(h: History, keys: seq<nat>)
    | Merging(h: History, other: History)
    | Reloading(h: History)

  predicate Sized(h: History) {
    match h
    case Created(nb, nh) => 0 < nb < TWO_64 && nh < TWO_64
    case Adding(g, _) => Sized(g)
    case AddingAll(g, _) => Sized(g)
    case Merging(g, o) => Sized(g) && Sized(o)
    case Reloading(g) => Sized(g)
  }

  function Geometry(h: History): (nat, nat) {
    match h
    case Created(nb, nh) => (nb, nh)
    case Adding(g, _) => Geometry(g)
    case AddingAll(g, _) => Geometry(g)
    case Merging(g, _) => Geometry(g)
    case Reloading(g) => Geometry(g)
  }

  /** The keys put into a filter, those of a merged-in filter counting only when
      its geometry is the same. */
  function Members(h: History): set<nat> {
    match h
    case Created(_, _) => {}
    case Adding(g, k) => Members(g) + {k}
    case AddingAll(g, keys) => Members(g) + set k | k in keys
    case Merging(g, o) => if Geometry(g) == Geometry(o) then Members(g) + Members(o) else Members(g)
    case Reloading(g) => Members(g)
  }

  /** The filter a history leads to. */
  ghost predicate Reaches(hash: Hash, h: History, f: Filter) {
    match h
    case Created(nb, nh) => f == Fresh(nb, nh)
    case Adding(g, k) => exists x :: WellFormed(x) && Reaches(hash, g, x) && f == Added(hash, x, k)
    case AddingAll(g, keys) => exists x :: WellFormed(x) && Reaches(hash, g, x) && f == AddedAll(hash, x, keys)
    case Merging(g, o) =>
      exists x, y :: WellFormed(x) && WellFormed(y) && Reaches(hash, g, x) && Reaches(hash, o, y) && f == Merged(x, y)
    case Reloading(g) => exists x :: WellFormed(x) && Reaches(hash, g, x) && |Image(x)| >= 16 && f == Read(Image(x))
  }

  lemma FreshWellFormed(nb: nat, nh: nat)
    requires 0 < nb < TWO_64 && nh < TWO_64
    ensures WellFormed(Fresh(nb, nh))
  {
  }

  lemma {:induction false} AddedAllEffect(hash: Hash, f: Filter, keys: seq<nat>)
    requires WellFormed(f)
    ensures WellFormed(AddedAll(hash, f, keys)) && Keeps(f.bits, AddedAll(hash, f, keys).bits)
    ensures forall k :: k in keys ==> Contains(hash, AddedAll(hash, f, keys), k)
  {
    if keys != [] {
      hide StreamBit, Position, SetKey, Words;
      var n := |keys| - 1;
      AddedAllEffect(hash, f, keys[..n]);
      var g := AddedAll(hash, f, keys[..n]);
      SetKeyEffect(hash, g, keys[n], g.numHashes);
      assert keys == keys[..n] + [keys[n]];
    }
  }

  /** No false negatives: whatever was done to reach a filter, every member tests
      positive. */
  lemma {:induction false} NoFalseNegatives(hash: Hash, h: History, f: Filter)
    requires Sized(h) && Reaches(hash, h, f)
    ensures WellFormed(f) && (f.numBits, f.numHashes) == Geometry(h)
    ensures forall key :: key in Members(h) ==> Contains(hash, f, key)
    decreases h
  {
    hide StreamBit, Position, SetKey, OrAll, Image, Read;
    match h
    case Created(nb, nh) =>
      FreshWellFormed(nb, nh);
    case Adding(g, k) =>
      var x :| WellFormed(x) && Reaches(hash, g, x) && f == Added(hash, x, k);
      NoFalseNegatives(hash, g, x);
      SetKeyEffect(hash, x, k, x.numHashes);
      forall key | key in Members(g) ensures Contains(hash, f, key) {}
    case AddingAll(g, keys) =>
      var x :| WellFormed(x) && Reaches(hash, g, x) && f == AddedAll(hash, x, keys);
      NoFalseNegatives(hash, g, x);
      AddedAllEffect(hash, x, keys);
    case Merging(g, o) =>
      var x, y :| WellFormed(x) && WellFormed(y) && Reaches(hash, g, x) && Reaches(hash, o, y) && f == Merged(x, y);
      NoFalseNegatives(hash, g, x);
      NoFalseNegatives(hash, o, y);
      if SameGeometry(x, y) {
        OrAllEffect(x.bits, y.bits);
        OrAllWords(x.bits, y.bits);
        forall key | key in Members(g) ensures Contains(hash, f, key) {}
        forall key | key in Members(o) ensures Contains(hash, f, key) {}
      }
    case Reloading(g) =>
      var x :| WellFormed(x) && Reaches(hash, g, x) && |Image(x)| >= 16 && f == Read(Image(x));
      NoFalseNegatives(hash, g, x);
      ImageRoundTrip(x, []);
      assert Image(x) + [] == Image(x);
  }

  // ---- probing a typed column with a 64-bit constant

  /** A value added with its own width and probed as a 64-bit integer uses the
      same key exactly when it is not a negative 32-bit value. */
  lemma ProbeKeyAgrees(t: DataType, v: int)
    requires InRange(t, v)
    ensures KeyOf(t, v) == KeyOf(Int64, v) <==> t.Int64? || v >= 0
  {
  }

  /** A filter with every bit set. */
  const FULL := Filter([3], 2, 1)

  lemma FullContains(hash: Hash, key: nat)
    ensures WellFormed(FULL) && Contains(hash, FULL, key)
  {
    hide Position;
  }

  /** A filter of at most 64 bits and one hash that holds one key and not another. */
  ghost predicate Separates(f: Filter, k: nat, other: nat) {
    WellFormed(f) && Contains(MURMUR, f, k) && !Contains(MURMUR, f, other)
  }

  function Holding(numBits: nat, k: nat): Filter
    requires numBits > 0
  {
    Added(MURMUR, Fresh(numBits, 1), k)
  }

  lemma OnePosition(key: nat, numBits: nat)
    requires numBits > 0
    ensures Position(MURMUR, key, 0, numBits) == M.MurmurHash64(key, SEED_1) % numBits
  {
    hide M.MurmurHash64;
    M.MurmurBound(key, SEED_1);
  }

  lemma HoldingBits(numBits: nat, k: nat, q: nat)
    requires 0 < numBits < TWO_64
    ensures WellFormed(Holding(numBits, k)) && Holding(numBits, k).numHashes == 1
    ensures StreamBit(Holding(numBits, k).bits, 64, q) <==> q == Position(MURMUR, k, 0, numBits)
  {
    hide SetBit, Position, StreamBit, Words;
    var f0 := Fresh(numBits, 1);
    FreshWellFormed(numBits, 1);
    SetKeyEffect(MURMUR, f0, k, 1);
    assert Holding(numBits, k).bits == SetBit(f0.bits, Position(MURMUR, k, 0, numBits)) by {
      assert SetKey(MURMUR, f0, k, 0) == f0.bits;
    }
    SetBitEffect(f0.bits, Position(MURMUR, k, 0, numBits), q);
    AllClear(WordsFor(numBits), q);
  }

  lemma AllClear(n: nat, q: nat)
    ensures !StreamBit(Zeros(n), 64, q)
  {
    BitZero(q % 64);
  }

  /** The hash is injective, so for any two keys some small filter holds the first
      and rejects the second. */
  lemma SeparatingFilter(k: nat, other: nat)
    requires k < TWO_64 && other < TWO_64 && k != other
    ensures exists n :: 2 <= n <= 64 && Separates(Holding(n, k), k, other)
  {
    hide M.MurmurHash64, StreamBit, Position, Holding;
    var a, b := M.MurmurHash64(k, SEED_1), M.MurmurHash64(other, SEED_1);
    if a == b { M.MurmurInjective(k, other, SEED_1); }
    M.MurmurBound(k, SEED_1);
    M.MurmurBound(other, SEED_1);
    M.SomeModulusDiffers(a, b);
    var n :| 2 <= n <= 64 && a % n != b % n;
    OnePosition(k, n);
    OnePosition(other, n);
    HoldingBits(n, k, Position(MURMUR, k, 0, n));
    HoldingBits(n, k, Position(MURMUR, other, 0, n));
    HoldingGeometry(n, k);
    assert Separates(Holding(n, k), k, other);
  }

  lemma HoldingGeometry(n: nat, k: nat)
    requires n > 0
    ensures Holding(n, k).numBits == n && Holding(n, k).numHashes == 1
  {
  }

  /** A negative 32-bit value that was added is reported absent by some filter of
      at most 64 bits. */
  lemma NegativeInt32Missed(v: int)
    requires InRange(Int32, v) && v < 0
    ensures exists n :: 2 <= n <= 64 && Separates(Holding(n, KeyOf(Int32, v)), KeyOf(Int32, v), KeyOf(Int64, v))
  {
    hide Separates;
    SeparatingFilter(KeyOf(Int32, v), KeyOf(Int64, v));
  }

  /** Under any hash, a value whose 64-bit key is the key it was added with is found. */
  lemma ProbeFindsSameKey(hash: Hash, f: Filter, t: DataType, v: int)
    requires WellFormed(f) && InRange(t, v) && (t.Int64? || v >= 0)
    ensures Contains(hash, Added(hash, f, KeyOf(t, v)), KeyOf(Int64, v))
  {
    hide SetKey, StreamBit, Position;
    ProbeKeyAgrees(t, v);
    SetKeyEffect(hash, f, KeyOf(t, v), f.numHashes);
  }

  /** So probing a column with a 64-bit constant never misses an added value, for
      every filter, exactly when it is not a negative Int32. */
  lemma ProbeNeverMisses(t: DataType, v: int)
    requires InRange(t, v)
    ensures (forall f {:trigger Added(MURMUR, f, KeyOf(t, v))} ::
               WellFormed(f) ==> Contains(MURMUR, Added(MURMUR, f, KeyOf(t, v)), KeyOf(Int64, v)))
       <==> t.Int64? || v >= 0
  {
    hide SetKey, StreamBit, Position, Contains;
    if t.Int64? || v >= 0 {
      forall f | WellFormed(f) ensures Contains(MURMUR, Added(MURMUR, f, KeyOf(t, v)), KeyOf(Int64, v)) {
        ProbeFindsSameKey(MURMUR, f, t, v);
      }
    } else {
      NegativeInt32Missed(v);
      var n :| 2 <= n <= 64 && Separates(Holding(n, KeyOf(t, v)), KeyOf(t, v), KeyOf(Int64, v));
      FreshWellFormed(n, 1);
      assert Holding(n, KeyOf(t, v)) == Added(MURMUR, Fresh(n, 1), KeyOf(t, v));
    }
  }
}
