// Dictionary coding: include/columnar/dictionary.h.
module Dictionary {
  import opened Types
  import opened Bits
  import opened Bytes
  import opened Packing

  /** The id map is the exact inverse of the dictionary (so it has no duplicates). */
  ghost predicate Inverse(dict: seq<int>, ids: map<int, nat>) {
    && (forall v :: v in ids ==> ids[v] < |dict| && dict[ids[v]] == v)
    && forall i :: 0 <= i < |dict| ==> dict[i] in ids && ids[dict[i]] == i
  }

  ghost predicate NoDuplicates(xs: seq<int>) {
    forall i, j :: 0 <= i < j < |xs| ==> xs[i] != xs[j]
  }

  lemma InverseDistinct(dict: seq<int>, ids: map<int, nat>)
    requires Inverse(dict, ids)
    ensures NoDuplicates(dict)
  {
    forall i, j | 0 <= i < j < |dict| ensures dict[i] != dict[j] {
      assert ids[dict[i]] == i && ids[dict[j]] == j;
    }
  }

  /** Every index points at its value. */
  ghost predicate Codes(dict: seq<int>, indices: seq<nat>, values: seq<int>) {
    && |indices| == |values|
    && forall i :: 0 <= i < |values| ==> indices[i] < |dict| && dict[indices[i]] == values[i]
  }

  /** The values of xs not already in dict, in order of first appearance, after dict. */
  function Extend(dict: seq<int>, xs: seq<int>): seq<int> {
    if xs == [] then dict
    else
      var before := Extend(dict, xs[..|xs| - 1]);
      if xs[|xs| - 1] in before then before else before + [xs[|xs| - 1]]
  }

  lemma {:induction false} ExtendElements(dict: seq<int>, xs: seq<int>)
    ensures dict <= Extend(dict, xs)
    ensures forall v :: v in Extend(dict, xs) <==> v in dict || v in xs
  {
    if xs != [] {
      ExtendElements(dict, xs[..|xs| - 1]);
      assert xs == xs[..|xs| - 1] + [xs[|xs| - 1]];
    }
  }

  // ---- std::sort followed by std::unique and erase

  ghost predicate Increasing(xs: seq<int>) { forall i, j :: 0 <= i < j < |xs| ==> xs[i] < xs[j] }

  function InsertSorted(xs: seq<int>, v: int): seq<int> {
    if xs == [] then [v]
    else if v < xs[0] then [v] + xs
    else if v == xs[0] then xs
    else [xs[0]] + InsertSorted(xs[1..], v)
  }

  function SortUnique(xs: seq<int>): seq<int> {
    if xs == [] then [] else InsertSorted(SortUnique(xs[1..]), xs[0])
  }

  lemma {:induction false} InsertSortedKeeps(xs: seq<int>, v: int)
    requires Increasing(xs)
    ensures Increasing(InsertSorted(xs, v))
    ensures forall w :: w in InsertSorted(xs, v) <==> w in xs || w == v
  {
    if xs != [] && v > xs[0] {
      InsertSortedKeeps(xs[1..], v);
      var rest := InsertSorted(xs[1..], v);
      assert xs == [xs[0]] + xs[1..];
      forall j | 0 <= j < |rest| ensures xs[0] < rest[j] { assert rest[j] in rest; }
    }
  }

  /** Strictly increasing, with exactly the input's values. */
  lemma {:induction false} SortUniqueSorts(xs: seq<int>)
    ensures Increasing(SortUnique(xs))
    ensures forall w :: w in SortUnique(xs) <==> w in xs
  {
    if xs != [] {
      SortUniqueSorts(xs[1..]);
      InsertSortedKeeps(SortUnique(xs[1..]), xs[0]);
      assert xs == [xs[0]] + xs[1..];
    }
  }

  /** The inverse map of a duplicate-free sequence, added over an older map. */
  function IdsOver(old_: map<int, nat>, dict: seq<int>): map<int, nat> {
    if dict == [] then old_ else IdsOver(old_, dict[..|dict| - 1])[dict[|dict| - 1] := |dict| - 1]
  }

  lemma {:induction false} IdsOverMeaning(old_: map<int, nat>, dict: seq<int>)
    requires NoDuplicates(dict)
    ensures forall i :: 0 <= i < |dict| ==> dict[i] in IdsOver(old_, dict) && IdsOver(old_, dict)[dict[i]] == i
    ensures forall v :: v in IdsOver(old_, dict) <==> v in old_ || v in dict
    ensures forall v :: v in old_ && v !in dict ==> IdsOver(old_, dict)[v] == old_[v]
  {
    if dict != [] {
      var n := |dict| - 1;
      IdsOverMeaning(old_, dict[..n]);
      assert dict == dict[..n] + [dict[n]];
    }
  }

  lemma CodesAdd(dict: seq<int>, dict': seq<int>, indices: seq<nat>, values: seq<int>, i: nat, code: nat)
    requires i < |values| && Codes(dict, indices, values[..i]) && dict <= dict'
    requires code < |dict'| && dict'[code] == values[i]
    ensures Codes(dict', indices + [code], values[..i + 1])
  {
  }

  /** Looking a dictionary value up in the map built over an older one. */
  lemma Lookup(old_: map<int, nat>, dict: seq<int>, v: int)
    requires NoDuplicates(dict) && v in dict
    ensures v in IdsOver(old_, dict) && IdsOver(old_, dict)[v] < |dict| && dict[IdsOver(old_, dict)[v]] == v
  {
    IdsOverMeaning(old_, dict);
    var k :| 0 <= k < |dict| && dict[k] == v;
    assert IdsOver(old_, dict)[dict[k]] == k;
  }

  /** Stale keys are the only obstacle to the rebuilt map being the inverse. */
  lemma InverseUnlessStale(old_: map<int, nat>, dict: seq<int>)
    requires NoDuplicates(dict)
    ensures Inverse(dict, IdsOver(old_, dict)) <==> forall v :: v in old_ ==> v in dict
  {
    IdsOverMeaning(old_, dict);
    var ids := IdsOver(old_, dict);
    if forall v :: v in old_ ==> v in dict {
      forall v | v in ids ensures ids[v] < |dict| && dict[ids[v]] == v { Lookup(old_, dict, v); }
    } else {
      var v :| v in old_ && v !in dict;
      assert v in ids;
      if ids[v] < |dict| { assert dict[ids[v]] in dict; }
    }
  }

  lemma MapRestored(dict: seq<int>, ids: map<int, nat>)
    requires Inverse(dict, ids)
    ensures IdsOver(map[], dict) == ids
  {
    InverseDistinct(dict, ids);
    IdsOverMeaning(map[], dict);
    var m := IdsOver(map[], dict);
    forall v | v in ids ensures v in m && m[v] == ids[v] {
      assert dict[ids[v]] == v;
    }
    forall v | v in m ensures v in ids {
      var k :| 0 <= k < |dict| && dict[k] == v;
    }
  }

  /** The id of every value in turn. */
  method IndicesOf(values: seq<int>, ids: map<int, nat>, ghost dict: seq<int>) returns (indices: seq<nat>)
    requires forall i :: 0 <= i < |values| ==>
               values[i] in ids && ids[values[i]] < |dict| && dict[ids[values[i]]] == values[i]
    ensures Codes(dict, indices, values)
  {
    indices := [];
    for i := 0 to |values|
      invariant Codes(dict, indices, values[..i])
    {
      CodesAdd(dict, dict, indices, values, i, ids[values[i]]);
      indices := indices + [ids[values[i]]];
    }
    assert values[..|values|] == values;
  }

  class DictionaryEncoder {
    var dictionary: seq<int>
    var indices: seq<nat>
    var valueToId: map<int, nat>

    constructor ()
      ensures dictionary == [] && indices == [] && valueToId == map[]
    {
      dictionary, indices, valueToId := [], [], map[];
    }

    /** One pass over the values. A second Build goes on from the first: ids
        already given keep their meaning. */
    method Build(values: seq<int>)
      requires Inverse(dictionary, valueToId)
      requires |dictionary| + |values| <= TWO_32
      modifies this
      ensures Inverse(dictionary, valueToId)
      ensures dictionary == Extend(old(dictionary), values)
      ensures Codes(dictionary, indices, values)
    {
      indices := [];
      for i := 0 to |values|
        invariant Inverse(dictionary, valueToId)
        invariant dictionary == Extend(old(dictionary), values[..i]) && |dictionary| <= old(|dictionary|) + i
        invariant Codes(dictionary, indices, values[..i])
      {
        var v := values[i];
        assert values[..i + 1] == values[..i] + [v];
        if v !in valueToId {
          var id := |dictionary| % TWO_32;
          CodesAdd(dictionary, dictionary + [v], indices, values, i, id);
          valueToId := valueToId[v := id];
          dictionary := dictionary + [v];
          indices := indices + [id];
        } else {
          assert v == dictionary[valueToId[v]];
          CodesAdd(dictionary, dictionary, indices, values, i, valueToId[v]);
          indices := indices + [valueToId[v]];
        }
      }
      assert values[..|values|] == values;
    }

    /** Sorted dictionary. The id map is not cleared first, so it is the inverse
        of the new dictionary exactly when every old key occurs in the column. */
    method BuildSorted(values: seq<int>)
      requires |values| <= TWO_32
      modifies this
      ensures dictionary == SortUnique(values) && Codes(dictionary, indices, values)
      ensures Inverse(dictionary, valueToId) <==> forall v :: v in old(valueToId) ==> v in values
    {
      SortUniqueSorts(values);
      dictionary := SortUnique(values);
      hide SortUnique;
      ghost var before := valueToId;
      for i := 0 to |dictionary|
        invariant dictionary == SortUnique(values) && valueToId == IdsOver(before, dictionary[..i])
      {
        valueToId := valueToId[dictionary[i] := i];
        assert dictionary[..i + 1][..i] == dictionary[..i];
      }
      assert dictionary[..|dictionary|] == dictionary;
      hide IdsOver, Inverse;
      InverseUnlessStale(before, dictionary);
      forall i | 0 <= i < |values|
        ensures var v := values[i]; v in valueToId && valueToId[v] < |dictionary| && dictionary[valueToId[v]] == v
      {
        Lookup(before, dictionary, values[i]);
      }
      indices := IndicesOf(values, valueToId, dictionary);
    }

    /** Looking values up and decoding the codes returns the values; a value with
        no id is the source's out_of_range exception. */
    method Encode(values: seq<int>) returns (codes: seq<nat>, missing: bool)
      requires Inverse(dictionary, valueToId)
      ensures missing <==> exists i :: 0 <= i < |values| && values[i] !in dictionary
      ensures !missing ==> Codes(dictionary, codes, values)
    {
      codes := [];
      for i := 0 to |values|
        invariant Codes(dictionary, codes, values[..i])
        invariant forall j :: 0 <= j < i ==> values[j] in dictionary
      {
        if values[i] !in valueToId {
          assert values[i] !in dictionary;
          return codes, true;
        }
        assert dictionary[valueToId[values[i]]] == values[i];
        codes := codes + [valueToId[values[i]]];
      }
      assert values[..|values|] == values;
      missing := false;
    }

    method Decode(codes: seq<nat>, ghost values: seq<int>) returns (out: seq<int>)
      requires Codes(dictionary, codes, values)
      ensures out == values
    {
      out := [];
      for i := 0 to |codes|
        invariant out == values[..i]
      {
        out := out + [dictionary[codes[i]]];
      }
    }
  }

  /** Codes into a sorted dictionary order the way their values do. */
  lemma SortedCodesPreserveOrder(dict: seq<int>, indices: seq<nat>, values: seq<int>, i: nat, j: nat)
    requires Increasing(dict) && Codes(dict, indices, values) && i < |values| && j < |values|
    ensures indices[i] < indices[j] <==> values[i] < values[j]
    ensures indices[i] == indices[j] <==> values[i] == values[j]
  {
    if indices[i] < indices[j] {
      assert dict[indices[i]] < dict[indices[j]];
    } else if indices[j] < indices[i] {
      assert dict[indices[j]] < dict[indices[i]];
    }
  }

  // ---- the byte image

  /** The width loop of Write: the least b with 2^b >= n. */
  method IndexBits(n: nat) returns (b: nat)
    requires n <= TWO_31
    ensures b <= 31 && n <= Pow2(b) && (b > 0 ==> Pow2(b - 1) < n)
  {
    Pow2Sizes();
    b := 0;
    while Pow2(b) < n && b < 32
      invariant b <= 31 && (b > 0 ==> Pow2(b - 1) < n)
      decreases 32 - b
    {
      if b == 31 { assert false; }
      b := b + 1;
    }
  }

  function IndexSize(b: nat): nat { if b <= 8 then 1 else if b <= 16 then 2 else 4 }

  lemma IndexFits(b: nat, n: nat, index: nat)
    requires b <= 31 && n <= Pow2(b) && index < n
    ensures index < Pow256(IndexSize(b))
  {
    hide Pow2;
    Pow256Sizes();
    Pow2Step(0); Pow2Add(1, 1); Pow2Add(2, 2); Pow2Add(4, 4); Pow2Add(8, 8); Pow2Sizes();
    Pow2Mono(b, if b <= 8 then 8 else if b <= 16 then 16 else 32);
  }

  function Image(t: DataType, dict: seq<int>, indices: seq<nat>, b: nat): seq<Byte>
    requires AllInRange(t, dict)
  {
    LeBytes(|dict|, 4) + (ValuesBytes(t, dict) + (LeBytes(b, 1) + WordsBytes(indices, IndexSize(b))))
  }

  method Write(t: DataType, dict: seq<int>, indices: seq<nat>, out: Buffer) returns (b: nat)
    requires out.Valid() && AllInRange(t, dict) && |dict| <= TWO_31
    modifies out
    ensures b <= 31 && |dict| <= Pow2(b)
    ensures out.Valid() && out.Contents() == old(out.Contents()) + Image(t, dict, indices, b)
  {
    hide LeBytes, ValuesBytes, WordsBytes;
    out.Append(LeBytes(|dict|, 4));
    out.Append(ValuesBytes(t, dict));
    b := IndexBits(|dict|);
    out.Append(LeBytes(b, 1));
    out.Append(WordsBytes(indices, IndexSize(b)));
  }

  predicate Readable(t: DataType, data: seq<Byte>) {
    |data| >= 4 && |data| >= 5 + TypeSize(t) * LeValue(data[..4])
  }

  function ReadDict(t: DataType, data: seq<Byte>): seq<int>
    requires Readable(t, data)
  {
    AsValues(t, data[4..], LeValue(data[..4]))
  }

  function ReadIndices(t: DataType, data: seq<Byte>): seq<nat>
    requires Readable(t, data)
  {
    var rest := data[4 + TypeSize(t) * LeValue(data[..4])..];
    var size := IndexSize(LeValue(rest[..1]));
    AsWords(rest[1..], size, (|rest| - 1) / size)
  }

  method Read(t: DataType, data: seq<Byte>) returns (enc: DictionaryEncoder)
    requires Readable(t, data)
    ensures fresh(enc)
    ensures enc.dictionary == ReadDict(t, data) && enc.indices == ReadIndices(t, data)
    ensures enc.valueToId == IdsOver(map[], enc.dictionary)
  {
    hide LeValue, AsValues, AsWords;
    enc := new DictionaryEncoder();
    var dictSize := LeValue(data[..4]);
    enc.dictionary := AsValues(t, data[4..], dictSize);
    for i := 0 to dictSize
      invariant enc.dictionary == AsValues(t, data[4..], dictSize)
      invariant enc.valueToId == IdsOver(map[], enc.dictionary[..i])
    {
      enc.valueToId := enc.valueToId[enc.dictionary[i] := i];
      assert enc.dictionary[..i + 1][..i] == enc.dictionary[..i];
    }
    assert enc.dictionary[..dictSize] == enc.dictionary;
    var ptr := data[4 + TypeSize(t) * dictSize..];
    var size := IndexSize(LeValue(ptr[..1]));
    enc.indices := AsWords(ptr[1..], size, (|ptr| - 1) / size);
  }

  lemma ImageParts(t: DataType, dict: seq<int>, indices: seq<nat>, b: nat)
    requires AllInRange(t, dict) && |dict| < TWO_32
    ensures var data := Image(t, dict, indices, b);
            && Readable(t, data) && LeValue(data[..4]) == |dict| && ReadDict(t, data) == dict
            && data[4 + TypeSize(t) * |dict|..] == LeBytes(b, 1) + WordsBytes(indices, IndexSize(b))
  {
    hide LeBytes, LeValue, AsValues, WordsBytes, ValuesBytes;
    Pow256Sizes();
    var tail := LeBytes(b, 1) + WordsBytes(indices, IndexSize(b));
    var data := Image(t, dict, indices, b);
    assert data == LeBytes(|dict|, 4) + (ValuesBytes(t, dict) + tail);
    FieldRoundTrip(|dict|, 4, ValuesBytes(t, dict) + tail);
    ValuesRoundTrip(t, dict, tail);
    ValuesBytesLength(t, dict);
    assert data[4..][TypeSize(t) * |dict|..] == tail;
  }

  /** Read of Write restores the dictionary, the indices and the id map, across
      the 8, 16 and 32-bit index widths. */
  lemma ImageRoundTrip(t: DataType, dict: seq<int>, ids: map<int, nat>, indices: seq<nat>, b: nat)
    requires AllInRange(t, dict) && |dict| <= Pow2(b) && b <= 31 && |dict| < TWO_32
    requires Inverse(dict, ids) && forall i :: 0 <= i < |indices| ==> indices[i] < |dict|
    ensures var data := Image(t, dict, indices, b);
            Readable(t, data) && ReadDict(t, data) == dict && ReadIndices(t, data) == indices
    ensures IdsOver(map[], dict) == ids
  {
    hide LeBytes, LeValue, AsValues, AsWords, WordsBytes, ValuesBytes, Image, Pow2, Pow256, IdsOver;
    ImageParts(t, dict, indices, b);
    var size, words := IndexSize(b), WordsBytes(indices, IndexSize(b));
    Pow256Sizes();
    FieldRoundTrip(b, 1, words);
    forall k | 0 <= k < |indices| ensures indices[k] < Pow256(size) { IndexFits(b, |dict|, indices[k]); }
    WordsRoundTrip(indices, size, []);
    assert words + [] == words;
    WordsBytesLength(indices, size);
    DivUnique(size * |indices|, size, |indices|, 0);
    MapRestored(dict, ids);
  }
}
