// Little-endian byte images of integers, and the append-only byte buffer
// (include/columnar/encoding/encoding.h, class Buffer).
module Bytes {
  import opened Types

  type Byte = b: int | 0 <= b < 256

  function Pow256(n: nat): (r: nat)
    ensures r > 0
  {
    if n == 0 then 1 else 256 * Pow256(n - 1)
  }

  /** memcpy of an n-byte unsigned integer */
  function LeBytes(v: nat, n: nat): (r: seq<Byte>)
    ensures |r| == n
  {
    if n == 0 then [] else [v % 256] + LeBytes(v / 256, n - 1)
  }

  function LeValue(b: seq<Byte>): nat {
    if |b| == 0 then 0 else b[0] + 256 * LeValue(b[1..])
  }

  lemma {:induction false} LeRoundTrip(v: nat, n: nat)
    requires v < Pow256(n)
    ensures LeValue(LeBytes(v, n)) == v
  {
    if n > 0 {
      LeRoundTrip(v / 256, n - 1);
      assert LeBytes(v, n)[1..] == LeBytes(v / 256, n - 1);
    }
  }

  lemma {:induction false} LeValueBound(b: seq<Byte>)
    ensures LeValue(b) < Pow256(|b|)
  {
    if |b| > 0 { LeValueBound(b[1..]); }
  }

  lemma Pow256Sizes()
    ensures Pow256(1) == 256 && Pow256(2) == 0x1_0000 && Pow256(4) == TWO_32 && Pow256(8) == TWO_64
  {
    assert Pow256(4) == 256 * Pow256(3);
    assert Pow256(8) == 256 * Pow256(7);
  }

  // ---- single values

  /** The bytes of an unsigned n-byte field followed by anything read back as the field. */
  lemma FieldRoundTrip(v: nat, n: nat, rest: seq<Byte>)
    requires v < Pow256(n)
    ensures LeValue((LeBytes(v, n) + rest)[..n]) == v
    ensures (LeBytes(v, n) + rest)[n..] == rest
  {
    LeRoundTrip(v, n);
    assert (LeBytes(v, n) + rest)[..n] == LeBytes(v, n);
  }

  function ValueBytes(t: DataType, v: int): (r: seq<Byte>)
    requires InRange(t, v)
    ensures |r| == TypeSize(t)
  {
    LeBytes(Unsigned(t, v), TypeSize(t))
  }

  function ReadValue(t: DataType, b: seq<Byte>): (v: int)
    requires |b| >= TypeSize(t)
    ensures InRange(t, v)
  {
    LeValueBound(b[..TypeSize(t)]);
    Pow256Sizes();
    Signed(t, LeValue(b[..TypeSize(t)]))
  }

  lemma ValueRoundTrip(t: DataType, v: int, rest: seq<Byte>)
    requires InRange(t, v)
    ensures ReadValue(t, ValueBytes(t, v) + rest) == v
    ensures (ValueBytes(t, v) + rest)[TypeSize(t)..] == rest
  {
    Pow256Sizes();
    FieldRoundTrip(Unsigned(t, v), TypeSize(t), rest);
  }

  // ---- records: fixed-size unsigned fields one after the other

  function Sum(sizes: seq<nat>): nat { if sizes == [] then 0 else sizes[0] + Sum(sizes[1..]) }

  function RecordBytes(vals: seq<nat>, sizes: seq<nat>): (r: seq<Byte>)
    requires |vals| == |sizes|
    ensures |r| == Sum(sizes)
  {
    if vals == [] then [] else LeBytes(vals[0], sizes[0]) + RecordBytes(vals[1..], sizes[1..])
  }

  function ReadRecord(b: seq<Byte>, sizes: seq<nat>): (vals: seq<nat>)
    requires |b| >= Sum(sizes)
    ensures |vals| == |sizes|
  {
    if sizes == [] then [] else [LeValue(b[..sizes[0]])] + ReadRecord(b[sizes[0]..], sizes[1..])
  }

  lemma {:induction false} RecordRoundTrip(vals: seq<nat>, sizes: seq<nat>, rest: seq<Byte>)
    requires |vals| == |sizes| && forall i :: 0 <= i < |vals| ==> vals[i] < Pow256(sizes[i])
    ensures ReadRecord(RecordBytes(vals, sizes) + rest, sizes) == vals
  {
    if vals != [] {
      hide LeBytes, LeValue, Pow256;
      var tail := RecordBytes(vals[1..], sizes[1..]) + rest;
      var b := RecordBytes(vals, sizes) + rest;
      assert b == LeBytes(vals[0], sizes[0]) + tail;
      FieldRoundTrip(vals[0], sizes[0], tail);
      RecordRoundTrip(vals[1..], sizes[1..], rest);
    }
  }

  lemma RecordCons(v: nat, n: nat, vals: seq<nat>, sizes: seq<nat>)
    requires |vals| == |sizes|
    ensures RecordBytes([v] + vals, [n] + sizes) == LeBytes(v, n) + RecordBytes(vals, sizes)
  {
    hide LeBytes;
    assert ([v] + vals)[1..] == vals && ([n] + sizes)[1..] == sizes;
  }

  // ---- arrays of unsigned words

  /** memcpy of a vector of n-byte words */
  function WordsBytes(ws: seq<nat>, n: nat): seq<Byte> {
    if |ws| == 0 then [] else LeBytes(ws[0], n) + WordsBytes(ws[1..], n)
  }

  /** A byte pointer reinterpreted as `count` words of n bytes */
  function AsWords(b: seq<Byte>, n: nat, count: nat): (r: seq<nat>)
    ensures |r| == count
    decreases count
  {
    if count == 0 then []
    else if |b| < n then seq(count, _ => 0)
    else [LeValue(b[..n])] + AsWords(b[n..], n, count - 1)
  }

  lemma {:induction false} WordsRoundTrip(ws: seq<nat>, n: nat, rest: seq<Byte>)
    requires forall k :: 0 <= k < |ws| ==> ws[k] < Pow256(n)
    ensures AsWords(WordsBytes(ws, n) + rest, n, |ws|) == ws
  {
    if |ws| > 0 {
      var tail := WordsBytes(ws[1..], n) + rest;
      assert WordsBytes(ws, n) + rest == LeBytes(ws[0], n) + tail;
      FieldRoundTrip(ws[0], n, tail);
      WordsRoundTrip(ws[1..], n, rest);
    }
  }

  lemma {:induction false} WordsBytesLength(ws: seq<nat>, n: nat)
    ensures |WordsBytes(ws, n)| == n * |ws|
  {
    if |ws| > 0 {
      WordsBytesLength(ws[1..], n);
      assert n * |ws| == n + n * (|ws| - 1);
    }
  }

  // ---- arrays of signed values

  function ValuesBytes(t: DataType, xs: seq<int>): seq<Byte>
    requires AllInRange(t, xs)
  {
    if |xs| == 0 then [] else ValueBytes(t, xs[0]) + ValuesBytes(t, xs[1..])
  }

  function AsValues(t: DataType, b: seq<Byte>, count: nat): (r: seq<int>)
    ensures |r| == count && AllInRange(t, r)
    decreases count
  {
    if count == 0 then []
    else if |b| < TypeSize(t) then seq(count, _ => 0)
    else [ReadValue(t, b)] + AsValues(t, b[TypeSize(t)..], count - 1)
  }

  lemma {:induction false} ValuesRoundTrip(t: DataType, xs: seq<int>, rest: seq<Byte>)
    requires AllInRange(t, xs)
    ensures AsValues(t, ValuesBytes(t, xs) + rest, |xs|) == xs
  {
    if |xs| > 0 {
      var tail := ValuesBytes(t, xs[1..]) + rest;
      assert ValuesBytes(t, xs) + rest == ValueBytes(t, xs[0]) + tail;
      ValueRoundTrip(t, xs[0], tail);
      ValuesRoundTrip(t, xs[1..], rest);
    }
  }

  lemma {:induction false} ValuesBytesLength(t: DataType, xs: seq<int>)
    requires AllInRange(t, xs)
    ensures |ValuesBytes(t, xs)| == TypeSize(t) * |xs|
  {
    if |xs| > 0 { ValuesBytesLength(t, xs[1..]); }
  }

  lemma {:induction false} ValuesBytesAppend(t: DataType, xs: seq<int>, x: int)
    requires AllInRange(t, xs) && InRange(t, x)
    ensures ValuesBytes(t, xs + [x]) == ValuesBytes(t, xs) + ValueBytes(t, x)
  {
    if |xs| == 0 {
      assert xs + [x] == [x];
      assert ValuesBytes(t, [x]) == ValueBytes(t, x) + ValuesBytes(t, [x][1..]);
    } else {
      var ys := xs + [x];
      assert ys[0] == xs[0] && ys[1..] == xs[1..] + [x];
      ValuesBytesAppend(t, xs[1..], x);
      assert ValuesBytes(t, ys) == ValueBytes(t, xs[0]) + ValuesBytes(t, xs[1..] + [x]);
    }
  }

  /** The growing byte vector every encoder writes to. `size` is the logical end;
      Clear moves it back without shrinking the storage. */
  class Buffer {
    var data: seq<Byte>
    var size: nat

    ghost predicate Valid() reads this { size <= |data| }

    ghost function Contents(): seq<Byte>
      reads this
      requires Valid()
    {
      data[..size]
    }

    constructor ()
      ensures Valid() && Contents() == []
    {
      data, size := [], 0;
    }

    method Append(b: seq<Byte>)
      requires Valid()
      modifies this
      ensures Valid() && Contents() == old(Contents()) + b
    {
      var start := size;
      size := size + |b|;
      // resize to the new logical size, then copy over the tail
      data := if |data| >= size then data[..size] else data + seq(size - |data|, _ => 0);
      data := data[..start] + b;
    }

    method Clear()
      requires Valid()
      modifies this
      ensures Valid() && Contents() == []
    {
      size := 0;
    }
  }
}
