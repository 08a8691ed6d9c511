// Run-length coding: the run list with its filter (include/columnar/rle.h) and
// the registered byte-stream form (include/columnar/encoding/encoding.h).
module Rle {
  import opened Types
  import opened Bytes

  const UINT32_MAX: nat := 0xFFFF_FFFF

  datatype Run = Run(value: int, count: nat)

  function Repeat(v: int, n: nat): (r: seq<int>)
    ensures |r| == n && forall i :: 0 <= i < n ==> r[i] == v
  {
    seq(n, _ => v)
  }

  /** The column a run list stands for. */
  function Expand(runs: seq<Run>): seq<int> {
    if runs == [] then [] else Expand(Front(runs)) + Repeat(Last(runs).value, Last(runs).count)
  }

  function Front(runs: seq<Run>): seq<Run> requires runs != [] { runs[..|runs| - 1] }
  function Last(runs: seq<Run>): Run requires runs != [] { runs[|runs| - 1] }

  function Total(runs: seq<Run>): nat {
    if runs == [] then 0 else Total(Front(runs)) + Last(runs).count
  }

  /** Lengths are 1 .. UINT32_MAX, and a run only ends when the value changes or
      the counter is full. */
  ghost predicate Maximal(runs: seq<Run>) {
    && (forall i :: 0 <= i < |runs| ==> 1 <= runs[i].count <= UINT32_MAX)
    && forall i :: 0 < i < |runs| ==> runs[i].value != runs[i - 1].value || runs[i - 1].count == UINT32_MAX
  }

  ghost predicate IsRle(runs: seq<Run>, data: seq<int>) { Maximal(runs) && Expand(runs) == data }

  lemma {:induction false} ExpandTotal(runs: seq<Run>)
    ensures |Expand(runs)| == Total(runs)
  {
    if runs != [] { ExpandTotal(Front(runs)); }
  }

  lemma {:induction false} ExpandAppend(a: seq<Run>, b: seq<Run>)
    ensures Expand(a + b) == Expand(a) + Expand(b)
  {
    if b == [] {
      assert a + b == a;
    } else {
      ExpandAppend(a, Front(b));
      assert Front(a + b) == a + Front(b) && Last(a + b) == Last(b);
    }
  }

  lemma ExpandHead(runs: seq<Run>)
    requires runs != []
    ensures Expand(runs) == Repeat(runs[0].value, runs[0].count) + Expand(runs[1..])
  {
    ExpandAppend(runs[..1], runs[1..]);
    assert runs == runs[..1] + runs[1..];
    assert Expand(runs[..1]) == Expand([]) + Repeat(runs[0].value, runs[0].count);
  }

  /** A column has one run list of this kind: the encoder's output is determined. */
  lemma {:induction false} RunsUnique(a: seq<Run>, b: seq<Run>)
    requires Maximal(a) && Maximal(b) && Expand(a) == Expand(b)
    ensures a == b
    decreases |a|
  {
    if a == [] {
      if b != [] { ExpandHead(b); }
    } else {
      ExpandHead(a);
      if b != [] {
        ExpandHead(b);
        assert Expand(a)[0] == Expand(b)[0];
        FirstRunMaximal(a, b);
        FirstRunMaximal(b, a);
        assert Expand(a[1..]) == Expand(a)[a[0].count..];
        assert Expand(b[1..]) == Expand(b)[b[0].count..];
        RunsUnique(a[1..], b[1..]);
        assert a == [a[0]] + a[1..] && b == [b[0]] + b[1..];
      }
    }
  }

  lemma FirstRunMaximal(a: seq<Run>, b: seq<Run>)
    requires Maximal(a) && Maximal(b) && Expand(a) == Expand(b) && a != [] && b != []
    ensures a[0].count >= b[0].count && a[0].value == b[0].value
  {
    ExpandHead(a);
    ExpandHead(b);
    assert Expand(a)[0] == Expand(b)[0];
    var n := a[0].count;
    if |a| > 1 {
      ExpandHead(a[1..]);
      assert Expand(a)[n] == a[1].value;
    }
    assert forall k :: 0 <= k < b[0].count ==> Expand(b)[k] == b[0].value;
  }

  // ---- the run-list encoder

  class RleEncoder {
    var runs: seq<Run>

    constructor ()
      ensures runs == []
    {
      runs := [];
    }

    /** A non-empty column replaces the runs. An empty one returns before the
        list is cleared, so a reused encoder keeps its old runs. */
    method Encode(data: seq<int>)
      modifies this
      ensures data != [] ==> IsRle(runs, data) && Total(runs) == |data|
      ensures data == [] ==> runs == old(runs)
      ensures Expand(runs) == data <==> data != [] || old(Expand(runs)) == []
    {
      if |data| == 0 { return; }
      hide Maximal, Expand, Total;
      runs := [];
      var current, runLength := data[0], 1;
      OneRun(current);
      assert runs + [Run(current, 1)] == [Run(current, 1)] && data[..1] == [current];
      var i := 1;
      while i < |data|
        invariant 1 <= i <= |data| && 1 <= runLength <= UINT32_MAX
        invariant Maximal(runs + [Run(current, runLength)])
        invariant Expand(runs + [Run(current, runLength)]) == data[..i]
      {
        ghost var before := runs + [Run(current, runLength)];
        assert data[..i + 1] == data[..i] + [data[i]];
        if data[i] == current && runLength < UINT32_MAX {
          GrowLast(runs, current, runLength);
          runLength := runLength + 1;
        } else {
          StartRun(before, data[i]);
          runs := runs + [Run(current, runLength)];
          current, runLength := data[i], 1;
        }
        i := i + 1;
      }
      runs := runs + [Run(current, runLength)];
      assert data[..i] == data;
      ExpandTotal(runs);
    }
  }

  lemma OneRun(v: int)
    ensures Maximal([Run(v, 1)]) && Expand([Run(v, 1)]) == [v]
  {
    assert Front([Run(v, 1)]) == [] && Repeat(v, 1) == [v];
  }

  lemma GrowLast(runs: seq<Run>, v: int, n: nat)
    requires Maximal(runs + [Run(v, n)]) && n < UINT32_MAX
    ensures Maximal(runs + [Run(v, n + 1)])
    ensures Expand(runs + [Run(v, n + 1)]) == Expand(runs + [Run(v, n)]) + [v]
  {
    var a, b := runs + [Run(v, n)], runs + [Run(v, n + 1)];
    assert Front(a) == runs && Front(b) == runs;
    assert Repeat(v, n + 1) == Repeat(v, n) + [v];
    assert forall i :: 0 <= i < |b| ==> b[i].value == a[i].value && (i < |runs| ==> b[i] == a[i]);
  }

  lemma StartRun(runs: seq<Run>, v: int)
    requires runs != [] && Maximal(runs) && (v != Last(runs).value || Last(runs).count == UINT32_MAX)
    ensures Maximal(runs + [Run(v, 1)])
    ensures Expand(runs + [Run(v, 1)]) == Expand(runs) + [v]
  {
    assert Front(runs + [Run(v, 1)]) == runs;
    assert Repeat(v, 1) == [v];
  }

  function Min(a: nat, b: nat): nat { if a < b then a else b }

  lemma ExpandStep(runs: seq<Run>, i: nat)
    requires i < |runs|
    ensures Expand(runs[..i + 1]) == Expand(runs[..i]) + Repeat(runs[i].value, runs[i].count)
  {
    assert Front(runs[..i + 1]) == runs[..i];
  }

  lemma ExpandPrefix(runs: seq<Run>, i: nat)
    requires i <= |runs|
    ensures |Expand(runs[..i])| <= |Expand(runs)| && Expand(runs[..i]) == Expand(runs)[..|Expand(runs[..i])|]
  {
    ExpandAppend(runs[..i], runs[i..]);
    assert runs == runs[..i] + runs[i..];
  }

  /** Where run i lands in the expanded column. */
  lemma RunWindow(runs: seq<Run>, i: nat)
    requires i < |runs|
    ensures |Expand(runs[..i + 1])| == |Expand(runs[..i])| + runs[i].count <= |Expand(runs)|
    ensures forall k :: |Expand(runs[..i])| <= k < |Expand(runs[..i + 1])| ==> Expand(runs)[k] == runs[i].value
  {
    ExpandStep(runs, i);
    ExpandPrefix(runs, i + 1);
    var e := Expand(runs[..i + 1]);
    assert forall k :: 0 <= k < |e| ==> Expand(runs)[k] == e[k];
  }

  lemma NothingYet(runs: seq<Run>)
    ensures Expand(runs[..0]) == []
    ensures runs[..|runs|] == runs
  {
  }

  /** Decoding writes the column's first values and nothing past them. */
  method Decode(runs: seq<Run>, out: array<int>, count: nat)
    requires count <= out.Length
    modifies out
    ensures var n := Min(count, |Expand(runs)|); out[..n] == Expand(runs)[..n]
    ensures forall k :: Min(count, |Expand(runs)|) <= k < out.Length ==> out[k] == old(out[k])
  {
    hide Expand;
    var pos, i := 0, 0;
    NothingYet(runs);
    while i < |runs| && pos < count
      invariant 0 <= i <= |runs|
      invariant pos == Min(count, |Expand(runs[..i])|) <= |Expand(runs)|
      invariant out[..pos] == Expand(runs)[..pos]
      invariant forall k :: pos <= k < out.Length ==> out[k] == old(out[k])
    {
      var toWrite := Min(runs[i].count, count - pos);
      RunWindow(runs, i);
      FillRange(out, pos, toWrite, runs[i].value);
      pos := pos + toWrite;
      i := i + 1;
    }
    ExpandPrefix(runs, i);
  }

  /** std::fill_n */
  method FillRange<T>(out: array<T>, start: nat, n: nat, v: T)
    requires start + n <= out.Length
    modifies out
    ensures forall k :: 0 <= k < out.Length ==> out[k] == if start <= k < start + n then v else old(out[k])
  {
    for k := start to start + n
      invariant forall j :: 0 <= j < out.Length ==> out[j] == if start <= j < k then v else old(out[j])
    {
      out[k] := v;
    }
  }

  /** Filtering runs: one comparison per run gives the mask of the decoded column. */
  method Filter(runs: seq<Run>, op: CmpOp, value: int, mask: array<bool>, count: nat)
    requires count <= mask.Length
    modifies mask
    ensures forall k :: 0 <= k < Min(count, |Expand(runs)|) ==> mask[k] == Compare(op, Expand(runs)[k], value)
    ensures forall k :: Min(count, |Expand(runs)|) <= k < mask.Length ==> mask[k] == old(mask[k])
  {
    hide Expand;
    var pos, i := 0, 0;
    NothingYet(runs);
    while i < |runs| && pos < count
      invariant 0 <= i <= |runs|
      invariant pos == Min(count, |Expand(runs[..i])|) <= |Expand(runs)|
      invariant forall k :: 0 <= k < pos ==> mask[k] == Compare(op, Expand(runs)[k], value)
      invariant forall k :: pos <= k < mask.Length ==> mask[k] == old(mask[k])
    {
      var toWrite := Min(runs[i].count, count - pos);
      RunWindow(runs, i);
      FillRange(mask, pos, toWrite, Compare(op, runs[i].value, value));
      pos := pos + toWrite;
      i := i + 1;
    }
    ExpandPrefix(runs, i);
  }

  // ---- the byte stream

  ghost predicate Storable(t: DataType, runs: seq<Run>) {
    forall i :: 0 <= i < |runs| ==> InRange(t, runs[i].value) && runs[i].count <= UINT32_MAX
  }

  function RunBytes(t: DataType, run: Run): (r: seq<Byte>)
    requires InRange(t, run.value)
    ensures |r| == TypeSize(t) + 4
  {
    ValueBytes(t, run.value) + LeBytes(run.count, 4)
  }

  function RunsBytes(t: DataType, runs: seq<Run>): seq<Byte>
    requires Storable(t, runs)
  {
    if runs == [] then [] else RunsBytes(t, Front(runs)) + RunBytes(t, Last(runs))
  }

  /** The runs in a byte stream: every complete record. */
  function ParseRuns(t: DataType, b: seq<Byte>): seq<Run>
    decreases |b|
  {
    if |b| < TypeSize(t) + 4 then []
    else [ParseRun(t, b)] + ParseRuns(t, b[TypeSize(t) + 4..])
  }

  function ParseRun(t: DataType, b: seq<Byte>): Run
    requires |b| >= TypeSize(t) + 4
  {
    Run(ReadValue(t, b), LeValue(b[TypeSize(t)..][..4]))
  }

  lemma RunRoundTrip(t: DataType, run: Run, rest: seq<Byte>)
    requires InRange(t, run.value) && run.count <= UINT32_MAX
    ensures ParseRun(t, RunBytes(t, run) + rest) == run
    ensures (RunBytes(t, run) + rest)[TypeSize(t) + 4..] == rest
  {
    hide LeBytes, LeValue, ReadValue, ValueBytes;
    Pow256Sizes();
    var tail := LeBytes(run.count, 4) + rest;
    assert RunBytes(t, run) + rest == ValueBytes(t, run.value) + tail;
    ValueRoundTrip(t, run.value, tail);
    FieldRoundTrip(run.count, 4, rest);
  }

  lemma {:induction false} StreamRoundTrip(t: DataType, runs: seq<Run>, rest: seq<Byte>)
    requires Storable(t, runs)
    ensures ParseRuns(t, RunsBytes(t, runs) + rest) == runs + ParseRuns(t, rest)
    decreases |runs|
  {
    hide RunBytes, ParseRun;
    if runs == [] {
      assert RunsBytes(t, runs) + rest == rest;
    } else {
      var last := RunBytes(t, Last(runs));
      assert RunsBytes(t, runs) + rest == RunsBytes(t, Front(runs)) + (last + rest);
      StreamRoundTrip(t, Front(runs), last + rest);
      RunRoundTrip(t, Last(runs), rest);
      assert runs == Front(runs) + [Last(runs)];
    }
  }

  lemma RunsBytesAppend(t: DataType, start: seq<Byte>, runs: seq<Run>, run: Run)
    requires Storable(t, runs) && InRange(t, run.value) && run.count <= UINT32_MAX
    ensures Storable(t, runs + [run])
    ensures start + RunsBytes(t, runs + [run]) == start + RunsBytes(t, runs) + RunBytes(t, run)
  {
    assert Front(runs + [run]) == runs;
  }

  /** The encoder between two values: finished runs and one still growing. */
  ghost predicate Midway(t: DataType, runs: seq<Run>, current: int, n: nat, seen: seq<int>) {
    && 1 <= n <= UINT32_MAX && InRange(t, current) && Storable(t, runs)
    && IsRle(runs + [Run(current, n)], seen)
  }

  lemma MidwayMeans(t: DataType, runs: seq<Run>, current: int, n: nat, seen: seq<int>)
    requires Midway(t, runs, current, n, seen)
    ensures 1 <= n <= UINT32_MAX && InRange(t, current) && Storable(t, runs)
    ensures IsRle(runs + [Run(current, n)], seen)
  {
  }

  lemma NoRuns(t: DataType, start: seq<Byte>)
    ensures IsRle([], []) && Storable(t, []) && start == start + RunsBytes(t, [])
  {
  }

  lemma MidwayFirst(t: DataType, v: int)
    requires InRange(t, v)
    ensures Midway(t, [], v, 1, [v])
  {
    assert Front([Run(v, 1)]) == [];
    assert Repeat(v, 1) == [v];
    assert [] + [Run(v, 1)] == [Run(v, 1)];
  }

  lemma MidwayStep(t: DataType, runs: seq<Run>, current: int, n: nat, data: seq<int>, i: nat)
    requires i < |data| && InRange(t, data[i]) && Midway(t, runs, current, n, data[..i])
    ensures data[i] == current && n < UINT32_MAX ==> Midway(t, runs, current, n + 1, data[..i + 1])
    ensures !(data[i] == current && n < UINT32_MAX) ==>
              Midway(t, runs + [Run(current, n)], data[i], 1, data[..i + 1])
  {
    hide Expand, Maximal;
    assert data[..i + 1] == data[..i] + [data[i]];
    if data[i] == current && n < UINT32_MAX {
      GrowLast(runs, current, n);
    } else {
      StartRun(runs + [Run(current, n)], data[i]);
    }
  }

  method EncodeStream(t: DataType, data: seq<int>, out: Buffer) returns (ghost runs: seq<Run>)
    requires out.Valid() && AllInRange(t, data)
    modifies out
    ensures IsRle(runs, data) && Storable(t, runs)
    ensures out.Valid() && out.Contents() == old(out.Contents()) + RunsBytes(t, runs)
  {
    hide RunBytes, RunsBytes, IsRle, Storable, Midway;
    runs := [];
    ghost var start := out.Contents();
    NoRuns(t, start);
    if |data| == 0 { return; }
    var current, runLength := data[0], 1;
    MidwayFirst(t, current);
    assert data[..1] == [current];
    var i := 1;
    while i < |data|
      invariant 1 <= i <= |data| && Midway(t, runs, current, runLength, data[..i])
      invariant Storable(t, runs) && out.Valid() && out.Contents() == start + RunsBytes(t, runs)
    {
      MidwayMeans(t, runs, current, runLength, data[..i]);
      MidwayStep(t, runs, current, runLength, data, i);
      if data[i] == current && runLength < UINT32_MAX {
        runLength := runLength + 1;
      } else {
        AppendRun(t, Run(current, runLength), out);
        RunsBytesAppend(t, start, runs, Run(current, runLength));
        runs := runs + [Run(current, runLength)];
        current, runLength := data[i], 1;
      }
      i := i + 1;
    }
    MidwayMeans(t, runs, current, runLength, data[..i]);
    AppendRun(t, Run(current, runLength), out);
    RunsBytesAppend(t, start, runs, Run(current, runLength));
    runs := runs + [Run(current, runLength)];
    assert data[..i] == data;
  }

  method AppendRun(t: DataType, run: Run, out: Buffer)
    requires out.Valid() && InRange(t, run.value)
    modifies out
    ensures out.Valid() && out.Contents() == old(out.Contents()) + RunBytes(t, run)
  {
    out.Append(ValueBytes(t, run.value));
    out.Append(LeBytes(run.count, 4));
  }

  /** Decoding a stream writes the first values of the runs it parses to. */
  method DecodeStream(t: DataType, bytes: seq<Byte>, out: array<int>, count: nat)
    requires count <= out.Length
    modifies out
    ensures var col := Expand(ParseRuns(t, bytes)); var n := Min(count, |col|);
            out[..n] == col[..n] && forall k :: n <= k < out.Length ==> out[k] == old(out[k])
  {
    hide ParseRun, Expand;
    var src, pos := bytes, 0;
    ghost var runs, i := ParseRuns(t, bytes), 0;
    NothingYet(runs);
    while pos < count && |src| >= TypeSize(t) + 4
      invariant 0 <= i <= |runs| && runs[i..] == ParseRuns(t, src)
      invariant pos == Min(count, |Expand(runs[..i])|) <= |Expand(runs)|
      invariant out[..pos] == Expand(runs)[..pos]
      invariant forall k :: pos <= k < out.Length ==> out[k] == old(out[k])
      decreases |src|
    {
      var run := ParseRun(t, src);
      assert runs[i..][0] == run && runs[i..][1..] == runs[i + 1..];
      src := src[TypeSize(t) + 4..];
      var toWrite := Min(run.count, count - pos);
      RunWindow(runs, i);
      FillRange(out, pos, toWrite, run.value);
      pos := pos + toWrite;
      i := i + 1;
    }
    if |src| < TypeSize(t) + 4 { assert runs[..i] == runs; }
    ExpandPrefix(runs, i);
  }

  /** Parsing what was written gives back runs that expand to the column. */
  lemma StreamDecodes(t: DataType, runs: seq<Run>, data: seq<int>)
    requires IsRle(runs, data) && Storable(t, runs)
    ensures Expand(ParseRuns(t, RunsBytes(t, runs))) == data
  {
    StreamRoundTrip(t, runs, []);
    assert RunsBytes(t, runs) + [] == RunsBytes(t, runs);
    assert runs + ParseRuns(t, []) == runs;
  }

  // ---- the counted image written by RleEncoder::Write

  method Write(t: DataType, runs: seq<Run>, out: Buffer)
    requires out.Valid() && Storable(t, runs)
    modifies out
    ensures out.Valid() && out.Contents() == old(out.Contents()) + LeBytes(|runs|, 4) + RunsBytes(t, runs)
  {
    out.Append(LeBytes(|runs|, 4));
    ghost var start := out.Contents();
    assert start == start + RunsBytes(t, runs[..0]);
    hide RunBytes, RunsBytes;
    for i := 0 to |runs|
      invariant out.Valid() && out.Contents() == start + RunsBytes(t, runs[..i])
    {
      AppendRun(t, runs[i], out);
      RunsBytesAppend(t, start, runs[..i], runs[i]);
      assert runs[..i] + [runs[i]] == runs[..i + 1];
    }
    assert runs[..|runs|] == runs;
  }

  /** Read: the counted number of records after the count field */
  method Read(t: DataType, data: seq<Byte>) returns (runs: seq<Run>)
    requires |data| >= 4 && |data| >= 4 + LeValue(data[..4]) * (TypeSize(t) + 4)
    ensures |runs| == LeValue(data[..4]) && runs <= ParseRuns(t, data[4..])
  {
    hide ParseRun, LeValue;
    var numRuns := LeValue(data[..4]);
    var ptr := data[4..];
    runs := [];
    ghost var all := ParseRuns(t, ptr);
    while |runs| < numRuns
      invariant |runs| <= numRuns && |ptr| >= (numRuns - |runs|) * (TypeSize(t) + 4)
      invariant runs + ParseRuns(t, ptr) == all
      decreases numRuns - |runs|
    {
      var run := ParseRun(t, ptr);
      assert ParseRuns(t, ptr) == [run] + ParseRuns(t, ptr[TypeSize(t) + 4..]);
      runs := runs + [run];
      ptr := ptr[TypeSize(t) + 4..];
    }
  }

  /** Reading back what Write produced gives the same runs, whatever follows. */
  lemma ReadBack(t: DataType, runs: seq<Run>, rest: seq<Byte>, back: seq<Run>)
    requires Storable(t, runs) && |runs| < TWO_32
    requires var data := LeBytes(|runs|, 4) + (RunsBytes(t, runs) + rest);
             |back| == LeValue(data[..4]) && back <= ParseRuns(t, data[4..])
    ensures back == runs
  {
    hide LeBytes, LeValue, ParseRuns, RunsBytes;
    Pow256Sizes();
    FieldRoundTrip(|runs|, 4, RunsBytes(t, runs) + rest);
    StreamRoundTrip(t, runs, rest);
  }
}
