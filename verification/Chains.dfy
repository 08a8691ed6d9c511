// The fluent builder and the meaning of its infix chains
// (include/columnar/predicate.h, Predicate and PredicateBuilder).
module Chains {
  import opened Types
  import opened Predicate

  /** A predicate as the scanner sees it: bytecode, and one type per column test. */
  datatype Pred = Pred(program: Program, columnPredicates: seq<PredicateType>)

  function AddComparison(p: Pred, c: Comparison): Pred {
    Pred(EmitComparison(p.program, c), p.columnPredicates + [Cmp(c.op)])
  }

  function AddOp(p: Pred, op: OpCode): Pred { p.(program := EmitOp(p.program, op)) }

  function AddNullTest(p: Pred, column: nat, isNull: bool): Pred {
    var g := p.program;
    Pred(Program(g.instructions + NullTestCode(g, isNull), g.constants, g.columnIndices + [column]),
         p.columnPredicates + [if isNull then IsNull else IsNotNull])
  }

  function NullTestCode(g: Program, isNull: bool): seq<Instruction> {
    [Instruction(LoadColumn, Operand(|g.columnIndices|)), Instruction(if isNull then TestNull else TestNotNull, 0)]
  }

  const EMPTY_PRED := Pred(EMPTY, [])

  class PredicateBuilder {
    var current: Pred

    constructor () ensures current == EMPTY_PRED { current := EMPTY_PRED; }

    method Eq(column: nat, value: int)
      modifies this
      ensures current == AddComparison(old(current), Comparison(CmpOp.Eq, column, value))
    { AppendComparison(Comparison(CmpOp.Eq, column, value)); }

    method Ne(column: nat, value: int)
      modifies this
      ensures current == AddComparison(old(current), Comparison(CmpOp.Ne, column, value))
    { AppendComparison(Comparison(CmpOp.Ne, column, value)); }

    method Lt(column: nat, value: int)
      modifies this
      ensures current == AddComparison(old(current), Comparison(CmpOp.Lt, column, value))
    { AppendComparison(Comparison(CmpOp.Lt, column, value)); }

    method Gt(column: nat, value: int)
      modifies this
      ensures current == AddComparison(old(current), Comparison(CmpOp.Gt, column, value))
    { AppendComparison(Comparison(CmpOp.Gt, column, value)); }

    /** The five appends every comparison makes. */
    method AppendComparison(c: Comparison)
      modifies this
      ensures current == AddComparison(old(current), c)
    {
      var g := current.program;
      var preds := current.columnPredicates + [Cmp(c.op)];
      var constIdx := |g.constants|;
      g := g.(constants := g.constants + [c.value]);
      var colIdx := |g.columnIndices|;
      g := g.(columnIndices := g.columnIndices + [c.column]);
      g := g.(instructions := g.instructions + [Instruction(LoadColumn, Operand(colIdx))]);
      g := g.(instructions := g.instructions + [Instruction(LoadConst, Operand(constIdx))]);
      g := g.(instructions := g.instructions + [Instruction(CompareOp(c.op), 0)]);
      assert g.instructions == current.program.instructions + ComparisonCode(current.program, c);
      current := Pred(g, preds);
    }

    method Null(column: nat)
      modifies this
      ensures current == AddNullTest(old(current), column, true)
    { current := AddNullTest(current, column, true); }

    method NotNull(column: nat)
      modifies this
      ensures current == AddNullTest(old(current), column, false)
    { current := AddNullTest(current, column, false); }

    method And() modifies this ensures current == AddOp(old(current), AndOp) { current := AddOp(current, AndOp); }
    method Or() modifies this ensures current == AddOp(old(current), OrOp) { current := AddOp(current, OrOp); }
    method Not() modifies this ensures current == AddOp(old(current), NotOp) { current := AddOp(current, NotOp); }
  }

  // ---- chains: cmp Not* ((And|Or) Not* cmp Not*)*

  datatype Link = Link(isAnd: bool, pre: nat, c: Comparison, post: nat)
  datatype Chain = Chain(first: Comparison, nots: nat, links: seq<Link>)

  function Flip(b: bool, n: nat): bool { if n % 2 == 0 then b else !b }

  /** Strictly left to right; a Not negates everything so far, also when it
      stands between an operator and its right operand. */
  function ChainValue(ch: Chain, row: seq<int>): bool
    decreases |ch.links|
  {
    if ch.links == [] then Flip(Holds(ch.first, row), ch.nots)
    else
      var l := LastLink(ch);
      var left := Flip(ChainValue(Shorter(ch), row), l.pre);
      Flip(Combine(l.isAnd, left, Holds(l.c, row)), l.post)
  }

  function Combine(isAnd: bool, a: bool, b: bool): bool { if isAnd then a && b else a || b }
  function LastLink(ch: Chain): Link requires ch.links != [] { ch.links[|ch.links| - 1] }
  function Shorter(ch: Chain): Chain requires ch.links != [] { ch.(links := ch.links[..|ch.links| - 1]) }

  predicate ChainColumnsBelow(ch: Chain, n: nat) {
    ch.first.column < n && forall i :: 0 <= i < |ch.links| ==> ch.links[i].c.column < n
  }

  function AddNots(p: Pred, n: nat): Pred { if n == 0 then p else AddOp(AddNots(p, n - 1), NotOp) }

  function AddLink(p: Pred, l: Link): Pred {
    AddNots(AddComparison(AddNots(AddOp(p, if l.isAnd then AndOp else OrOp), l.pre), l.c), l.post)
  }

  /** The predicate the builder calls produce. */
  function ChainPred(ch: Chain): Pred
    decreases |ch.links|
  {
    if ch.links == [] then AddNots(AddComparison(EMPTY_PRED, ch.first), ch.nots)
    else AddLink(ChainPred(Shorter(ch)), LastLink(ch))
  }

  // ---- the calls that build a chain

  /** The operators the builder has a call for. */
  predicate HasCall(op: CmpOp) { op in {CmpOp.Eq, CmpOp.Ne, CmpOp.Lt, CmpOp.Gt} }

  ghost predicate Buildable(ch: Chain) {
    HasCall(ch.first.op) && forall i :: 0 <= i < |ch.links| ==> HasCall(ch.links[i].c.op)
  }

  method CallComparison(b: PredicateBuilder, c: Comparison)
    requires HasCall(c.op)
    modifies b
    ensures b.current == AddComparison(old(b.current), c)
  {
    match c.op
    case Eq => b.Eq(c.column, c.value);
    case Ne => b.Ne(c.column, c.value);
    case Lt => b.Lt(c.column, c.value);
    case Gt => b.Gt(c.column, c.value);
  }

  method CallNots(b: PredicateBuilder, n: nat)
    modifies b
    ensures b.current == AddNots(old(b.current), n)
  {
    for i := 0 to n
      invariant b.current == AddNots(old(b.current), i)
    {
      b.Not();
    }
  }

  /** Comparisons, connectives and Nots called on a fresh builder, link by link,
      leave exactly the chain's predicate in it. */
  method BuildChain(ch: Chain) returns (b: PredicateBuilder)
    requires Buildable(ch)
    ensures fresh(b) && b.current == ChainPred(ch)
  {
    b := new PredicateBuilder();
    CallComparison(b, ch.first);
    CallNots(b, ch.nots);
    for i := 0 to |ch.links|
      invariant fresh(b) && b.current == ChainPred(ch.(links := ch.links[..i]))
    {
      var l := ch.links[i];
      assert ch.links[..i + 1][..i] == ch.links[..i];
      if l.isAnd { b.And(); } else { b.Or(); }
      CallNots(b, l.pre);
      CallComparison(b, l.c);
      CallNots(b, l.post);
    }
    assert ch.links[..|ch.links|] == ch.links;
  }

  function Nots(n: nat): seq<Instruction> { if n == 0 then [] else Nots(n - 1) + [Instruction(NotOp, 0)] }

  lemma {:induction false} AddNotsShape(p: Pred, n: nat)
    ensures AddNots(p, n) == Pred(p.program.(instructions := p.program.instructions + Nots(n)), p.columnPredicates)
  {
    if n > 0 { AddNotsShape(p, n - 1); }
  }

  function ConnectorCode(l: Link): Instruction { Instruction(if l.isAnd then AndOp else OrOp, 0) }

  function LinkCode(g: Program, l: Link): seq<Instruction> {
    [ConnectorCode(l)] + (Nots(l.pre) + (ComparisonCode(g, l.c) + Nots(l.post)))
  }

  lemma AddLinkShape(p: Pred, l: Link)
    ensures AddLink(p, l).program.instructions == p.program.instructions + LinkCode(p.program, l)
    ensures AddLink(p, l).program.constants == p.program.constants + [l.c.value]
    ensures AddLink(p, l).program.columnIndices == p.program.columnIndices + [l.c.column]
    ensures AddLink(p, l).columnPredicates == p.columnPredicates + [Cmp(l.c.op)]
  {
    hide ComparisonCode, Nots;
    var p1 := AddOp(p, if l.isAnd then AndOp else OrOp);
    AddNotsShape(p1, l.pre);
    var p2 := AddNots(p1, l.pre);
    assert ComparisonCode(p2.program, l.c) == ComparisonCode(p.program, l.c) by {
      SameTables(p2.program, p.program, l.c);
    }
    AddNotsShape(AddComparison(p2, l.c), l.post);
  }

  lemma SameTables(a: Program, b: Program, c: Comparison)
    requires a.constants == b.constants && a.columnIndices == b.columnIndices
    ensures ComparisonCode(a, c) == ComparisonCode(b, c)
  {
  }

  /** The tables list the comparisons in order, the first one first. */
  lemma {:induction false} ChainTables(ch: Chain)
    ensures var p := ChainPred(ch);
            && |p.program.constants| == |p.program.columnIndices| == |p.columnPredicates| == 1 + |ch.links|
            && p.program.constants[0] == ch.first.value
            && p.program.columnIndices[0] == ch.first.column
            && p.columnPredicates[0] == Cmp(ch.first.op)
    decreases |ch.links|
  {
    hide AddLink, AddNots;
    if ch.links == [] {
      AddNotsShape(AddComparison(EMPTY_PRED, ch.first), ch.nots);
    } else {
      ChainTables(Shorter(ch));
      AddLinkShape(ChainPred(Shorter(ch)), LastLink(ch));
    }
  }

  // ---- running a chain

  function One(b: bool, pa: bool, po: bool): Machine { Machine([Truth(b)], pa, po) }

  lemma {:induction false} NotsRun(q: Program, row: seq<int>, b: bool, n: nat, pa: bool, po: bool)
    ensures Run(q, row, Nots(n), One(b, pa, po)) == Running(One(Flip(b, n), pa, po))
  {
    if n > 0 {
      hide Run;
      NotsRun(q, row, b, n - 1, pa, po);
      var m := One(Flip(b, n - 1), pa, po);
      RunAppend(q, row, Nots(n - 1), [Instruction(NotOp, 0)], One(b, pa, po));
      RunOne(q, row, Instruction(NotOp, 0), m);
      assert m.stack[..0] + [Truth(!Flip(b, n - 1))] == [Truth(Flip(b, n))];
    }
  }

  lemma ConnectorRuns(q: Program, row: seq<int>, l: Link, b: bool)
    ensures Run(q, row, [ConnectorCode(l)], One(b, false, false)) == Running(One(b, l.isAnd, !l.isAnd))
  {
    RunOne(q, row, ConnectorCode(l), One(b, false, false));
  }

  /** The comparison's fold applies the one deferred operator and lowers its flag. */
  lemma DeferredFolds(isAnd: bool, a: bool, b: bool)
    ensures FoldPending(Machine([Truth(a)] + [Truth(b)], isAnd, !isAnd)) == One(Combine(isAnd, a, b), false, false)
  {
  }

  lemma LinkRuns(g: Program, q: Program, l: Link, row: seq<int>, b: bool)
    requires Within(EmitComparison(g, l.c), q) && l.c.column < |row|
    requires |g.constants| < TWO_32 && |g.columnIndices| < TWO_32
    ensures Run(q, row, LinkCode(g, l), One(b, false, false))
         == Running(One(Flip(Combine(l.isAnd, Flip(b, l.pre), Holds(l.c, row)), l.post), false, false))
  {
    hide Run, Step, Nots, ComparisonCode, EmitComparison, Holds, Flip, FoldPending, ConnectorCode;
    var cmp := ComparisonCode(g, l.c);
    var m0, m1 := One(b, false, false), One(b, l.isAnd, !l.isAnd);
    var left := Flip(b, l.pre);
    var m2 := One(left, l.isAnd, !l.isAnd);
    var both := Combine(l.isAnd, left, Holds(l.c, row));
    ConnectorRuns(q, row, l, b);
    RunAppend(q, row, [ConnectorCode(l)], Nots(l.pre) + (cmp + Nots(l.post)), m0);
    NotsRun(q, row, b, l.pre, l.isAnd, !l.isAnd);
    RunAppend(q, row, Nots(l.pre), cmp + Nots(l.post), m1);
    ComparisonRuns(g, q, l.c, row, m2);
    DeferredFolds(l.isAnd, left, Holds(l.c, row));
    RunAppend(q, row, cmp, Nots(l.post), m2);
    NotsRun(q, row, both, l.post, false, false);
  }

  /** After every segment of a chain the stack holds one value, the value of the
      chain so far, and no operator is pending. */
  lemma {:induction false} ChainRuns(ch: Chain, q: Program, row: seq<int>)
    requires Within(ChainPred(ch).program, q) && ChainColumnsBelow(ch, |row|) && 1 + |ch.links| <= TWO_32
    ensures Run(q, row, ChainPred(ch).program.instructions, START) == Running(One(ChainValue(ch, row), false, false))
    decreases |ch.links|
  {
    hide Run, Step, AddLink, AddNots, LinkCode, ComparisonCode, FoldPending, Holds;
    if ch.links == [] {
      FirstRuns(ch, q, row);
    } else {
      var l, sh := LastLink(ch), Shorter(ch);
      var g := ChainPred(sh).program;
      AddLinkShape(ChainPred(sh), l);
      ChainTables(sh);
      ChainRuns(sh, q, row);
      RunAppend(q, row, g.instructions, LinkCode(g, l), START);
      LinkRuns(g, q, l, row, ChainValue(sh, row));
    }
  }

  lemma FirstRuns(ch: Chain, q: Program, row: seq<int>)
    requires ch.links == [] && Within(ChainPred(ch).program, q) && ch.first.column < |row|
    ensures Run(q, row, ChainPred(ch).program.instructions, START) == Running(One(ChainValue(ch, row), false, false))
  {
    hide Run, Step, ComparisonCode, Holds, Nots;
    var p := AddComparison(EMPTY_PRED, ch.first);
    AddNotsShape(p, ch.nots);
    var cmp := ComparisonCode(EMPTY, ch.first);
    assert ChainPred(ch).program.instructions == cmp + Nots(ch.nots);
    ComparisonRuns(EMPTY, q, ch.first, row, START);
    assert [] + [Truth(Holds(ch.first, row))] == [Truth(Holds(ch.first, row))];
    RunAppend(q, row, cmp, Nots(ch.nots), START);
    NotsRun(q, row, Holds(ch.first, row), ch.nots, false, false);
  }

  /** Compiler correctness for builder chains of any length. */
  lemma InfixCorrect(ch: Chain, row: seq<int>)
    requires ChainColumnsBelow(ch, |row|) && 1 + |ch.links| <= TWO_32
    ensures Defined(ChainPred(ch).program, row)
    ensures Eval(ChainPred(ch).program, row) == ChainValue(ch, row)
  {
    hide Run, Step, ChainPred;
    ChainRuns(ch, ChainPred(ch).program, row);
  }

  /** `a.And().Not().b` is not `a && !b`: the Not lands on the left operand. */
  lemma NotBeforeOperandNegatesLeft(a: Comparison, b: Comparison, row: seq<int>)
    requires a.column < |row| && b.column < |row|
    ensures var p := ChainPred(Chain(a, 0, [Link(true, 1, b, 0)])).program;
            && Defined(p, row) && Eval(p, row) == (!Holds(a, row) && Holds(b, row))
            && (Eval(p, row) == (Holds(a, row) && !Holds(b, row)) <==> (Holds(a, row) <==> Holds(b, row)))
  {
    hide ChainPred, Eval, Defined, Holds;
    var ch := Chain(a, 0, [Link(true, 1, b, 0)]);
    assert Shorter(ch) == Chain(a, 0, []);
    InfixCorrect(ch, row);
  }

  // ---- null tests do not fold

  function WithNullTest(ch: Chain, isAnd: bool, column: nat, isNull: bool): Pred {
    AddNullTest(AddOp(ChainPred(ch), if isAnd then AndOp else OrOp), column, isNull)
  }

  /** What the builder calls are meant to say. */
  predicate Intended(ch: Chain, isAnd: bool, column: nat, isNull: bool, row: seq<int>)
    requires column < |row|
  {
    Combine(isAnd, ChainValue(ch, row), (row[column] == 0) == isNull)
  }

  /** A null test after a deferred operator never folds it: the answer is the
      null test alone (a zero test on the value), the chain before it is lost. */
  lemma NullTestDropsChain(ch: Chain, isAnd: bool, column: nat, isNull: bool, row: seq<int>)
    requires ChainColumnsBelow(ch, |row|) && 2 + |ch.links| <= TWO_32 && column < |row|
    ensures var p := WithNullTest(ch, isAnd, column, isNull).program;
            Defined(p, row) && Eval(p, row) == ((row[column] == 0) == isNull)
  {
    hide Run, Step, ChainPred, ChainValue, NullTestCode, ConnectorCode, Operand;
    var g := ChainPred(ch).program;
    var g1 := AddOp(ChainPred(ch), if isAnd then AndOp else OrOp).program;
    var p := WithNullTest(ch, isAnd, column, isNull).program;
    ChainTables(ch);
    ChainRuns(ch, p, row);
    var v := ChainValue(ch, row);
    var l := Link(isAnd, 0, ch.first, 0);
    var code := NullTestCode(g1, isNull);
    assert p.instructions == g.instructions + ([ConnectorCode(l)] + code) by { ConnectorEmitted(l); }
    RunAppend(p, row, g.instructions, [ConnectorCode(l)] + code, START);
    ConnectorRuns(p, row, l, v);
    RunAppend(p, row, [ConnectorCode(l)], code, One(v, false, false));
    NullTestRuns(g1, p, row, isNull, One(v, isAnd, !isAnd));
  }

  lemma ConnectorEmitted(l: Link)
    ensures ConnectorCode(l) == Instruction(if l.isAnd then AndOp else OrOp, 0)
  {
  }

  lemma NullTestRuns(g: Program, q: Program, row: seq<int>, isNull: bool, m: Machine)
    requires |g.columnIndices| < TWO_32 && |g.columnIndices| < |q.columnIndices|
    requires q.columnIndices[|g.columnIndices|] < |row|
    ensures var test := (row[q.columnIndices[|g.columnIndices|]] == 0) == isNull;
            Run(q, row, NullTestCode(g, isNull), m) == Running(m.(stack := m.stack + [Truth(test)]))
  {
    hide Run;
    var code := NullTestCode(g, isNull);
    var x := row[q.columnIndices[|g.columnIndices|]];
    var m1 := m.(stack := m.stack + [x]);
    assert code == [code[0]] + [code[1]];
    RunAppend(q, row, [code[0]], [code[1]], m);
    RunOne(q, row, code[0], m);
    RunOne(q, row, code[1], m1);
    assert m1.stack[..|m.stack|] == m.stack;
  }

  /** The answer is the intended one on all rows if and only if the dropped chain
      never matters: the null test implies it under And, is implied by it under Or. */
  lemma NullTestHarmlessIff(ch: Chain, isAnd: bool, column: nat, isNull: bool, width: nat)
    requires ChainColumnsBelow(ch, width) && 2 + |ch.links| <= TWO_32 && column < width
    ensures (forall row: seq<int> :: |row| == width ==>
               Eval(WithNullTest(ch, isAnd, column, isNull).program, row) == Intended(ch, isAnd, column, isNull, row))
       <==> if isAnd then forall row: seq<int> :: |row| == width && (row[column] == 0) == isNull ==> ChainValue(ch, row)
            else forall row: seq<int> :: |row| == width && ChainValue(ch, row) ==> (row[column] == 0) == isNull
  {
    hide Eval, Defined, ChainValue, WithNullTest;
    forall row: seq<int> | |row| == width
      ensures Eval(WithNullTest(ch, isAnd, column, isNull).program, row) == ((row[column] == 0) == isNull)
    {
      NullTestDropsChain(ch, isAnd, column, isNull, row);
    }
  }

  /** `a.Or().Null(c)` on a row where a holds and c is not zero: the code says no. */
  lemma OrNullLosesRow(a: Comparison, c: nat, row: seq<int>)
    requires a.column < |row| && c < |row| && Holds(a, row) && row[c] != 0
    ensures !Eval(WithNullTest(Chain(a, 0, []), false, c, true).program, row)
    ensures Intended(Chain(a, 0, []), false, c, true, row)
  {
    hide Eval, Defined, WithNullTest;
    NullTestDropsChain(Chain(a, 0, []), false, c, true, row);
  }
}
