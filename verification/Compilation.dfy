// What emitted bytecode means: expression trees emitted operands-first, and the
// builder's infix chains whose operators come before their right operand
// (include/columnar/predicate.h).
module Compilation {
  import opened Types
  import opened Predicate

  // ---- expression trees, postfix

  datatype Expr = Leaf(c: Comparison) | Both(l: Expr, r: Expr) | Either(l: Expr, r: Expr) | Neg(e: Expr)

  predicate Meaning(e: Expr, row: seq<int>) {
    match e
    case Leaf(c) => Holds(c, row)
    case Both(l, r) => Meaning(l, row) && Meaning(r, row)
    case Either(l, r) => Meaning(l, row) || Meaning(r, row)
    case Neg(x) => !Meaning(x, row)
  }

  function Leaves(e: Expr): (n: nat)
    ensures n >= 1
  {
    match e
    case Leaf(_) => 1
    case Both(l, r) => Leaves(l) + Leaves(r)
    case Either(l, r) => Leaves(l) + Leaves(r)
    case Neg(x) => Leaves(x)
  }

  function Nodes(e: Expr): (n: nat)
    ensures n >= 1
  {
    match e
    case Leaf(_) => 1
    case Both(l, r) => 1 + Nodes(l) + Nodes(r)
    case Either(l, r) => 1 + Nodes(l) + Nodes(r)
    case Neg(x) => 1 + Nodes(x)
  }

  predicate ColumnsBelow(e: Expr, n: nat) {
    match e
    case Leaf(c) => c.column < n
    case Both(l, r) => ColumnsBelow(l, n) && ColumnsBelow(r, n)
    case Either(l, r) => ColumnsBelow(l, n) && ColumnsBelow(r, n)
    case Neg(x) => ColumnsBelow(x, n)
  }

  function Emit(e: Expr, p: Program): Program {
    match e
    case Leaf(c) => EmitComparison(p, c)
    case Both(l, r) => EmitOp(Emit(r, Emit(l, p)), AndOp)
    case Either(l, r) => EmitOp(Emit(r, Emit(l, p)), OrOp)
    case Neg(x) => EmitOp(Emit(x, p), NotOp)
  }

  /** The instructions Emit appends to p. */
  function Code(e: Expr, p: Program): seq<Instruction> {
    match e
    case Leaf(c) => ComparisonCode(p, c)
    case Both(l, r) => Code(l, p) + (Code(r, Emit(l, p)) + [Instruction(AndOp, 0)])
    case Either(l, r) => Code(l, p) + (Code(r, Emit(l, p)) + [Instruction(OrOp, 0)])
    case Neg(x) => Code(x, p) + [Instruction(NotOp, 0)]
  }

  lemma {:induction false} EmitShape(e: Expr, p: Program)
    ensures Emit(e, p).instructions == p.instructions + Code(e, p)
    ensures Within(p, Emit(e, p))
    ensures |Emit(e, p).constants| == |p.constants| + Leaves(e)
    ensures |Emit(e, p).columnIndices| == |p.columnIndices| + Leaves(e)
  {
    hide ComparisonCode;
    match e
    case Leaf(c) =>
    case Both(l, r) => EmitShape(l, p); EmitShape(r, Emit(l, p));
    case Either(l, r) => EmitShape(l, p); EmitShape(r, Emit(l, p));
    case Neg(x) => EmitShape(x, p);
  }

  /** Room for every operand in its 32-bit field. */
  predicate Addressable(p: Program, n: nat) {
    |p.constants| + n <= TWO_32 && |p.columnIndices| + n <= TWO_32
  }

  predicate Calm(m: Machine) { !m.pendingAnd && !m.pendingOr }

  function Pushed(m: Machine, b: bool): Machine { m.(stack := m.stack + [Truth(b)]) }

  lemma OpRuns(q: Program, row: seq<int>, m: Machine, a: bool, b: bool)
    requires Calm(m)
    ensures Run(q, row, [Instruction(AndOp, 0)], Pushed(Pushed(m, a), b)) == Running(Pushed(m, a && b))
    ensures Run(q, row, [Instruction(OrOp, 0)], Pushed(Pushed(m, a), b)) == Running(Pushed(m, a || b))
    ensures Run(q, row, [Instruction(NotOp, 0)], Pushed(m, a)) == Running(Pushed(m, !a))
  {
    hide Run;
    var two, one := Pushed(Pushed(m, a), b), Pushed(m, a);
    RunOne(q, row, Instruction(AndOp, 0), two);
    RunOne(q, row, Instruction(OrOp, 0), two);
    RunOne(q, row, Instruction(NotOp, 0), one);
    assert two.stack[..|two.stack| - 2] == m.stack && one.stack[..|one.stack| - 1] == m.stack;
  }

  /** A tree's code pushes its meaning: one value, flags untouched. */
  lemma {:induction false} PostfixRuns(e: Expr, p: Program, q: Program, row: seq<int>, m: Machine)
    requires Within(Emit(e, p), q) && Addressable(p, Leaves(e)) && ColumnsBelow(e, |row|) && Calm(m)
    ensures Run(q, row, Code(e, p), m) == Running(Pushed(m, Meaning(e, row)))
    decreases Nodes(e), 0
  {
    hide Run, Step, ComparisonCode, EmitComparison, Holds;
    match e
    case Leaf(c) =>
      ComparisonRuns(p, q, c, row, m);
    case Neg(x) =>
      PostfixRuns(x, p, q, row, m);
      RunAppend(q, row, Code(x, p), [Instruction(NotOp, 0)], m);
      OpRuns(q, row, m, Meaning(x, row), false);
    case Both(l, r) =>
      OperandsRun(l, r, p, q, row, m, Instruction(AndOp, 0));
      OpRuns(q, row, m, Meaning(l, row), Meaning(r, row));
    case Either(l, r) =>
      OperandsRun(l, r, p, q, row, m, Instruction(OrOp, 0));
      OpRuns(q, row, m, Meaning(l, row), Meaning(r, row));
  }

  lemma {:induction false} OperandsRun(l: Expr, r: Expr, p: Program, q: Program, row: seq<int>, m: Machine,
                                       op: Instruction)
    requires Within(Emit(r, Emit(l, p)), q) && Addressable(p, Leaves(l) + Leaves(r)) && Calm(m)
    requires ColumnsBelow(l, |row|) && ColumnsBelow(r, |row|)
    ensures Run(q, row, Code(l, p) + (Code(r, Emit(l, p)) + [op]), m)
         == Run(q, row, [op], Pushed(Pushed(m, Meaning(l, row)), Meaning(r, row)))
    decreases Nodes(l) + Nodes(r), 1
  {
    hide Run, Step, ComparisonCode, EmitComparison, Holds, Emit, Code;
    var mid := Emit(l, p);
    EmitShape(l, p);
    EmitShape(r, mid);
    PostfixRuns(l, p, q, row, m);
    var m1 := Pushed(m, Meaning(l, row));
    PostfixRuns(r, mid, q, row, m1);
    RunAppend(q, row, Code(l, p), Code(r, mid) + [op], m);
    RunAppend(q, row, Code(r, mid), [op], m1);
  }

  /** Compiler correctness for trees: the interpreter answers the tree's meaning,
      from a defined run that ends with one value and no flag, with or without a
      trailing Return. */
  lemma PostfixCorrect(e: Expr, row: seq<int>)
    requires Leaves(e) <= TWO_32 && ColumnsBelow(e, |row|)
    ensures var p := Emit(e, EMPTY);
            && Run(p, row, p.instructions, START) == Running(Machine([Truth(Meaning(e, row))], false, false))
            && Defined(p, row) && Eval(p, row) == Meaning(e, row)
            && Defined(EmitOp(p, Return), row) && Eval(EmitOp(p, Return), row) == Meaning(e, row)
  {
    hide Run, Step, Emit, Code;
    var p := Emit(e, EMPTY);
    var p' := EmitOp(p, Return);
    EmitShape(e, EMPTY);
    assert p.instructions == Code(e, EMPTY);
    PostfixRuns(e, EMPTY, p, row, START);
    PostfixRuns(e, EMPTY, p', row, START);
    var m := Pushed(START, Meaning(e, row));
    RunAppend(p', row, p.instructions, [Instruction(Return, 0)], START);
    RunOne(p', row, Instruction(Return, 0), m);
    ReturnStep(p', row, Instruction(Return, 0), m);
  }

  /** Halfway through a tree's code nothing has been deferred either: every
      prefix of the code runs, with both flags down. */
  ghost predicate CalmAt(q: Program, row: seq<int>, code: seq<Instruction>, m: Machine, k: nat)
    requires k <= |code|
  {
    var o := Run(q, row, code[..k], m); o.Running? && Calm(o.m) && m.stack <= o.m.stack
  }

  lemma CalmSplit(q: Program, row: seq<int>, a: seq<Instruction>, b: seq<Instruction>, m: Machine, m1: Machine, k: nat)
    requires k <= |a + b| && Run(q, row, a, m) == Running(m1) && m.stack <= m1.stack
    requires k <= |a| ==> CalmAt(q, row, a, m, k)
    requires k > |a| ==> CalmAt(q, row, b, m1, k - |a|)
    ensures CalmAt(q, row, a + b, m, k)
  {
    hide Run, Step;
    if k <= |a| {
      assert (a + b)[..k] == a[..k];
    } else {
      assert (a + b)[..k] == a + b[..k - |a|];
      RunAppend(q, row, a, b[..k - |a|], m);
    }
  }

  lemma LeafCalm(c: Comparison, p: Program, q: Program, row: seq<int>, m: Machine, k: nat)
    requires Within(EmitComparison(p, c), q) && Addressable(p, 1) && c.column < |row| && Calm(m) && k <= 3
    ensures CalmAt(q, row, ComparisonCode(p, c), m, k)
  {
    hide Run;
    var code := ComparisonCode(p, c);
    var e := EmitComparison(p, c);
    assert e.columnIndices[|p.columnIndices|] == c.column && e.constants[|p.constants|] == c.value;
    if k == 0 {
      NothingRuns(q, row, m);
    } else if k <= 2 {
      assert code[..1] == [code[0]] && code[..2] == [code[0]] + [code[1]];
      var m1 := m.(stack := m.stack + [row[c.column]]);
      RunOne(q, row, code[0], m);
      RunOne(q, row, code[1], m1);
      RunAppend(q, row, [code[0]], [code[1]], m);
    } else {
      ComparisonRuns(p, q, c, row, m);
      assert code[..3] == code;
    }
  }

  lemma NothingRuns(q: Program, row: seq<int>, m: Machine)
    ensures Run(q, row, [], m) == Running(m)
  {
  }

  /** At no point inside a tree's code is an operator deferred or the stack below
      the tree's own operands touched. */
  lemma {:induction false} NeverDefers(e: Expr, p: Program, q: Program, row: seq<int>, m: Machine, k: nat)
    requires Within(Emit(e, p), q) && Addressable(p, Leaves(e)) && ColumnsBelow(e, |row|) && Calm(m)
    requires k <= |Code(e, p)|
    ensures CalmAt(q, row, Code(e, p), m, k)
    decreases Nodes(e), 0
  {
    hide Run, Step, Holds, ComparisonCode, EmitComparison;
    match e
    case Leaf(c) =>
      assert |ComparisonCode(p, c)| == 3 by { CodeLength(p, c); }
      LeafCalm(c, p, q, row, m, k);
    case Neg(x) =>
      var op := Instruction(NotOp, 0);
      PostfixRuns(x, p, q, row, m);
      var m1 := Pushed(m, Meaning(x, row));
      OpRuns(q, row, m, Meaning(x, row), false);
      if k <= |Code(x, p)| { NeverDefers(x, p, q, row, m, k); }
      TailCalm(q, row, Code(x, p), op, m, m1, Pushed(m, !Meaning(x, row)), k);
    case Both(l, r) =>
      OpRuns(q, row, m, Meaning(l, row), Meaning(r, row));
      OperandsCalm(l, r, p, q, row, m, Instruction(AndOp, 0), Pushed(m, Meaning(l, row) && Meaning(r, row)), k);
    case Either(l, r) =>
      OpRuns(q, row, m, Meaning(l, row), Meaning(r, row));
      OperandsCalm(l, r, p, q, row, m, Instruction(OrOp, 0), Pushed(m, Meaning(l, row) || Meaning(r, row)), k);
  }

  lemma CodeLength(p: Program, c: Comparison)
    ensures |ComparisonCode(p, c)| == 3
  {
  }

  /** Operand code followed by one operator that leaves m's stack below it. */
  lemma TailCalm(q: Program, row: seq<int>, a: seq<Instruction>, op: Instruction, m: Machine, m1: Machine,
                 r: Machine, k: nat)
    requires k <= |a| + 1 && Run(q, row, a, m) == Running(m1) && Run(q, row, [op], m1) == Running(r)
    requires Calm(m1) && Calm(r) && m.stack <= m1.stack && m.stack <= r.stack
    requires k <= |a| ==> CalmAt(q, row, a, m, k)
    ensures CalmAt(q, row, a + [op], m, k)
  {
    hide Run, Step;
    if k <= |a| {
      assert (a + [op])[..k] == a[..k];
    } else {
      assert (a + [op])[..k] == a + [op];
      RunAppend(q, row, a, [op], m);
    }
  }

  lemma {:induction false} OperandsCalm(l: Expr, r: Expr, p: Program, q: Program, row: seq<int>, m: Machine,
                                        op: Instruction, done: Machine, k: nat)
    requires Within(Emit(r, Emit(l, p)), q) && Addressable(p, Leaves(l) + Leaves(r)) && Calm(m)
    requires ColumnsBelow(l, |row|) && ColumnsBelow(r, |row|)
    requires Run(q, row, [op], Pushed(Pushed(m, Meaning(l, row)), Meaning(r, row))) == Running(done)
    requires Calm(done) && m.stack <= done.stack
    requires k <= |Code(l, p) + (Code(r, Emit(l, p)) + [op])|
    ensures CalmAt(q, row, Code(l, p) + (Code(r, Emit(l, p)) + [op]), m, k)
    decreases Nodes(l) + Nodes(r), 1
  {
    hide Run, Step, Holds, ComparisonCode, EmitComparison, Emit, Code;
    var mid := Emit(l, p);
    var a, b := Code(l, p), Code(r, mid);
    EmitShape(l, p);
    EmitShape(r, mid);
    PostfixRuns(l, p, q, row, m);
    var m1 := Pushed(m, Meaning(l, row));
    PostfixRuns(r, mid, q, row, m1);
    var m2 := Pushed(m1, Meaning(r, row));
    assert a + (b + [op]) == (a + b) + [op];
    RunAppend(q, row, a, b, m);
    if k <= |a| {
      NeverDefers(l, p, q, row, m, k);
    } else if k <= |a + b| {
      NeverDefers(r, mid, q, row, m1, k - |a|);
    }
    if k <= |a + b| { CalmSplit(q, row, a, b, m, m1, k); }
    TailCalm(q, row, a + b, op, m, m2, done, k);
  }
}
