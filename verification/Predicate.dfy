// Predicate bytecode: program emission, the builder, and the stack interpreter
// with its deferred And/Or (include/columnar/predicate.h).
module Predicate {
  import opened Types
  import Bits
  import Packing

  datatype OpCode =
    | Nop | LoadConst | LoadColumn | CompareOp(cmp: CmpOp)
    | TestNull | TestNotNull | AndOp | OrOp | NotOp
    | BranchIfFalse | BranchIfTrue | Return
    | LoadMask | AndMask | OrMask | NotMask | PopCount | SetResult

  datatype Instruction = Instruction(op: OpCode, a: nat)

  datatype Program = Program(instructions: seq<Instruction>, constants: seq<int>, columnIndices: seq<nat>)

  const EMPTY := Program([], [], [])

  // ---- one instruction

  /** The evaluation stack (top last) and the two deferred-operator flags. */
  datatype Machine = Machine(stack: seq<int>, pendingAnd: bool, pendingOr: bool)

  const START := Machine([], false, false)

  /** Undefined stands for popping an empty stack or indexing past a table. */
  datatype Outcome = Running(m: Machine) | Returned(result: bool) | Undefined

  function Truth(b: bool): int { if b then 1 else 0 }

  function Top(s: seq<int>): int requires |s| >= 1 { s[|s| - 1] }
  function Under(s: seq<int>): int requires |s| >= 2 { s[|s| - 2] }

  /** Replace the two top values by one. */
  function Fold2(s: seq<int>, v: int): seq<int> requires |s| >= 2 { s[..|s| - 2] + [v] }

  function FoldAnd(m: Machine): Machine {
    if m.pendingAnd && |m.stack| >= 2
    then Machine(Fold2(m.stack, Truth(Under(m.stack) != 0 && Top(m.stack) != 0)), false, m.pendingOr)
    else m
  }

  function FoldOr(m: Machine): Machine {
    if m.pendingOr && |m.stack| >= 2
    then Machine(Fold2(m.stack, Truth(Under(m.stack) != 0 || Top(m.stack) != 0)), m.pendingAnd, false)
    else m
  }

  function FoldPending(m: Machine): Machine { FoldOr(FoldAnd(m)) }

  /** The bitwise operators of AndMask and OrMask, on 64-bit two's complement */
  function Bitwise(a: int, b: int, isAnd: bool): int {
    var x, y := Unsigned(Int64, Wrap(Int64, a)), Unsigned(Int64, Wrap(Int64, b));
    Wrap(Int64, if isAnd then Bits.And(x, y) else Bits.Or(x, y))
  }

  function Load(p: Program, row: seq<int>, a: nat, m: Machine): Outcome {
    if a < |p.columnIndices| && p.columnIndices[a] < |row|
    then Running(m.(stack := m.stack + [row[p.columnIndices[a]]]))
    else Undefined
  }

  function Unary(m: Machine, v: bool): Machine
    requires |m.stack| >= 1
  {
    m.(stack := m.stack[..|m.stack| - 1] + [Truth(v)])
  }

  function Step(p: Program, row: seq<int>, i: Instruction, m: Machine): Outcome {
    var s := m.stack;
    match i.op
    case LoadColumn => Load(p, row, i.a, m)
    case LoadMask => Load(p, row, i.a, m)
    case LoadConst => if i.a < |p.constants| then Running(m.(stack := s + [p.constants[i.a]])) else Undefined
    case CompareOp(cmp) =>
      if |s| < 2 then Undefined
      else Running(FoldPending(m.(stack := Fold2(s, Truth(Compare(cmp, Under(s), Top(s)))))))
    case TestNull => if |s| < 1 then Undefined else Running(Unary(m, Top(s) == 0))
    case TestNotNull => if |s| < 1 then Undefined else Running(Unary(m, Top(s) != 0))
    case AndOp =>
      if |s| >= 2 then Running(m.(stack := Fold2(s, Truth(Under(s) != 0 && Top(s) != 0))))
      else Running(m.(pendingAnd := true))
    case OrOp =>
      if |s| >= 2 then Running(m.(stack := Fold2(s, Truth(Under(s) != 0 || Top(s) != 0))))
      else Running(m.(pendingOr := true))
    case NotOp => if |s| < 1 then Undefined else Running(Unary(m, Top(s) == 0))
    case Return => if |s| < 1 then Undefined else Returned(Top(s) != 0)
    case AndMask => if |s| < 2 then Undefined else Running(m.(stack := Fold2(s, Bitwise(Under(s), Top(s), true))))
    case OrMask => if |s| < 2 then Undefined else Running(m.(stack := Fold2(s, Bitwise(Under(s), Top(s), false))))
    case BranchIfFalse => if |s| < 1 then Undefined else Running(m.(stack := s[..|s| - 1]))
    case _ => Running(m)
  }

  /** The bit operators work bit by bit, and on truth values as the connectives. */
  lemma BitwiseBits(a: int, b: int, isAnd: bool, k: nat)
    requires IsInt64(a) && IsInt64(b)
    ensures var x, y := Unsigned(Int64, a), Unsigned(Int64, b);
            Bits.Bit(Unsigned(Int64, Bitwise(a, b, isAnd)), k)
            == if isAnd then Bits.Bit(x, k) && Bits.Bit(y, k) else Bits.Bit(x, k) || Bits.Bit(y, k)
  {
    hide Bits.Pow2, Bits.And, Bits.Or, Bits.Bit;
    var x, y := Unsigned(Int64, a), Unsigned(Int64, b);
    Bits.BitAnd(x, y, k);
    Bits.BitOr(x, y, k);
    Packing.Pow2Sizes();
    Bits.OrBound(x, y, 64);
    Bits.AndAtMost(x, y);
  }

  lemma MaskSteps(p: Program, row: seq<int>, i: Instruction, m: Machine, rest: seq<int>, x: bool, y: bool)
    requires m.stack == rest + [Truth(x), Truth(y)]
    ensures i.op == AndMask ==> Step(p, row, i, m) == Running(m.(stack := rest + [Truth(x && y)]))
    ensures i.op == OrMask ==> Step(p, row, i, m) == Running(m.(stack := rest + [Truth(x || y)]))
    ensures i.op == BranchIfFalse ==> Step(p, row, i, m) == Running(m.(stack := rest + [Truth(x)]))
  {
  }

  function Run(p: Program, row: seq<int>, code: seq<Instruction>, m: Machine): Outcome
    decreases |code|
  {
    if code == [] then Running(m)
    else
      var o := Step(p, row, code[0], m);
      if o.Running? then Run(p, row, code[1..], o.m) else o
  }

  /** What a finished run answers: the returned value, or the top of the stack. */
  function Answer(o: Outcome): bool {
    match o
    case Running(m) => |m.stack| > 0 && Top(m.stack) != 0
    case Returned(b) => b
    case Undefined => false
  }

  /** The interpreter's verdict on a row. */
  function Eval(p: Program, row: seq<int>): bool { Answer(Run(p, row, p.instructions, START)) }

  /** No instruction pops an empty stack or indexes past a table. */
  predicate Defined(p: Program, row: seq<int>) { !Run(p, row, p.instructions, START).Undefined? }

  lemma {:induction false} RunAppend(p: Program, row: seq<int>, a: seq<Instruction>, b: seq<Instruction>, m: Machine)
    ensures Run(p, row, a + b, m)
         == var o := Run(p, row, a, m); if o.Running? then Run(p, row, b, o.m) else o
    decreases |a|
  {
    if a == [] {
      assert a + b == b;
    } else {
      hide Step;
      assert (a + b)[1..] == a[1..] + b;
      var o := Step(p, row, a[0], m);
      if o.Running? { RunAppend(p, row, a[1..], b, o.m); }
    }
  }

  lemma RunOne(p: Program, row: seq<int>, i: Instruction, m: Machine)
    ensures Run(p, row, [i], m) == Step(p, row, i, m)
  {
    hide Step;
    var o := Step(p, row, i, m);
    assert [i][1..] == [];
    if o.Running? { assert Run(p, row, [], o.m) == o; }
  }

  // ---- the interpreter

  class BytecodeInterpreter {
    const program: Program
    var stack: seq<int>
    var pendingAnd: bool
    var pendingOr: bool

    constructor (p: Program)
      ensures program == p
    {
      program := p;
      stack, pendingAnd, pendingOr := [], false, false;
    }

    function State(): Machine reads this { Machine(stack, pendingAnd, pendingOr) }

    method Pop() returns (v: int)
      requires |stack| >= 1
      modifies this`stack
      ensures v == Top(old(stack)) && stack == old(stack)[..|old(stack)| - 1]
    {
      v := stack[|stack| - 1];
      stack := stack[..|stack| - 1];
    }

    method Pop2() returns (a: int, b: int)
      requires |stack| >= 2
      modifies this`stack
      ensures a == Under(old(stack)) && b == Top(old(stack)) && stack == old(stack)[..|old(stack)| - 2]
    {
      b := Pop();
      a := Pop();
    }

    method FoldPendingAnd()
      modifies this
      ensures State() == FoldAnd(old(State()))
    {
      if pendingAnd && |stack| >= 2 {
        pendingAnd := false;
        var a, b := Pop2();
        stack := stack + [Truth(a != 0 && b != 0)];
      }
    }

    method FoldPendingOr()
      modifies this
      ensures State() == FoldOr(old(State()))
    {
      if pendingOr && |stack| >= 2 {
        pendingOr := false;
        var a, b := Pop2();
        stack := stack + [Truth(a != 0 || b != 0)];
      }
    }

    /** One turn of the switch, other than Return. */
    method Execute(row: seq<int>, i: Instruction)
      requires Step(program, row, i, State()).Running?
      modifies this
      ensures State() == Step(program, row, i, old(State())).m
    {
      hide FoldAnd, FoldOr, Compare, Bitwise;
      match i.op {
        case LoadColumn => stack := stack + [row[program.columnIndices[i.a]]];
        case LoadMask => stack := stack + [row[program.columnIndices[i.a]]];
        case LoadConst => stack := stack + [program.constants[i.a]];
        case CompareOp(cmp) =>
          var a, b := Pop2();
          stack := stack + [Truth(Compare(cmp, a, b))];
          FoldPendingAnd();
          FoldPendingOr();
        case TestNull => var a := Pop(); stack := stack + [Truth(a == 0)];
        case TestNotNull => var a := Pop(); stack := stack + [Truth(a != 0)];
        case AndOp =>
          if |stack| >= 2 {
            var a, b := Pop2();
            stack := stack + [Truth(a != 0 && b != 0)];
          } else {
            pendingAnd := true;
          }
        case OrOp =>
          if |stack| >= 2 {
            var a, b := Pop2();
            stack := stack + [Truth(a != 0 || b != 0)];
          } else {
            pendingOr := true;
          }
        case NotOp => var a := Pop(); stack := stack + [Truth(a == 0)];
        case AndMask => var a, b := Pop2(); stack := stack + [Bitwise(a, b, true)];
        case OrMask => var a, b := Pop2(); stack := stack + [Bitwise(a, b, false)];
        case BranchIfFalse => var a := Pop();
        case _ =>
      }
    }

    /** Evaluate the program for one row, from a cleared machine. */
    method EvaluateRow(row: seq<int>) returns (result: bool)
      requires Defined(program, row)
      modifies this
      ensures result == Eval(program, row)
    {
      hide Step;
      stack, pendingAnd, pendingOr := [], false, false;
      var pc := 0;
      ghost var whole := Run(program, row, program.instructions, START);
      while pc < |program.instructions|
        invariant 0 <= pc <= |program.instructions|
        invariant Run(program, row, program.instructions[pc..], State()) == whole
      {
        var i := program.instructions[pc];
        assert program.instructions[pc..][0] == i && program.instructions[pc..][1..] == program.instructions[pc + 1..];
        if i.op == Return {
          ReturnStep(program, row, i, State());
          result := Top(stack) != 0;
          return;
        }
        OnlyReturnReturns(program, row, i, State());
        Execute(row, i);
        pc := pc + 1;
      }
      result := |stack| > 0 && Top(stack) != 0;
    }
  }

  lemma ReturnStep(p: Program, row: seq<int>, i: Instruction, m: Machine)
    requires i.op == Return
    ensures Step(p, row, i, m) == if |m.stack| < 1 then Undefined else Returned(Top(m.stack) != 0)
  {
  }

  lemma OnlyReturnReturns(p: Program, row: seq<int>, i: Instruction, m: Machine)
    requires i.op != Return
    ensures !Step(p, row, i, m).Returned?
  {
  }

  // ---- emission

  datatype Comparison = Comparison(op: CmpOp, column: nat, value: int)

  predicate Holds(c: Comparison, row: seq<int>) {
    c.column < |row| && Compare(c.op, row[c.column], c.value)
  }

  /** Operand fields are 32 bits wide. */
  function Operand(index: nat): nat { index % TWO_32 }

  function EmitOp(p: Program, op: OpCode): Program {
    p.(instructions := p.instructions + [Instruction(op, 0)])
  }

  function ComparisonCode(p: Program, c: Comparison): seq<Instruction> {
    [Instruction(LoadColumn, Operand(|p.columnIndices|)),
     Instruction(LoadConst, Operand(|p.constants|)),
     Instruction(CompareOp(c.op), 0)]
  }

  function EmitComparison(p: Program, c: Comparison): Program {
    Program(p.instructions + ComparisonCode(p, c), p.constants + [c.value], p.columnIndices + [c.column])
  }

  /** p's tables are prefixes of q's, so p's operands mean the same in q. */
  predicate Within(p: Program, q: Program) {
    p.constants <= q.constants && p.columnIndices <= q.columnIndices
  }

  /** The three instructions of a comparison push its truth value and then let a
      deferred operator fold it in. */
  lemma ComparisonRuns(p: Program, q: Program, c: Comparison, row: seq<int>, m: Machine)
    requires Within(EmitComparison(p, c), q) && c.column < |row|
    requires |p.constants| < TWO_32 && |p.columnIndices| < TWO_32
    ensures Run(q, row, ComparisonCode(p, c), m)
         == Running(FoldPending(m.(stack := m.stack + [Truth(Holds(c, row))])))
  {
    hide Run, FoldPending;
    var code := ComparisonCode(p, c);
    var e := EmitComparison(p, c);
    assert e.columnIndices[|p.columnIndices|] == c.column && e.constants[|p.constants|] == c.value;
    var x := row[c.column];
    var m1, m2 := m.(stack := m.stack + [x]), m.(stack := m.stack + [x] + [c.value]);
    RunAppend(q, row, [code[0]], [code[1]] + [code[2]], m);
    RunAppend(q, row, [code[1]], [code[2]], m1);
    assert code == [code[0]] + ([code[1]] + [code[2]]);
    RunOne(q, row, code[0], m);
    RunOne(q, row, code[1], m1);
    RunOne(q, row, code[2], m2);
    assert Fold2(m2.stack, Truth(Holds(c, row))) == m.stack + [Truth(Holds(c, row))];
  }
}
