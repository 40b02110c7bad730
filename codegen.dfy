/** codegen.c: post-order generation of stack-machine code, and the proof
    that running it pushes exactly the value of the tree. */
module CodeGen {
  import opened Results
  import opened IntOps
  import opened Ast
  import opened StackMachine

  /** gen_lval's error: an assignment whose left side is not a variable. */
  datatype CodegenError = NotLocalVar

  /** gen_lval: push the address rbp - offset of a local variable. */
  function GenLval(n: Node): (r: Result<seq<Instr>, CodegenError>)
    ensures r.Success? <==> n.LVar?
  {
    if !n.LVar? then Failure(NotLocalVar)
    else Success([MovRaxRbp, SubRaxImm(n.offset), PushRax])
  }

  /** The instructions between `pop rax` and `push rax` for each operator:
      they combine rax (left) and rdi (right) into rax. */
  function OpCode(op: BinOp): (r: seq<Instr>)
    ensures |r| >= 1 && forall k :: 0 <= k < |r| ==> RegistersOnly(r[k])
  {
    match op
    case Add => [AddRaxRdi]
    case Sub => [SubRaxRdi]
    case Mul => [ImulRaxRdi]
    case Div => [Cqo, IdivRdi]
    case Lt => [CmpRaxRdi, SetL, MovzbRaxAl]
    case Lte => [CmpRaxRdi, SetLE, MovzbRaxAl]
    case Eq => [CmpRaxRdi, SetE, MovzbRaxAl]
    case Neq => [CmpRaxRdi, SetNE, MovzbRaxAl]
  }

  /** What follows the code of both operands of a binary node: it pops the
      right value into rdi, then the left into rax, combines them without
      touching stack or memory, and pushes rax. */
  function Epilogue(op: BinOp): (r: seq<Instr>)
    ensures |r| >= 4 && r[0] == PopRdi && r[1] == PopRax && r[|r| - 1] == PushRax
    ensures forall k :: 2 <= k < |r| - 1 ==> RegistersOnly(r[k])
  {
    [PopRdi, PopRax] + OpCode(op) + [PushRax]
  }

  /** gen: the code for n, or the error gen_lval reports for the first
      assignment (in emission order) whose target is not a variable. */
  function Gen(n: Node): (r: Result<seq<Instr>, CodegenError>)
    ensures r.Success? <==> AssignTargetsOk(n)
  {
    match n
    case Num(v) => Success([Push(v)])
    case LVar(_) =>
      var lv := GenLval(n);
      Success(lv.value + [PopRax, Load, PushRax])
    case Assign(l, r) =>
      (match GenLval(l)
       case Failure(e) => Failure(e)
       case Success(lc) =>
         match Gen(r)
         case Failure(e) => Failure(e)
         case Success(rc) => Success(lc + rc + [PopRdi, PopRax, Store, PushRdi]))
    case Binary(op, l, r) =>
      match Gen(l)
      case Failure(e) => Failure(e)
      case Success(lc) =>
        match Gen(r)
        case Failure(e) => Failure(e)
        case Success(rc) => Success(lc + rc + Epilogue(op))
  }

  function FaultOf(e: EvalError): Fault {
    match e
    case DivisionByZero => DivideByZero
    case Unmapped(a) => BadAddress(a)
  }

  /** m' is m with v pushed and memory mem: the frame pointer and everything
      below the new top are as before. */
  predicate Pushed(m: Machine, m': Machine, v: int, mem: map<int, int>) {
    m'.stack == m.stack + [v] && m'.mem == mem && m'.rbp == m.rbp
  }

  /** What running the code of a tree must do: fault exactly as its
      evaluation fails, or push its value and leave the memory its
      evaluation leaves. */
  predicate Simulates(ev: Result<(int, map<int, int>), EvalError>, run: Result<Machine, Fault>, m: Machine) {
    match ev
    case Failure(e) => run == Failure(FaultOf(e))
    case Success((v, mem)) => run.Success? && Pushed(m, run.value, v, mem)
  }

  /** gen_lval's code pushes the variable's address rbp - offset, leaving
      it in rax too, and changes nothing else. */
  lemma GenLvalPushesAddress(n: Node, m: Machine, floor: nat)
    requires n.LVar?
    ensures Run(GenLval(n).value, m, floor)
         == Success(m.(rax := m.rbp - n.offset, stack := m.stack + [m.rbp - n.offset]))
  {
    var m1 := m.(rax := m.rbp);
    var m2 := m1.(rax := m1.rax - n.offset);
    var m3 := m2.(stack := m2.stack + [m2.rax]);
    assert Run([PushRax], m2, floor) == Success(m3);
    assert Run([SubRaxImm(n.offset), PushRax], m1, floor) == Success(m3);
  }

  /** With the left value below the right one on the stack (stack ... a b),
      the epilogue pops b into rdi and a into rax, so the operator computes a op b; it pushes that
      value, or faults as the operator's evaluation fails. */
  lemma {:induction false} EpilogueComputes(op: BinOp, m: Machine, floor: nat, s: seq<int>, a: int, b: int)
    requires m.stack == s + [a, b] && floor <= |s|
    ensures Simulates(match Apply(op, a, b)
                      case Failure(e) => Failure(e)
                      case Success(c) => Success((c, m.mem)),
                      Run(Epilogue(op), m, floor), m.(stack := s))
  {
    assert (s + [a, b])[..|s| + 1] == s + [a];
    assert (s + [a])[..|s|] == s;
    var m2 := m.(stack := s, rdi := b, rax := a);
    assert Run([PopRdi, PopRax], m, floor) == Success(m2) by {
      assert Step(PopRdi, m, floor) == Success(m.(stack := s + [a], rdi := b));
    }
    RunAppend([PopRdi, PopRax], OpCode(op) + [PushRax], m, floor);
    assert Epilogue(op) == [PopRdi, PopRax] + (OpCode(op) + [PushRax]);
    RunAppend(OpCode(op), [PushRax], m2, floor);
    OpCodeComputes(op, m2, floor);
  }

  /** What the instructions of an operator must do from m: fault as the
      operator's evaluation c fails, or leave c's value in rax with the
      stack, memory and frame pointer untouched. */
  predicate Combines(c: Result<int, EvalError>, r: Result<Machine, Fault>, m: Machine) {
    match c
    case Failure(e) => r == Failure(FaultOf(e))
    case Success(v) =>
      r.Success? && r.value.rax == v && r.value.stack == m.stack
      && r.value.mem == m.mem && r.value.rbp == m.rbp
  }

  /** The operator's instructions leave a op b in rax (a in rax, b in rdi),
      or fault on a zero divisor, touching neither stack nor memory. */
  lemma OpCodeComputes(op: BinOp, m: Machine, floor: nat)
    ensures Combines(Apply(op, m.rax, m.rdi), Run(OpCode(op), m, floor), m)
  {
    match op
    case Add =>
    case Sub =>
    case Mul =>
    case Div => DivCodeComputes(m, floor);
    case Lt => CompareCodeComputes(Lt, SetL, m, floor);
    case Lte => CompareCodeComputes(Lte, SetLE, m, floor);
    case Eq => CompareCodeComputes(Eq, SetE, m, floor);
    case Neq => CompareCodeComputes(Neq, SetNE, m, floor);
  }

  /** cqo; idiv rdi: the quotient rounded toward zero, or a fault on a zero
      divisor. */
  lemma DivCodeComputes(m: Machine, floor: nat)
    ensures Combines(Apply(Div, m.rax, m.rdi), Run([Cqo, IdivRdi], m, floor), m)
  {
    if m.rdi != 0 {
      var m1 := m.(rdx := SignOf(m.rax));
      assert Run([IdivRdi], m1, floor).value.rax == TruncDiv(m.rax, m.rdi);
    }
  }

  /** cmp rax, rdi; the operator's set*; movzb rax, al: the comparison's bit. */
  lemma CompareCodeComputes(op: BinOp, test: Instr, m: Machine, floor: nat)
    requires (op, test) in {(Lt, SetL), (Lte, SetLE), (Eq, SetE), (Neq, SetNE)}
    ensures Combines(Apply(op, m.rax, m.rdi), Run([CmpRaxRdi, test, MovzbRaxAl], m, floor), m)
  {
    CompareThenTest(op, test, m, floor);
  }

  /** cmp rax, rdi, then the set* of a comparison, then movzb rax, al leave
      1 in rax when rax compares to rdi as the operator says and 0
      otherwise, with stack, memory and frame pointer untouched. */
  lemma CompareThenTest(op: BinOp, test: Instr, m: Machine, floor: nat)
    requires (op, test) in {(Lt, SetL), (Lte, SetLE), (Eq, SetE), (Neq, SetNE)}
    ensures var r := Run([CmpRaxRdi, test, MovzbRaxAl], m, floor);
            && r.Success?
            && r.value.rax == (match op
                               case Lt => Bit(m.rax < m.rdi)
                               case Lte => Bit(m.rax <= m.rdi)
                               case Eq => Bit(m.rax == m.rdi)
                               case _ => Bit(m.rax != m.rdi))
            && r.value.stack == m.stack && r.value.mem == m.mem && r.value.rbp == m.rbp
  {
    var m1 := m.(flags := Flags(m.rax, m.rdi));
    var b := Apply(op, m.rax, m.rdi).value;
    if op == Lt {
      LowByteOfSet(m.rax, Bit(m.rax < m.rdi));
    } else if op == Lte {
      LowByteOfSet(m.rax, Bit(m.rax <= m.rdi));
    } else if op == Eq {
      LowByteOfSet(m.rax, Bit(m.rax == m.rdi));
    } else {
      LowByteOfSet(m.rax, Bit(m.rax != m.rdi));
    }
    var m2 := m1.(rax := SetLowByte(m.rax, b));
    assert Step(test, m1, floor) == Success(m2);
    assert Run([MovzbRaxAl], m2, floor) == Success(m2.(rax := b));
    assert Run([test, MovzbRaxAl], m1, floor) == Success(m2.(rax := b));
  }

  /** Code generation is correct: from any machine whose stack holds at
      least `floor` values, the code of n never pops below the floor, and it
      either pushes exactly the value of n (evaluated with the variables of
      the frame at rbp) leaving the memory as the evaluation leaves it, or
      faults exactly where the evaluation fails. */
  lemma {:induction false} GenCorrect(n: Node, m: Machine, floor: nat)
    requires AssignTargetsOk(n) && floor <= |m.stack|
    ensures Simulates(Eval(n, m.rbp, m.mem), Run(Gen(n).value, m, floor), m)
    decreases n
  {
    match n
    case Num(v) =>
    case LVar(o) =>
      GenLvalPushesAddress(n, m, floor);
      RunAppend(GenLval(n).value, [PopRax, Load, PushRax], m, floor);
      assert (m.stack + [m.rbp - o])[..|m.stack|] == m.stack;
    case Assign(l, r) =>
      GenAssignCorrect(l, r, m, floor);
    case Binary(op, l, r) =>
      GenBinaryCorrect(op, l, r, m, floor);
  }

  /** With the address below the value on the stack (stack ... addr v), the
      tail of an assignment stores v at addr and leaves v in place of both. */
  lemma StoreTail(m: Machine, floor: nat, s: seq<int>, addr: int, v: int)
    requires m.stack == s + [addr, v] && floor <= |s|
    ensures var r := Run([PopRdi, PopRax, Store, PushRdi], m, floor);
            r.Success? && r.value.stack == s + [v] && r.value.mem == m.mem[addr := v]
            && r.value.rbp == m.rbp
  {
    assert (s + [addr, v])[..|s| + 1] == s + [addr];
    assert (s + [addr])[..|s|] == s;
    var m1 := m.(stack := s + [addr], rdi := v);
    var m2 := m1.(stack := s, rax := addr);
    var m3 := m2.(mem := m.mem[addr := v]);
    assert Run([PushRdi], m3, floor) == Success(m3.(stack := s + [v]));
    assert Run([Store, PushRdi], m2, floor) == Success(m3.(stack := s + [v]));
    assert Step(PopRdi, m, floor) == Success(m1);
  }

  lemma AssignCode(l: Node, r: Node)
    requires AssignTargetsOk(Assign(l, r))
    ensures Gen(Assign(l, r)).value == GenLval(l).value + (Gen(r).value + [PopRdi, PopRax, Store, PushRdi])
  {
    var lc, rc := GenLval(l).value, Gen(r).value;
    assert lc + rc + [PopRdi, PopRax, Store, PushRdi] == lc + (rc + [PopRdi, PopRax, Store, PushRdi]);
  }

  /** The address push of an assignment, followed by any code. */
  lemma LvalThen(l: Node, rest: seq<Instr>, m: Machine, floor: nat)
    requires l.LVar?
    ensures Run(GenLval(l).value + rest, m, floor)
         == Run(rest, m.(rax := m.rbp - l.offset, stack := m.stack + [m.rbp - l.offset]), floor)
  {
    GenLvalPushesAddress(l, m, floor);
    RunAppend(GenLval(l).value, rest, m, floor);
  }

  lemma {:induction false} GenAssignCorrect(l: Node, r: Node, m: Machine, floor: nat)
    requires AssignTargetsOk(Assign(l, r)) && floor <= |m.stack|
    ensures Simulates(Eval(Assign(l, r), m.rbp, m.mem), Run(Gen(Assign(l, r)).value, m, floor), m)
    decreases Assign(l, r), 0
  {
    var rc, tail := Gen(r).value, [PopRdi, PopRax, Store, PushRdi];
    var addr := m.rbp - l.offset;
    var m1 := m.(rax := addr, stack := m.stack + [addr]);
    var run := Run(rc, m1, floor);
    calc {
      Run(Gen(Assign(l, r)).value, m, floor);
    == { AssignCode(l, r); }
      Run(GenLval(l).value + (rc + tail), m, floor);
    == { LvalThen(l, rc + tail, m, floor); }
      Run(rc + tail, m1, floor);
    == { RunAppend(rc, tail, m1, floor); }
      Then(run, tail, floor);
    }
    assert Simulates(Eval(r, m.rbp, m.mem), run, m1) by {
      GenCorrect(r, m1, floor);
    }
    AssignFinish(l, r, m, m1, floor, run);
  }

  /** The last step of GenAssignCorrect: how the value's code ended decides
      the assignment's outcome. */
  lemma AssignFinish(l: Node, r: Node, m: Machine, m1: Machine, floor: nat, run: Result<Machine, Fault>)
    requires AssignTargetsOk(Assign(l, r)) && floor <= |m.stack|
    requires m1.stack == m.stack + [m.rbp - l.offset] && m1.mem == m.mem && m1.rbp == m.rbp
    requires Simulates(Eval(r, m.rbp, m.mem), run, m1)
    ensures Simulates(Eval(Assign(l, r), m.rbp, m.mem), Then(run, [PopRdi, PopRax, Store, PushRdi], floor), m)
  {
    match Eval(r, m.rbp, m.mem)
    case Failure(e) =>
    case Success((v, mem1)) =>
      StoreTail(run.value, floor, m.stack, m.rbp - l.offset, v);
  }

  lemma {:induction false} GenBinaryCorrect(op: BinOp, l: Node, r: Node, m: Machine, floor: nat)
    requires AssignTargetsOk(Binary(op, l, r)) && floor <= |m.stack|
    ensures Simulates(Eval(Binary(op, l, r), m.rbp, m.mem), Run(Gen(Binary(op, l, r)).value, m, floor), m)
    decreases Binary(op, l, r), 0
  {
    var lc, rc := Gen(l).value, Gen(r).value;
    assert Gen(Binary(op, l, r)).value == lc + (rc + Epilogue(op));
    RunAppend(lc, rc + Epilogue(op), m, floor);
    GenCorrect(l, m, floor);
    match Eval(l, m.rbp, m.mem)
    case Failure(e) =>
    case Success((a, mem1)) =>
      var m1 := Run(lc, m, floor).value;
      RunAppend(rc, Epilogue(op), m1, floor);
      GenCorrect(r, m1, floor);
      match Eval(r, m.rbp, mem1)
      case Failure(e) =>
      case Success((b, mem2)) =>
        var m2 := Run(rc, m1, floor).value;
        assert m2.stack == m.stack + [a, b];
        EpilogueComputes(op, m2, floor, m.stack, a, b);
  }

  /** main's final `pop rax`: after the code of the whole expression, rax
      holds its value and the stack is back to where it started. */
  lemma MainLeavesResultInRax(n: Node, m: Machine)
    requires AssignTargetsOk(n)
    ensures var run := Run(Gen(n).value + [PopRax], m, |m.stack|);
            match Eval(n, m.rbp, m.mem)
            case Failure(e) => run == Failure(FaultOf(e))
            case Success((v, mem)) =>
              run.Success? && run.value.rax == v && run.value.stack == m.stack && run.value.mem == mem
  {
    var code := Gen(n).value;
    var run := Run(code, m, |m.stack|);
    assert Simulates(Eval(n, m.rbp, m.mem), run, m) by { GenCorrect(n, m, |m.stack|); }
    assert Run(code + [PopRax], m, |m.stack|) == Then(run, [PopRax], |m.stack|) by {
      RunAppend(code, [PopRax], m, |m.stack|);
    }
    match Eval(n, m.rbp, m.mem)
    case Failure(e) =>
    case Success((v, mem)) =>
      PopLeavesTop(run.value, |m.stack|, m.stack, v);
  }

  /** pop rax takes the top of the stack into rax. */
  lemma PopLeavesTop(m: Machine, floor: nat, s: seq<int>, v: int)
    requires m.stack == s + [v] && floor <= |s|
    ensures Run([PopRax], m, floor) == Success(m.(rax := v, stack := s))
  {
    assert (s + [v])[..|s|] == s;
  }
}
