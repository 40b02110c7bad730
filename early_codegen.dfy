/** gen of the earlier stage (9cc.c): the same post-order scheme for the four
    arithmetic operators and numbers. */
module EarlyCodeGen {
  import opened Results
  import opened Ast
  import opened StackMachine
  import CodeGen

  /** gen: a number is pushed; a binary node is its operands' code, then
      pop rdi, pop rax, the operator on rax and rdi, push rax. It is the
      code the final generator emits for the same tree. */
  function Gen(n: Node): (code: seq<Instr>)
    requires ArithTree(n)
    ensures CodeGen.Gen(n).Success? && CodeGen.Gen(n).value == code
  {
    if n.Num? then [Push(n.val)]
    else Gen(n.lhs) + Gen(n.rhs) + [PopRdi, PopRax] + CodeGen.OpCode(n.op) + [PushRax]
  }

  /** From any stack, the code pushes exactly the tree's value without
      popping below where it started, and leaves memory alone; its only
      possible fault is a division by zero. */
  lemma GenCorrect(n: Node, m: Machine)
    requires ArithTree(n)
    ensures var ev, run := Eval(n, m.rbp, m.mem), Run(Gen(n), m, |m.stack|);
            && (ev.Failure? ==> ev.error == DivisionByZero && run == Failure(DivideByZero))
            && (ev.Success? ==> run.Success? && run.value.stack == m.stack + [ev.value.0] && run.value.mem == m.mem)
  {
    CodeGen.GenCorrect(n, m, |m.stack|);
    ParserTreeKeepsMemory(n, m.rbp, m.mem);
    OnlyDivisionFails(n, m.rbp, m.mem);
  }

  /** A tree without variables can only fail on a zero divisor. */
  lemma {:induction false} OnlyDivisionFails(n: Node, rbp: int, mem: map<int, int>)
    requires ParserTree(n)
    ensures AssignTargetsOk(n)
    ensures Eval(n, rbp, mem).Failure? ==> Eval(n, rbp, mem).error == DivisionByZero
  {
    ParserTreeKeepsMemory(n, rbp, mem);
    if n.Binary? {
      OnlyDivisionFails(n.lhs, rbp, mem);
      ParserTreeKeepsMemory(n.lhs, rbp, mem);
      OnlyDivisionFails(n.rhs, rbp, mem);
    }
  }

  /** main's `pop rax` after gen: the value of the expression is in rax and
      the stack is back to its starting depth. */
  lemma MainLeavesResultInRax(n: Node, m: Machine)
    requires ArithTree(n)
    ensures var ev, run := Eval(n, m.rbp, m.mem), Run(Gen(n) + [PopRax], m, |m.stack|);
            && (ev.Failure? ==> run == Failure(DivideByZero))
            && (ev.Success? ==> run.Success? && run.value.rax == ev.value.0 && run.value.stack == m.stack)
  {
    CodeGen.MainLeavesResultInRax(n, m);
    OnlyDivisionFails(n, m.rbp, m.mem);
  }
}
