/** Integer operations shared by the tree semantics and the machine: signed
    division as C's `/` and x86's `idiv` perform it (the quotient is rounded
    toward zero and the remainder takes the sign of the dividend), and a
    truth value as the 1 or 0 that C and `set*`/`movzb` produce. */
module IntOps {

  function Bit(b: bool): int {
    if b then 1 else 0
  }

  function Abs(x: int): nat {
    if x < 0 then -x else x
  }

  function TruncDiv(a: int, b: int): int
    requires b != 0
  {
    if (a < 0) == (b < 0) then Abs(a) / Abs(b) else -(Abs(a) / Abs(b))
  }

  function TruncRem(a: int, b: int): int
    requires b != 0
  {
    if a < 0 then -(Abs(a) % Abs(b)) else Abs(a) % Abs(b)
  }

  /** The quotient and remainder recombine to the dividend; the remainder is
      smaller than the divisor and never has the opposite sign of the
      dividend; the quotient is never further from zero than the exact
      quotient. */
  lemma TruncDivision(a: int, b: int)
    requires b != 0
    ensures b * TruncDiv(a, b) + TruncRem(a, b) == a
    ensures Abs(TruncRem(a, b)) < Abs(b)
    ensures a >= 0 ==> TruncRem(a, b) >= 0
    ensures a <= 0 ==> TruncRem(a, b) <= 0
    ensures Abs(b * TruncDiv(a, b)) <= Abs(a)
  {
    var x, y := Abs(a), Abs(b);
    Euclid(x, y);
    var q: int, r: int := x / y, x % y;
    assert TruncDiv(a, b) == if (a < 0) == (b < 0) then q else -q;
    assert TruncRem(a, b) == if a < 0 then -r else r;
    SignedRecombine(a, b, q, r);
  }

  lemma Euclid(x: nat, y: int)
    requires y > 0
    ensures y * (x / y) + x % y == x && 0 <= x % y < y && x / y >= 0
  {
  }

  /** Recombining with the signs put back: d and m are the rounded-toward-zero
      quotient and remainder built from the magnitudes q and r. */
  lemma SignedRecombine(a: int, b: int, q: int, r: int)
    requires b != 0 && 0 <= q && Abs(b) * q + r == Abs(a) && 0 <= r < Abs(b)
    ensures var d := if (a < 0) == (b < 0) then q else -q;
            var m := if a < 0 then -r else r;
            b * d + m == a && Abs(b * d) <= Abs(a)
  {
    var y := Abs(b);
    var p := y * q;
    assert 0 <= p <= Abs(a) by {
      MulNonNegative(y, q);
    }
    MulSigns(y, q);
    if b < 0 {
      assert b == -y;
    } else {
      assert b == y;
    }
  }

  lemma MulNonNegative(y: nat, q: nat)
    ensures y * q >= 0
  {
  }

  lemma MulSigns(y: int, q: int)
    ensures (-y) * q == -(y * q) && y * (-q) == -(y * q) && (-y) * (-q) == y * q
  {
  }
}

/** The syntax tree of 9cc.h (struct Node) and what a tree means. */
module Ast {
  import opened Results
  import opened IntOps

  /** The binary node kinds ND_ADD ... ND_NEQ. */
  datatype BinOp = Add | Sub | Mul | Div | Lt | Lte | Eq | Neq

  /** A strict binary tree: ND_ADD ... ND_NEQ become Binary, ND_ASSIGN
      Assign, ND_NUM Num with its `val`, ND_LVAR LVar with its frame
      `offset`. The constructors are new_binary_node and new_num_node. */
  datatype Node =
    | Binary(op: BinOp, lhs: Node, rhs: Node)
    | Assign(lhs: Node, rhs: Node)
    | Num(val: int)
    | LVar(offset: int)

  /** The node kinds the parser builds: no ASSIGN, no LVAR. */
  predicate ParserTree(n: Node) {
    match n
    case Binary(_, l, r) => ParserTree(l) && ParserTree(r)
    case Num(_) => true
    case Assign(_, _) => false
    case LVar(_) => false
  }

  /** The node kinds of the earlier stage (9cc.c): ADD, SUB, MUL, DIV and
      NUM, a subset of what the final parser builds. */
  predicate ArithTree(n: Node)
    ensures ArithTree(n) ==> ParserTree(n) && AssignTargetsOk(n)
  {
    match n
    case Binary(op, l, r) => (op == Add || op == Sub || op == Mul || op == Div) && ArithTree(l) && ArithTree(r)
    case Num(_) => true
    case Assign(_, _) => false
    case LVar(_) => false
  }

  /** Every assignment in n stores into a local variable. */
  predicate AssignTargetsOk(n: Node) {
    match n
    case Binary(_, l, r) => AssignTargetsOk(l) && AssignTargetsOk(r)
    case Assign(l, r) => l.LVar? && AssignTargetsOk(r)
    case Num(_) => true
    case LVar(_) => true
  }

  datatype EvalError = DivisionByZero | Unmapped(addr: int)

  /** The value of `a op b`: comparisons give 1 or 0, division rounds toward
      zero and fails on a zero divisor. */
  function Apply(op: BinOp, a: int, b: int): Result<int, EvalError> {
    match op
    case Add => Success(a + b)
    case Sub => Success(a - b)
    case Mul => Success(a * b)
    case Div => if b == 0 then Failure(DivisionByZero) else Success(TruncDiv(a, b))
    case Lt => Success(Bit(a < b))
    case Lte => Success(Bit(a <= b))
    case Eq => Success(Bit(a == b))
    case Neq => Success(Bit(a != b))
  }

  /** The value of n, evaluated left operand first, over a memory in which
      the variable at frame offset o lives at address rbp - o; also the
      memory afterwards, since an assignment stores into it. */
  function Eval(n: Node, rbp: int, mem: map<int, int>): Result<(int, map<int, int>), EvalError>
    requires AssignTargetsOk(n)
  {
    match n
    case Num(v) => Success((v, mem))
    case LVar(o) =>
      if rbp - o in mem then Success((mem[rbp - o], mem)) else Failure(Unmapped(rbp - o))
    case Assign(l, r) =>
      (match Eval(r, rbp, mem)
       case Failure(e) => Failure(e)
       case Success((v, mem1)) => Success((v, mem1[rbp - l.offset := v])))
    case Binary(op, l, r) =>
      match Eval(l, rbp, mem)
      case Failure(e) => Failure(e)
      case Success((a, mem1)) =>
        match Eval(r, rbp, mem1)
        case Failure(e) => Failure(e)
        case Success((b, mem2)) =>
          match Apply(op, a, b)
          case Failure(e) => Failure(e)
          case Success(c) => Success((c, mem2))
  }

  /** The addresses the assignments in n store into. */
  function Targets(n: Node, rbp: int): set<int>
    requires AssignTargetsOk(n)
  {
    match n
    case Binary(_, l, r) => Targets(l, rbp) + Targets(r, rbp)
    case Assign(l, r) => {rbp - l.offset} + Targets(r, rbp)
    case Num(_) => {}
    case LVar(_) => {}
  }

  /** An evaluation that succeeds has written every target of n and nothing
      else: the cells outside the targets keep their contents. */
  lemma {:induction false} EvalWritesOnlyTargets(n: Node, rbp: int, mem: map<int, int>)
    requires AssignTargetsOk(n)
    ensures Eval(n, rbp, mem).Success? ==>
              var mem' := Eval(n, rbp, mem).value.1;
              && mem'.Keys == mem.Keys + Targets(n, rbp)
              && forall a :: a in mem && a !in Targets(n, rbp) ==> mem'[a] == mem[a]
  {
    match n
    case Num(_) =>
    case LVar(_) =>
    case Assign(l, r) =>
      EvalWritesOnlyTargets(r, rbp, mem);
    case Binary(op, l, r) =>
      EvalWritesOnlyTargets(l, rbp, mem);
      if Eval(l, rbp, mem).Success? {
        EvalWritesOnlyTargets(r, rbp, Eval(l, rbp, mem).value.1);
      }
  }

  /** An assignment's value is its right side's value, and it is what the
      target cell holds afterwards. */
  lemma AssignStoresValue(o: int, r: Node, rbp: int, mem: map<int, int>)
    requires AssignTargetsOk(r)
    ensures Eval(Assign(LVar(o), r), rbp, mem).Success? <==> Eval(r, rbp, mem).Success?
    ensures Eval(Assign(LVar(o), r), rbp, mem).Success? ==>
              var (v, mem') := Eval(Assign(LVar(o), r), rbp, mem).value;
              v == Eval(r, rbp, mem).value.0 && rbp - o in mem' && mem'[rbp - o] == v
  {
  }

  /** A tree the parser builds never changes memory. */
  lemma ParserTreeKeepsMemory(n: Node, rbp: int, mem: map<int, int>)
    requires ParserTree(n)
    ensures AssignTargetsOk(n)
    ensures Eval(n, rbp, mem).Success? ==> Eval(n, rbp, mem).value.1 == mem
  {
    NoTargets(n, rbp);
    EvalWritesOnlyTargets(n, rbp, mem);
  }

  lemma {:induction false} NoTargets(n: Node, rbp: int)
    requires ParserTree(n)
    ensures AssignTargetsOk(n) && Targets(n, rbp) == {}
  {
    if n.Binary? {
      NoTargets(n.lhs, rbp);
      NoTargets(n.rhs, rbp);
    }
  }
}
