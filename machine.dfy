/** The part of x86-64 that the generated code uses, as an abstract
    instruction set with a small-step meaning. Integers are unbounded; the
    stack is a sequence whose last element is the top. */
module StackMachine {
  import opened Results
  import opened IntOps

  datatype Instr =
    | Push(imm: int)        // push imm
    | PushRax               // push rax
    | PushRdi               // push rdi
    | PopRax                // pop rax
    | PopRdi                // pop rdi
    | MovRaxRbp             // mov rax, rbp
    | SubRaxImm(imm: int)   // sub rax, imm
    | Load                  // mov rax, [rax]
    | Store                 // mov [rax], rdi
    | AddRaxRdi             // add rax, rdi
    | SubRaxRdi             // sub rax, rdi
    | ImulRaxRdi            // imul rax, rdi
    | Cqo                   // cqo
    | IdivRdi               // idiv rdi
    | CmpRaxRdi             // cmp rax, rdi
    | SetL                  // setl al
    | SetLE                 // setle al
    | SetE                  // sete al
    | SetNE                 // setne al
    | MovzbRaxAl            // movzb rax, al

  /** The instruction reads and writes registers and flags only: it touches
      neither the stack nor memory. */
  predicate RegistersOnly(i: Instr) {
    !(i.Push? || i.PushRax? || i.PushRdi? || i.PopRax? || i.PopRdi? || i.Load? || i.Store?)
  }

  /** What the last `cmp` compared, which the set* instructions test. */
  datatype Flags = Flags(lhs: int, rhs: int)

  datatype Machine = Machine(
    rax: int, rdi: int, rdx: int, rbp: int,
    flags: Flags,
    stack: seq<int>,
    mem: map<int, int>)

  /** A pop below the floor, `idiv` by zero, `idiv` with a dividend rdx:rax
      wider than rax, a load from an address that holds nothing. */
  datatype Fault = StackUnderflow | DivideByZero | WideDividend | BadAddress(addr: int)

  /** What `cqo` puts in rdx: rax's sign spread over the whole register. */
  function SignOf(x: int): int {
    if x < 0 then -1 else 0
  }

  /** `set* al`: replace the low byte of x by b. */
  function SetLowByte(x: int, b: int): int {
    x - x % 256 + b
  }

  lemma LowByteOfSet(x: int, b: int)
    requires 0 <= b < 256
    ensures SetLowByte(x, b) % 256 == b
  {
    var k := x / 256;
    assert x - x % 256 == 256 * k;
    assert SetLowByte(x, b) == 256 * k + b;
  }

  /** The top of the stack and the machine without it, unless the stack
      holds no more than `floor` values. */
  function Pop(m: Machine, floor: nat): (r: Result<(int, Machine), Fault>)
    ensures r.Success? <==> |m.stack| > floor
    ensures r.Success? ==> m.stack == r.value.1.stack + [r.value.0]
  {
    if |m.stack| <= floor then Failure(StackUnderflow)
    else Success((m.stack[|m.stack| - 1], m.(stack := m.stack[..|m.stack| - 1])))
  }

  /** One instruction; a pop never goes below `floor`. */
  function Step(i: Instr, m: Machine, floor: nat): Result<Machine, Fault> {
    match i
    case Push(v) => Success(m.(stack := m.stack + [v]))
    case PushRax => Success(m.(stack := m.stack + [m.rax]))
    case PushRdi => Success(m.(stack := m.stack + [m.rdi]))
    case PopRax =>
      (match Pop(m, floor)
       case Failure(f) => Failure(f)
       case Success((v, m1)) => Success(m1.(rax := v)))
    case PopRdi =>
      (match Pop(m, floor)
       case Failure(f) => Failure(f)
       case Success((v, m1)) => Success(m1.(rdi := v)))
    case MovRaxRbp => Success(m.(rax := m.rbp))
    case SubRaxImm(k) => Success(m.(rax := m.rax - k))
    case Load =>
      if m.rax in m.mem then Success(m.(rax := m.mem[m.rax])) else Failure(BadAddress(m.rax))
    case Store => Success(m.(mem := m.mem[m.rax := m.rdi]))
    case AddRaxRdi => Success(m.(rax := m.rax + m.rdi))
    case SubRaxRdi => Success(m.(rax := m.rax - m.rdi))
    case ImulRaxRdi => Success(m.(rax := m.rax * m.rdi))
    case Cqo => Success(m.(rdx := SignOf(m.rax)))
    case IdivRdi =>
      if m.rdi == 0 then Failure(DivideByZero)
      else if m.rdx != SignOf(m.rax) then Failure(WideDividend)
      else Success(m.(rax := TruncDiv(m.rax, m.rdi), rdx := TruncRem(m.rax, m.rdi)))
    case CmpRaxRdi => Success(m.(flags := Flags(m.rax, m.rdi)))
    case SetL => Success(m.(rax := SetLowByte(m.rax, Bit(m.flags.lhs < m.flags.rhs))))
    case SetLE => Success(m.(rax := SetLowByte(m.rax, Bit(m.flags.lhs <= m.flags.rhs))))
    case SetE => Success(m.(rax := SetLowByte(m.rax, Bit(m.flags.lhs == m.flags.rhs))))
    case SetNE => Success(m.(rax := SetLowByte(m.rax, Bit(m.flags.lhs != m.flags.rhs))))
    case MovzbRaxAl => Success(m.(rax := m.rax % 256))
  }

  /** The instructions in order, stopping at the first fault. */
  function Run(code: seq<Instr>, m: Machine, floor: nat): Result<Machine, Fault>
    decreases |code|
  {
    if |code| == 0 then Success(m)
    else
      match Step(code[0], m, floor)
      case Failure(f) => Failure(f)
      case Success(m1) => Run(code[1..], m1, floor)
  }

  /** Continue a run with more code, unless it faulted. */
  function Then(r: Result<Machine, Fault>, code: seq<Instr>, floor: nat): Result<Machine, Fault> {
    match r
    case Failure(f) => Failure(f)
    case Success(m) => Run(code, m, floor)
  }

  /** Running a + b is running a, then b from where a stopped. */
  lemma {:induction false} RunAppend(a: seq<Instr>, b: seq<Instr>, m: Machine, floor: nat)
    ensures Run(a + b, m, floor) == Then(Run(a, m, floor), b, floor)
    decreases |a|
  {
    if |a| == 0 {
      assert a + b == b;
    } else {
      assert (a + b)[0] == a[0];
      assert (a + b)[1..] == a[1..] + b;
      match Step(a[0], m, floor)
      case Failure(f) =>
      case Success(m1) =>
        RunAppend(a[1..], b, m1, floor);
    }
  }
}
