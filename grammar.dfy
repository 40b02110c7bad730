/** The grammar of parse.c, as functions over the token sequence seen at the
    level the parser looks at it (a Lexeme per token), with the cursor made an
    explicit position:

      expr       = equality
      equality   = relational ("==" relational | "!=" relational)*
      relational = add ("<" add | "<=" add | ">" add | ">=" add)*
      add        = mul ("+" mul | "-" mul)*
      mul        = unary ("*" unary | "/" unary)*
      unary      = ("+" | "-")? primary
      primary    = "(" expr ")" | num

    The four binary levels share one definition, PLevel, indexed by level:
    0 is unary, 1 mul, 2 add, 3 relational, 4 equality. A failure carries the
    index of the token the cursor was on. */
module Grammar {
  import opened Results
  import opened Ast

  /** What the parser can tell about a token: a RESERVED token by its text, a
      NUM token by its value, an identifier, or the final EOF. */
  datatype Lexeme = LOp(text: string) | LNum(val: int) | LIdent | LEnd

  datatype Parsed = Parsed(node: Node, next: nat)

  type PResult = Result<Parsed, nat>

  /** The token sequence ends with EOF, which no rule consumes. */
  predicate ValidLexemes(lx: seq<Lexeme>) {
    |lx| > 0 && lx[|lx| - 1] == LEnd
  }

  /** expect_reserved(c): a RESERVED token whose first character is c. */
  predicate ExpectsChar(l: Lexeme, c: char) {
    l.LOp? && |l.text| > 0 && l.text[0] == c
  }

  /** The operator a level's loop consumes at lexeme l, and whether its
      operands are swapped (">" and ">=" reuse LT and LTE). */
  function LevelOp(lv: nat, l: Lexeme): (r: Option<(BinOp, bool)>)
    ensures r.Some? ==> l.LOp? && 1 <= lv <= 4
    ensures r.Some? ==> (r.value.1 <==> l.text == ">" || l.text == ">=")
  {
    if !l.LOp? then None
    else if lv == 1 then
      (if l.text == "*" then Some((Mul, false))
       else if l.text == "/" then Some((Div, false))
       else None)
    else if lv == 2 then
      (if l.text == "+" then Some((Add, false))
       else if l.text == "-" then Some((Sub, false))
       else None)
    else if lv == 3 then
      (if l.text == "<=" then Some((Lte, false))
       else if l.text == ">=" then Some((Lte, true))
       else if l.text == "<" then Some((Lt, false))
       else if l.text == ">" then Some((Lt, true))
       else None)
    else if lv == 4 then
      (if l.text == "==" then Some((Eq, false))
       else if l.text == "!=" then Some((Neq, false))
       else None)
    else None
  }

  /** A parse from p moved the cursor forward (strictly when `strict`), stayed
      before the EOF and built only parser nodes; a failure lies between p and
      the EOF. */
  predicate Advances(lx: seq<Lexeme>, p: nat, r: PResult, strict: bool) {
    && (r.Success? ==>
          && (if strict then p < r.value.next else p <= r.value.next)
          && r.value.next < |lx|
          && ParserTree(r.value.node))
    && (r.Failure? ==> p <= r.error < |lx|)
  }

  /** expr */
  function PExpr(lx: seq<Lexeme>, p: nat): (r: PResult)
    requires ValidLexemes(lx) && p < |lx|
    ensures Advances(lx, p, r, true)
    decreases |lx| - p, 7
  {
    PLevel(lx, p, 4)
  }

  /** primary = "(" expr ")" | num */
  function PPrimary(lx: seq<Lexeme>, p: nat): (r: PResult)
    requires ValidLexemes(lx) && p < |lx|
    ensures Advances(lx, p, r, true)
    decreases |lx| - p, 0
  {
    if lx[p] == LOp("(") then
      match PExpr(lx, p + 1)
      case Failure(e) => Failure(e)
      case Success(Parsed(n, q)) =>
        if ExpectsChar(lx[q], ')') then Success(Parsed(n, q + 1)) else Failure(q)
    else if lx[p].LNum? then Success(Parsed(Num(lx[p].val), p + 1))
    else Failure(p)
  }

  /** unary = ("+" | "-")? primary, where "-x" becomes 0 - x */
  function PUnary(lx: seq<Lexeme>, p: nat): (r: PResult)
    requires ValidLexemes(lx) && p < |lx|
    ensures Advances(lx, p, r, true)
    decreases |lx| - p, 1
  {
    if lx[p] == LOp("+") then PPrimary(lx, p + 1)
    else if lx[p] == LOp("-") then
      match PPrimary(lx, p + 1)
      case Failure(e) => Failure(e)
      case Success(Parsed(n, q)) => Success(Parsed(Binary(Sub, Num(0), n), q))
    else PPrimary(lx, p)
  }

  /** One binary level: an operand of the level below, then the loop. */
  function PLevel(lx: seq<Lexeme>, p: nat, lv: nat): (r: PResult)
    requires ValidLexemes(lx) && p < |lx| && lv <= 4
    ensures Advances(lx, p, r, true)
    decreases |lx| - p, lv + 2
  {
    if lv == 0 then PUnary(lx, p)
    else
      match PLevel(lx, p, lv - 1)
      case Failure(e) => Failure(e)
      case Success(Parsed(n, q)) => PLoop(lx, lv, n, q)
  }

  /** The `for (;;)` loop of a binary level: while the current token is one of
      the level's operators, consume it, parse the next operand one level
      down and make the tree so far its left operand (its right operand when
      swapped). */
  function PLoop(lx: seq<Lexeme>, lv: nat, lhs: Node, q: nat): (r: PResult)
    requires ValidLexemes(lx) && q < |lx| && 1 <= lv <= 4 && ParserTree(lhs)
    ensures Advances(lx, q, r, false)
    decreases |lx| - q, 0
  {
    match LevelOp(lv, lx[q])
    case None => Success(Parsed(lhs, q))
    case Some((op, swapped)) =>
      match PLevel(lx, q + 1, lv - 1)
      case Failure(e) => Failure(e)
      case Success(Parsed(rhs, q2)) =>
        PLoop(lx, lv, if swapped then Binary(op, rhs, lhs) else Binary(op, lhs, rhs), q2)
  }

  // ---------------------------------------------------------------------
  // Precedence and associativity, stated through a printer.

  /** Precedence level of each operator, as the grammar nests them. */
  function Prec(op: BinOp): nat {
    match op
    case Mul => 1
    case Div => 1
    case Add => 2
    case Sub => 2
    case Lt => 3
    case Lte => 3
    case Eq => 4
    case Neq => 4
  }

  function OpText(op: BinOp): string {
    match op
    case Mul => "*"
    case Div => "/"
    case Add => "+"
    case Sub => "-"
    case Lt => "<"
    case Lte => "<="
    case Eq => "=="
    case Neq => "!="
  }

  /** The operator text is consumed by exactly its own level, unswapped. */
  lemma OpTextLevel(op: BinOp, lv: nat)
    ensures LevelOp(lv, LOp(OpText(op))) == if lv == Prec(op) then Some((op, false)) else None
  {
  }

  /** n printed with as few parentheses as the grammar needs, so that it can
      stand where level L is parsed: an operator of level k takes a left
      operand of level k and a right operand of level k - 1 (left
      associativity), and is parenthesized when k is above L. */
  function Show(n: Node, L: nat): seq<Lexeme>
    requires ParserTree(n)
  {
    match n
    case Num(v) => [LNum(v)]
    case Binary(op, l, r) =>
      var body := Show(l, Prec(op)) + [LOp(OpText(op))] + Show(r, Prec(op) - 1);
      if Prec(op) <= L then body else [LOp("(")] + body + [LOp(")")]
  }

  /** Lexeme l ends every loop of levels 1 to L. */
  predicate Stops(l: Lexeme, L: nat) {
    forall lv :: 1 <= lv <= L ==> LevelOp(lv, l).None?
  }

  /** w occurs in lx at position p. */
  predicate IsAt(lx: seq<Lexeme>, p: nat, w: seq<Lexeme>) {
    p + |w| <= |lx| && forall i :: 0 <= i < |w| ==> lx[p + i] == w[i]
  }

  lemma IsAtSplit(lx: seq<Lexeme>, p: nat, a: seq<Lexeme>, b: seq<Lexeme>)
    requires IsAt(lx, p, a + b)
    ensures IsAt(lx, p, a) && IsAt(lx, p + |a|, b)
  {
    forall i | 0 <= i < |a|
      ensures lx[p + i] == a[i]
    {
      assert (a + b)[i] == a[i];
    }
    forall i | 0 <= i < |b|
      ensures lx[p + |a| + i] == b[i]
    {
      assert (a + b)[|a| + i] == b[i];
    }
  }

  /** a, then the single lexeme x, then b. */
  lemma IsAtSplit3(lx: seq<Lexeme>, p: nat, a: seq<Lexeme>, x: Lexeme, b: seq<Lexeme>)
    requires IsAt(lx, p, a + [x] + b)
    ensures IsAt(lx, p, a) && lx[p + |a|] == x && IsAt(lx, p + |a| + 1, b)
  {
    IsAtSplit(lx, p, a + [x], b);
    IsAtSplit(lx, p, a, [x]);
    assert [x][0] == x;
  }

  /** A level's loop ends when the current lexeme is none of its operators. */
  lemma LoopExit(lx: seq<Lexeme>, lv: nat, lhs: Node, q: nat)
    requires ValidLexemes(lx) && q < |lx| && 1 <= lv <= 4 && ParserTree(lhs)
    requires LevelOp(lv, lx[q]).None?
    ensures PLoop(lx, lv, lhs, q) == Success(Parsed(lhs, q))
  {
  }

  /** One turn of a level's loop. */
  lemma LoopTurn(lx: seq<Lexeme>, lv: nat, lhs: Node, q: nat, op: BinOp, swapped: bool, rhs: Node, q2: nat)
    requires ValidLexemes(lx) && q + 1 < |lx| && 1 <= lv <= 4 && ParserTree(lhs)
    requires LevelOp(lv, lx[q]) == Some((op, swapped))
    requires PLevel(lx, q + 1, lv - 1) == Success(Parsed(rhs, q2))
    ensures ParserTree(rhs) && q2 < |lx|
    ensures PLoop(lx, lv, lhs, q) ==
            PLoop(lx, lv, if swapped then Binary(op, rhs, lhs) else Binary(op, lhs, rhs), q2)
  {
  }

  /** A turn of a level's loop whose operand fails fails there. */
  lemma LoopFails(lx: seq<Lexeme>, lv: nat, lhs: Node, q: nat, op: BinOp, swapped: bool)
    requires ValidLexemes(lx) && q + 1 < |lx| && 1 <= lv <= 4 && ParserTree(lhs)
    requires LevelOp(lv, lx[q]) == Some((op, swapped))
    requires PLevel(lx, q + 1, lv - 1).Failure?
    ensures PLoop(lx, lv, lhs, q) == PLevel(lx, q + 1, lv - 1)
  {
  }

  /** A binary level starts with an operand of the level below. */
  lemma LevelFirst(lx: seq<Lexeme>, p: nat, lv: nat)
    requires ValidLexemes(lx) && p < |lx| && 1 <= lv <= 4
    ensures var r := PLevel(lx, p, lv - 1);
            && (r.Failure? ==> PLevel(lx, p, lv) == r)
            && (r.Success? ==> PLevel(lx, p, lv) == PLoop(lx, lv, r.value.node, r.value.next))
  {
  }

  /** The operators of each level, as the lexemes consume_reserved compares
      against. */
  lemma MulOps(l: Lexeme)
    ensures LevelOp(1, l) ==
            if l == LOp("*") then Some((Mul, false))
            else if l == LOp("/") then Some((Div, false))
            else None
  {
  }

  lemma AddOps(l: Lexeme)
    ensures LevelOp(2, l) ==
            if l == LOp("+") then Some((Add, false))
            else if l == LOp("-") then Some((Sub, false))
            else None
  {
  }

  lemma RelationalOps(l: Lexeme)
    ensures LevelOp(3, l) ==
            if l == LOp("<=") then Some((Lte, false))
            else if l == LOp(">=") then Some((Lte, true))
            else if l == LOp("<") then Some((Lt, false))
            else if l == LOp(">") then Some((Lt, true))
            else None
  {
  }

  lemma EqualityOps(l: Lexeme)
    ensures LevelOp(4, l) ==
            if l == LOp("==") then Some((Eq, false))
            else if l == LOp("!=") then Some((Neq, false))
            else None
  {
  }

  /** An operand parsed at level L0 is also what every level up to L parses,
      when the token after it ends the loops of those levels. */
  lemma {:induction false} LiftLevels(lx: seq<Lexeme>, p: nat, L0: nat, L: nat, n: Node, q: nat)
    requires ValidLexemes(lx) && p < |lx| && L0 <= L <= 4
    requires PLevel(lx, p, L0) == Success(Parsed(n, q))
    requires Stops(lx[q], L)
    ensures PLevel(lx, p, L) == Success(Parsed(n, q))
    decreases L
  {
    if L > L0 {
      LiftLevels(lx, p, L0, L - 1, n, q);
      LoopExit(lx, L, n, q);
    }
  }

  /** Printing at a level other than the operator's own changes nothing
      unless it adds or drops the parentheses. */
  lemma ShowSame(n: Node, L: nat)
    requires ParserTree(n) && 1 <= L
    requires !(n.Binary? && Prec(n.op) == L)
    ensures Show(n, L) == Show(n, L - 1)
  {
  }

  /** An operator's text ends the loops of the levels below its own. */
  lemma OpStopsBelow(op: BinOp)
    ensures Stops(LOp(OpText(op)), Prec(op) - 1)
  {
    forall lv | 1 <= lv <= Prec(op) - 1
      ensures LevelOp(lv, LOp(OpText(op))).None?
    {
      OpTextLevel(op, lv);
    }
  }

  /** A closing parenthesis ends every loop. */
  lemma CloseStops()
    ensures Stops(LOp(")"), 4)
  {
  }

  /** The printed form of n, followed by a token that ends the loops of
      levels up to L, parses at level L back to n and stops right after it. */
  lemma {:induction false} ParseShown(n: Node, L: nat, lx: seq<Lexeme>, p: nat)
    requires ParserTree(n) && L <= 4 && ValidLexemes(lx)
    requires IsAt(lx, p, Show(n, L)) && p + |Show(n, L)| < |lx|
    requires Stops(lx[p + |Show(n, L)|], L)
    ensures PLevel(lx, p, L) == Success(Parsed(n, p + |Show(n, L)|))
    decreases n, if n.Binary? && Prec(n.op) > L then 2 else 1, L
  {
    var end := p + |Show(n, L)|;
    if n.Binary? && Prec(n.op) == L {
      ParseOperand(n, L, lx, p);
      LoopExit(lx, L, n, end);
    } else if L > 0 {
      ShowSame(n, L);
      ParseShown(n, L - 1, lx, p);
      LoopExit(lx, L, n, end);
    } else if n.Num? {
      assert lx[p] == LNum(n.val) by {
        assert lx[p + 0] == Show(n, L)[0];
      }
      assert PUnary(lx, p) == PPrimary(lx, p);
    } else {
      ParseParen(n, lx, p);
    }
  }

  /** A tree printed above its operator's level is its printing at any
      level M it fits under, in parentheses. */
  lemma ShowParen(n: Node, L: nat, M: nat, lx: seq<Lexeme>, p: nat)
    requires ParserTree(n) && n.Binary? && L < Prec(n.op) <= M
    requires IsAt(lx, p, Show(n, L))
    ensures |Show(n, L)| == |Show(n, M)| + 2
    ensures lx[p] == LOp("(") && IsAt(lx, p + 1, Show(n, M))
    ensures lx[p + 1 + |Show(n, M)|] == LOp(")")
  {
    var k := Prec(n.op);
    var body := Show(n.lhs, k) + [LOp(OpText(n.op))] + Show(n.rhs, k - 1);
    assert Show(n, M) == body;
    assert Show(n, L) == [LOp("(")] + body + [LOp(")")];
    IsAtParens(lx, p, body);
  }

  /** "(" w ")" at p: the parentheses at p and after w, w right after p. */
  lemma IsAtParens(lx: seq<Lexeme>, p: nat, w: seq<Lexeme>)
    requires IsAt(lx, p, [LOp("(")] + w + [LOp(")")])
    ensures lx[p] == LOp("(") && IsAt(lx, p + 1, w) && lx[p + 1 + |w|] == LOp(")")
  {
    var v := [LOp("(")] + w + [LOp(")")];
    assert lx[p + 0] == v[0];
    forall i | 0 <= i < |w|
      ensures lx[p + 1 + i] == w[i]
    {
      assert lx[p + (1 + i)] == v[1 + i];
    }
    assert lx[p + (1 + |w|)] == v[1 + |w|];
  }

  /** "(" expr ")" around a printed tree is a primary. */
  lemma {:induction false} ParseParen(n: Node, lx: seq<Lexeme>, p: nat)
    requires ParserTree(n) && n.Binary? && ValidLexemes(lx)
    requires IsAt(lx, p, Show(n, 0)) && p + |Show(n, 0)| < |lx|
    ensures PLevel(lx, p, 0) == Success(Parsed(n, p + |Show(n, 0)|))
    decreases n, 1, 5
  {
    ShowParen(n, 0, 4, lx, p);
    var close := p + 1 + |Show(n, 4)|;
    CloseStops();
    ParseShown(n, 4, lx, p + 1);
    assert PExpr(lx, p + 1) == Success(Parsed(n, close));
    assert PPrimary(lx, p) == Success(Parsed(n, close + 1));
  }

  /** Any tree printed at level k, with k >= 1, brings that level's parse to
      its loop with exactly that tree built, whatever follows, as long as the
      following token ends the loops below k. */
  lemma {:induction false} ParseOperand(n: Node, k: nat, lx: seq<Lexeme>, p: nat)
    requires ParserTree(n) && 1 <= k <= 4 && ValidLexemes(lx)
    requires IsAt(lx, p, Show(n, k)) && p + |Show(n, k)| < |lx|
    requires Stops(lx[p + |Show(n, k)|], k - 1)
    ensures PLevel(lx, p, k) == PLoop(lx, k, n, p + |Show(n, k)|)
    decreases n, if n.Binary? && Prec(n.op) == k then 1 else 3, 0
  {
    if n.Binary? && Prec(n.op) == k {
      ParseChain(n, k, lx, p);
    } else {
      ShowSame(n, k);
      ParseShown(n, k - 1, lx, p);
    }
  }

  /** A chain `l op r` at the level k of op: the left operand is brought to
      the loop, whose next turn consumes op and the right operand. */
  lemma {:induction false} ParseChain(n: Node, k: nat, lx: seq<Lexeme>, p: nat)
    requires ParserTree(n) && n.Binary? && Prec(n.op) == k && ValidLexemes(lx)
    requires IsAt(lx, p, Show(n, k)) && p + |Show(n, k)| < |lx|
    requires Stops(lx[p + |Show(n, k)|], k - 1)
    ensures PLevel(lx, p, k) == PLoop(lx, k, n, p + |Show(n, k)|)
    decreases n, 0, 0
  {
    var l, op, r := n.lhs, n.op, n.rhs;
    ChainParts(n, k, lx, p);
    var ql := p + |Show(l, k)|;
    var end := p + |Show(n, k)|;
    ParseOperand(l, k, lx, p);
    ChainRight(r, k, lx, ql + 1, end);
    LoopTurn(lx, k, l, ql, op, false, r, end);
  }

  /** The right operand of a chain at level k, printed one level down and
      ending at `end`, is what the level below parses. */
  lemma {:induction false} ChainRight(r: Node, k: nat, lx: seq<Lexeme>, q: nat, end: nat)
    requires ParserTree(r) && 1 <= k <= 4 && ValidLexemes(lx)
    requires IsAt(lx, q, Show(r, k - 1)) && end == q + |Show(r, k - 1)| && end < |lx|
    requires Stops(lx[end], k - 1)
    ensures PLevel(lx, q, k - 1) == Success(Parsed(r, end))
    decreases r, 3, 0
  {
    ParseShown(r, k - 1, lx, q);
  }

  /** Where the printed chain `l op r` puts its parts: l at p, the operator
      text right after it (which ends the loops below k and is the level's
      own, unswapped), r after that, ending where the chain ends. */
  lemma ChainParts(n: Node, k: nat, lx: seq<Lexeme>, p: nat)
    requires ParserTree(n) && n.Binary? && Prec(n.op) == k
    requires IsAt(lx, p, Show(n, k)) && p + |Show(n, k)| < |lx|
    ensures var ql := p + |Show(n.lhs, k)|;
            && IsAt(lx, p, Show(n.lhs, k))
            && Stops(lx[ql], k - 1) && LevelOp(k, lx[ql]) == Some((n.op, false))
            && IsAt(lx, ql + 1, Show(n.rhs, k - 1))
            && ql + 1 + |Show(n.rhs, k - 1)| == p + |Show(n, k)|
  {
    var sl, x, sr := Show(n.lhs, k), LOp(OpText(n.op)), Show(n.rhs, k - 1);
    assert Show(n, k) == sl + [x] + sr;
    IsAtSplit3(lx, p, sl, x, sr);
    OpStopsBelow(n.op);
    OpTextLevel(n.op, k);
  }

  /** Every tree the parser can build is what its printed form parses to, and
      the parse stops at the token after it (trailing tokens are left). */
  lemma RoundTrip(n: Node, follower: Lexeme, rest: seq<Lexeme>)
    requires ParserTree(n) && Stops(follower, 4)
    requires ValidLexemes([follower] + rest)
    ensures var lx := Show(n, 4) + [follower] + rest;
            ValidLexemes(lx) && PExpr(lx, 0) == Success(Parsed(n, |Show(n, 4)|))
  {
    var lx := Show(n, 4) + [follower] + rest;
    assert lx[|lx| - 1] == ([follower] + rest)[|rest|];
    assert lx[0..|Show(n, 4)|] == Show(n, 4);
    assert lx[|Show(n, 4)|] == follower;
    ParseShown(n, 4, lx, 0);
  }

  /** The EOF ends every loop, so a whole input that is a printed tree parses
      back to that tree with the cursor on the EOF. */
  lemma RoundTripToEnd(n: Node)
    requires ParserTree(n)
    ensures var lx := Show(n, 4) + [LEnd];
            ValidLexemes(lx) && PExpr(lx, 0) == Success(Parsed(n, |Show(n, 4)|))
  {
    RoundTrip(n, LEnd, []);
    assert Show(n, 4) + [LEnd] + [] == Show(n, 4) + [LEnd];
  }

  /** 1-2-3 parses to SUB(SUB(1, 2), 3): a level's operators associate to
      the left. */
  lemma SubAssociatesLeft(lx: seq<Lexeme>)
    requires lx == [LNum(1), LOp("-"), LNum(2), LOp("-"), LNum(3), LEnd]
    ensures PExpr(lx, 0)
         == Success(Parsed(Binary(Sub, Binary(Sub, Num(1), Num(2)), Num(3)), 5))
  {
    var n := Binary(Sub, Binary(Sub, Num(1), Num(2)), Num(3));
    RoundTripToEnd(n);
    assert Show(n, 4) == [LNum(1), LOp("-"), LNum(2), LOp("-"), LNum(3)];
    assert Show(n, 4) + [LEnd] == lx;
  }

  /** 1+2*3 parses to ADD(1, MUL(2, 3)): mul binds tighter than add. */
  lemma MulBindsTighter(lx: seq<Lexeme>)
    requires lx == [LNum(1), LOp("+"), LNum(2), LOp("*"), LNum(3), LEnd]
    ensures PExpr(lx, 0)
         == Success(Parsed(Binary(Add, Num(1), Binary(Mul, Num(2), Num(3))), 5))
  {
    var n := Binary(Add, Num(1), Binary(Mul, Num(2), Num(3)));
    RoundTripToEnd(n);
    assert Show(n, 4) == [LNum(1), LOp("+"), LNum(2), LOp("*"), LNum(3)];
    assert Show(n, 4) + [LEnd] == lx;
  }

  /** 1<2==1 parses to EQ(LT(1, 2), 1): relational binds tighter than
      equality. */
  lemma RelationalBindsTighter(lx: seq<Lexeme>)
    requires lx == [LNum(1), LOp("<"), LNum(2), LOp("=="), LNum(1), LEnd]
    ensures PExpr(lx, 0)
         == Success(Parsed(Binary(Eq, Binary(Lt, Num(1), Num(2)), Num(1)), 5))
  {
    var n := Binary(Eq, Binary(Lt, Num(1), Num(2)), Num(1));
    RoundTripToEnd(n);
    assert Show(n, 4) == [LNum(1), LOp("<"), LNum(2), LOp("=="), LNum(1)];
    assert Show(n, 4) + [LEnd] == lx;
  }

  /** a > b builds LT(b, a) and a >= b builds LTE(b, a): when `add` parses a
      from p, then the operator, then b, and the next lexeme ends every
      loop, the whole expression is the swapped comparison. */
  lemma GreaterSwaps(lx: seq<Lexeme>, p: nat, a: Node, qa: nat, gt: string, b: Node, end: nat)
    requires ValidLexemes(lx) && p < |lx| && (gt == ">" || gt == ">=")
    requires PLevel(lx, p, 2) == Success(Parsed(a, qa))
    requires lx[qa] == LOp(gt)
    requires qa + 1 < |lx| && PLevel(lx, qa + 1, 2) == Success(Parsed(b, end))
    requires Stops(lx[end], 4)
    ensures PExpr(lx, p) == Success(Parsed(Binary(if gt == ">" then Lt else Lte, b, a), end))
  {
    var op := if gt == ">" then Lt else Lte;
    assert LevelOp(3, lx[qa]) == Some((op, true));
    RelationalTurn(lx, p, a, qa, op, true, b, end);
  }

  /** An additive operand, a relational operator, another additive operand
      and a lexeme that ends every loop: the whole expression is the one node
      the relational loop builds. */
  lemma RelationalTurn(lx: seq<Lexeme>, p: nat, a: Node, qa: nat, op: BinOp, swapped: bool, b: Node, end: nat)
    requires ValidLexemes(lx) && p < |lx| && qa + 1 < |lx|
    requires PLevel(lx, p, 2) == Success(Parsed(a, qa))
    requires LevelOp(3, lx[qa]) == Some((op, swapped))
    requires PLevel(lx, qa + 1, 2) == Success(Parsed(b, end))
    requires Stops(lx[end], 4)
    ensures var n := if swapped then Binary(op, b, a) else Binary(op, a, b);
            PExpr(lx, p) == Success(Parsed(n, end))
  {
    var n := if swapped then Binary(op, b, a) else Binary(op, a, b);
    LoopTurn(lx, 3, a, qa, op, swapped, b, end);
    LoopExit(lx, 3, n, end);
    assert PLevel(lx, p, 3) == Success(Parsed(n, end));
    LiftLevels(lx, p, 3, 4, n, end);
  }

  /** -x parses to SUB(NUM 0, x) and +x to x: a sign, then a primary x, then
      a lexeme that ends every loop. */
  lemma UnarySigns(lx: seq<Lexeme>, p: nat, sign: string, x: Node, q: nat)
    requires ValidLexemes(lx) && p + 1 < |lx| && (sign == "-" || sign == "+")
    requires lx[p] == LOp(sign)
    requires PPrimary(lx, p + 1) == Success(Parsed(x, q))
    requires Stops(lx[q], 4)
    ensures PExpr(lx, p) == Success(Parsed(if sign == "-" then Binary(Sub, Num(0), x) else x, q))
  {
    var m := if sign == "-" then Binary(Sub, Num(0), x) else x;
    assert PLevel(lx, p, 0) == Success(Parsed(m, q));
    LiftLevels(lx, p, 0, 4, m, q);
  }

  /** Unary applies to a primary only, so a second sign fails at the place
      of the number expected after the first. */
  lemma DoubleSignFails(lx: seq<Lexeme>, p: nat, s1: string, s2: string)
    requires ValidLexemes(lx) && p + 1 < |lx|
    requires (s1 == "-" || s1 == "+") && (s2 == "-" || s2 == "+")
    requires lx[p] == LOp(s1) && lx[p + 1] == LOp(s2)
    ensures PExpr(lx, p) == Failure(p + 1)
  {
    assert PPrimary(lx, p + 1) == Failure(p + 1);
    assert PUnary(lx, p) == Failure(p + 1);
    assert PLevel(lx, p, 1) == Failure(p + 1);
    assert PLevel(lx, p, 2) == Failure(p + 1);
    assert PLevel(lx, p, 3) == Failure(p + 1);
  }
}
