/** The grammar of the earlier stage (9cc.c), over the same lexeme view as
    the final one:

      expr    = mul ("+" mul | "-" mul)*
      mul     = primary ("*" primary | "/" primary)*
      primary = "(" expr ")" | num

    Level 0 is primary, 1 mul, 2 expr; the operators of each level are those
    of the final grammar's levels 1 and 2. There is no unary rule. */
module EarlyGrammar {
  import opened Results
  import opened Ast
  import opened Grammar

  /** As Grammar.Advances, for the trees of this stage. */
  predicate EarlyAdvances(lx: seq<Lexeme>, p: nat, r: PResult, strict: bool) {
    && (r.Success? ==>
          && (if strict then p < r.value.next else p <= r.value.next)
          && r.value.next < |lx|
          && ArithTree(r.value.node))
    && (r.Failure? ==> p <= r.error < |lx|)
  }

  /** expr */
  function EExpr(lx: seq<Lexeme>, p: nat): (r: PResult)
    requires ValidLexemes(lx) && p < |lx|
    ensures EarlyAdvances(lx, p, r, true)
    decreases |lx| - p, 4
  {
    ELevel(lx, p, 2)
  }

  /** primary = "(" expr ")" | num */
  function EPrimary(lx: seq<Lexeme>, p: nat): (r: PResult)
    requires ValidLexemes(lx) && p < |lx|
    ensures EarlyAdvances(lx, p, r, true)
    decreases |lx| - p, 0
  {
    if lx[p] == LOp("(") then
      match EExpr(lx, p + 1)
      case Failure(e) => Failure(e)
      case Success(Parsed(n, q)) =>
        if ExpectsChar(lx[q], ')') then Success(Parsed(n, q + 1)) else Failure(q)
    else if lx[p].LNum? then Success(Parsed(Num(lx[p].val), p + 1))
    else Failure(p)
  }

  function ELevel(lx: seq<Lexeme>, p: nat, lv: nat): (r: PResult)
    requires ValidLexemes(lx) && p < |lx| && lv <= 2
    ensures EarlyAdvances(lx, p, r, true)
    decreases |lx| - p, lv + 1
  {
    if lv == 0 then EPrimary(lx, p)
    else
      match ELevel(lx, p, lv - 1)
      case Failure(e) => Failure(e)
      case Success(Parsed(n, q)) => ELoop(lx, lv, n, q)
  }

  /** The `for (;;)` loop of mul (level 1) and expr (level 2). */
  function ELoop(lx: seq<Lexeme>, lv: nat, lhs: Node, q: nat): (r: PResult)
    requires ValidLexemes(lx) && q < |lx| && 1 <= lv <= 2 && ArithTree(lhs)
    ensures EarlyAdvances(lx, q, r, false)
    decreases |lx| - q, 0
  {
    match LevelOp(lv, lx[q])
    case None => Success(Parsed(lhs, q))
    case Some((op, _)) =>
      match ELevel(lx, q + 1, lv - 1)
      case Failure(e) => Failure(e)
      case Success(Parsed(rhs, q2)) => ELoop(lx, lv, Binary(op, lhs, rhs), q2)
  }

  lemma ELoopExit(lx: seq<Lexeme>, lv: nat, lhs: Node, q: nat)
    requires ValidLexemes(lx) && q < |lx| && 1 <= lv <= 2 && ArithTree(lhs)
    requires LevelOp(lv, lx[q]).None?
    ensures ELoop(lx, lv, lhs, q) == Success(Parsed(lhs, q))
  {
  }

  lemma ELoopFails(lx: seq<Lexeme>, lv: nat, lhs: Node, q: nat, op: BinOp)
    requires ValidLexemes(lx) && q + 1 < |lx| && 1 <= lv <= 2 && ArithTree(lhs)
    requires LevelOp(lv, lx[q]) == Some((op, false))
    requires ELevel(lx, q + 1, lv - 1).Failure?
    ensures ELoop(lx, lv, lhs, q) == ELevel(lx, q + 1, lv - 1)
  {
  }

  lemma ELoopTurn(lx: seq<Lexeme>, lv: nat, lhs: Node, q: nat, op: BinOp, rhs: Node, q2: nat)
    requires ValidLexemes(lx) && q + 1 < |lx| && 1 <= lv <= 2 && ArithTree(lhs)
    requires LevelOp(lv, lx[q]) == Some((op, false))
    requires ELevel(lx, q + 1, lv - 1) == Success(Parsed(rhs, q2))
    ensures ArithTree(rhs) && q2 < |lx|
    ensures ELoop(lx, lv, lhs, q) == ELoop(lx, lv, Binary(op, lhs, rhs), q2)
  {
  }

  lemma {:induction false} ELiftLevels(lx: seq<Lexeme>, p: nat, L0: nat, L: nat, n: Node, q: nat)
    requires ValidLexemes(lx) && p < |lx| && L0 <= L <= 2
    requires ELevel(lx, p, L0) == Success(Parsed(n, q))
    requires Stops(lx[q], L)
    ensures ELevel(lx, p, L) == Success(Parsed(n, q))
    decreases L
  {
    if L > L0 {
      ELiftLevels(lx, p, L0, L - 1, n, q);
      ELoopExit(lx, L, n, q);
    }
  }

  /** Arithmetic operators sit at levels 1 and 2. */
  lemma ArithPrec(n: Node)
    requires ArithTree(n) && n.Binary?
    ensures 1 <= Prec(n.op) <= 2
  {
  }

  /** The printed form of an arithmetic tree, followed by a token that ends
      the loops up to level L, parses at level L back to that tree. */
  lemma {:induction false} EParseShown(n: Node, L: nat, lx: seq<Lexeme>, p: nat)
    requires ArithTree(n) && L <= 2 && ValidLexemes(lx)
    requires IsAt(lx, p, Show(n, L)) && p + |Show(n, L)| < |lx|
    requires Stops(lx[p + |Show(n, L)|], L)
    ensures ELevel(lx, p, L) == Success(Parsed(n, p + |Show(n, L)|))
    decreases n, if n.Binary? && Prec(n.op) > L then 2 else 1, L
  {
    var end := p + |Show(n, L)|;
    if n.Binary? && Prec(n.op) == L {
      EParseOperand(n, L, lx, p);
      ELoopExit(lx, L, n, end);
    } else if L > 0 {
      ShowSame(n, L);
      EParseShown(n, L - 1, lx, p);
      ELoopExit(lx, L, n, end);
    } else if n.Num? {
      assert lx[p] == LNum(n.val) by {
        assert lx[p + 0] == Show(n, L)[0];
      }
    } else {
      EParseParen(n, lx, p);
    }
  }

  lemma {:induction false} EParseParen(n: Node, lx: seq<Lexeme>, p: nat)
    requires ArithTree(n) && n.Binary? && ValidLexemes(lx)
    requires IsAt(lx, p, Show(n, 0)) && p + |Show(n, 0)| < |lx|
    ensures ELevel(lx, p, 0) == Success(Parsed(n, p + |Show(n, 0)|))
    decreases n, 1, 3
  {
    ArithPrec(n);
    ShowParen(n, 0, 2, lx, p);
    var close := p + 1 + |Show(n, 2)|;
    CloseStops();
    EParseShown(n, 2, lx, p + 1);
    assert EExpr(lx, p + 1) == Success(Parsed(n, close));
    assert EPrimary(lx, p) == Success(Parsed(n, close + 1));
  }

  lemma {:induction false} EParseOperand(n: Node, k: nat, lx: seq<Lexeme>, p: nat)
    requires ArithTree(n) && 1 <= k <= 2 && ValidLexemes(lx)
    requires IsAt(lx, p, Show(n, k)) && p + |Show(n, k)| < |lx|
    requires Stops(lx[p + |Show(n, k)|], k - 1)
    ensures ELevel(lx, p, k) == ELoop(lx, k, n, p + |Show(n, k)|)
    decreases n, if n.Binary? && Prec(n.op) == k then 1 else 3, 0
  {
    if n.Binary? && Prec(n.op) == k {
      EParseChain(n, k, lx, p);
    } else {
      ShowSame(n, k);
      EParseShown(n, k - 1, lx, p);
    }
  }

  lemma {:induction false} EParseChain(n: Node, k: nat, lx: seq<Lexeme>, p: nat)
    requires ArithTree(n) && n.Binary? && Prec(n.op) == k && ValidLexemes(lx)
    requires IsAt(lx, p, Show(n, k)) && p + |Show(n, k)| < |lx|
    requires Stops(lx[p + |Show(n, k)|], k - 1)
    ensures ELevel(lx, p, k) == ELoop(lx, k, n, p + |Show(n, k)|)
    decreases n, 0, 0
  {
    ArithPrec(n);
    var l, op, r := n.lhs, n.op, n.rhs;
    ChainParts(n, k, lx, p);
    var ql := p + |Show(l, k)|;
    var end := p + |Show(n, k)|;
    EParseOperand(l, k, lx, p);
    EChainRight(r, k, lx, ql + 1, end);
    ELoopTurn(lx, k, l, ql, op, r, end);
  }

  /** The right operand of a chain at level k is what the level below
      parses. */
  lemma {:induction false} EChainRight(r: Node, k: nat, lx: seq<Lexeme>, q: nat, end: nat)
    requires ArithTree(r) && 1 <= k <= 2 && ValidLexemes(lx)
    requires IsAt(lx, q, Show(r, k - 1)) && end == q + |Show(r, k - 1)| && end < |lx|
    requires Stops(lx[end], k - 1)
    ensures ELevel(lx, q, k - 1) == Success(Parsed(r, end))
    decreases r, 3, 0
  {
    EParseShown(r, k - 1, lx, q);
  }

  /** Every tree of this stage is what its printed form parses to, with the
      cursor on the token after it. */
  lemma EarlyRoundTrip(n: Node, follower: Lexeme, rest: seq<Lexeme>)
    requires ArithTree(n) && Stops(follower, 2)
    requires ValidLexemes([follower] + rest)
    ensures var lx := Show(n, 2) + [follower] + rest;
            ValidLexemes(lx) && EExpr(lx, 0) == Success(Parsed(n, |Show(n, 2)|))
  {
    var lx := Show(n, 2) + [follower] + rest;
    assert lx[|lx| - 1] == ([follower] + rest)[|rest|];
    assert lx[0..|Show(n, 2)|] == Show(n, 2);
    assert lx[|Show(n, 2)|] == follower;
    EParseShown(n, 2, lx, 0);
  }

  /** With no unary rule, a leading sign fails where a number was expected. */
  lemma LeadingSignFails(lx: seq<Lexeme>, p: nat)
    requires ValidLexemes(lx) && p < |lx|
    requires lx[p] == LOp("-") || lx[p] == LOp("+")
    ensures EExpr(lx, p) == Failure(p)
  {
    assert EPrimary(lx, p) == Failure(p);
    assert ELevel(lx, p, 1) == Failure(p);
  }
}

/** The parser of 9cc.c, as a class whose `pos` field is the global token
    cursor. A RESERVED token is known by its first character only. */
module EarlyParser {
  import opened Results
  import opened EarlyLexer
  import opened Ast
  import opened Grammar
  import opened EarlyGrammar
  import Lexer

  /** What the parser can see of token t: consume_reserved and
      expect_reserved look at `str[0]` alone, so a RESERVED token's lexeme is
      its first character (TokenView.LexemeOf keeps the whole text). */
  function LexemeOf(s: string, t: Token): Lexeme
    requires t.kind == Reserved ==> t.str < |s|
  {
    match t.kind
    case Reserved => LOp([s[t.str]])
    case Num => LNum(t.val)
    case Eof => LEnd
  }

  predicate TokensFit(s: string, ts: seq<Token>) {
    forall j :: 0 <= j < |ts| && ts[j].kind == Reserved ==> ts[j].str < |s|
  }

  function LexemesOf(s: string, ts: seq<Token>): (lx: seq<Lexeme>)
    requires TokensFit(s, ts)
    ensures |lx| == |ts|
    ensures forall j :: 0 <= j < |ts| ==> lx[j] == LexemeOf(s, ts[j])
  {
    seq(|ts|, j requires 0 <= j < |ts| => LexemeOf(s, ts[j]))
  }

  predicate ParserReady(s: string, ts: seq<Token>) {
    TokensFit(s, ts) && |ts| > 0 && ts[|ts| - 1].kind == Eof
  }

  /** The tokenizer's output is ready for the parser. */
  lemma ScanReady(s: string)
    requires Scan(s, 0).Success?
    ensures ParserReady(s, Scan(s, 0).value)
    ensures ValidLexemes(LexemesOf(s, Scan(s, 0).value))
  {
    ScanSound(s);
    var fts := Lexer.Scan(s, 0).value;
    assert Lexer.Tokenization(s, 0, fts);
    ForgottenReady(s, fts);
  }

  /** The final stage's well-formed tokens, lengths dropped, are ready. */
  lemma ForgottenReady(s: string, fts: seq<Lexer.Token>)
    requires |fts| >= 1 && fts[|fts| - 1] == Lexer.Token(Lexer.Eof, |s|, 0, 0)
    requires forall j :: 0 <= j < |fts| - 1 ==> Lexer.WellFormed(s, fts[j])
    ensures ParserReady(s, ForgetAll(Success(fts)).value)
    ensures ValidLexemes(LexemesOf(s, ForgetAll(Success(fts)).value))
  {
    var ts := ForgetAll(Success(fts)).value;
    forall j | 0 <= j < |ts| && ts[j].kind == Reserved
      ensures ts[j].str < |s|
    {
      assert ts[j] == Forget(fts[j]);
      if j < |fts| - 1 {
        assert Lexer.WellFormed(s, fts[j]);
      }
    }
    assert ts[|ts| - 1] == Forget(fts[|fts| - 1]);
    assert LexemesOf(s, ts)[|ts| - 1] == LEnd;
  }

  class Parser {
    const input: string
    const tokens: seq<Token>
    var pos: nat

    ghost predicate Valid()
      reads this
    {
      ParserReady(input, tokens) && pos < |tokens|
    }

    constructor (s: string, ts: seq<Token>)
      requires ParserReady(s, ts)
      ensures input == s && tokens == ts && pos == 0
      ensures Valid()
    {
      input := s;
      tokens := ts;
      pos := 0;
    }

    ghost function Lexemes(): (lx: seq<Lexeme>)
      requires ParserReady(input, tokens)
      ensures ValidLexemes(lx) && |lx| == |tokens|
    {
      LexemesOf(input, tokens)
    }

    ghost predicate Agrees(r: Result<Node, nat>, spec: PResult)
      reads this
      requires Valid()
    {
      match spec
      case Success(Parsed(n, q)) => r == Success(n) && pos == q
      case Failure(i) => i < |tokens| && r == Failure(tokens[i].str)
    }

    /** consume_reserved(op): the current token is RESERVED and its first
        character is op. */
    method ConsumeReserved(op: char) returns (b: bool)
      requires Valid()
      modifies this
      ensures Valid()
      ensures b <==> Lexemes()[old(pos)] == LOp([op])
      ensures pos == if b then old(pos) + 1 else old(pos)
    {
      var t := tokens[pos];
      if t.kind != Reserved || input[t.str] != op {
        return false;
      }
      pos := pos + 1;
      return true;
    }

    /** expect_reserved(op): as consume_reserved, but a failure at the
        current token's offset when it does not match. */
    method ExpectReserved(op: char) returns (r: Outcome<nat>)
      requires Valid()
      modifies this
      ensures Valid()
      ensures r.Pass? <==> ExpectsChar(Lexemes()[old(pos)], op)
      ensures r.Pass? ==> pos == old(pos) + 1
      ensures r.Fail? ==> r.error == tokens[old(pos)].str && pos == old(pos)
    {
      var t := tokens[pos];
      if t.kind != Reserved || input[t.str] != op {
        return Fail(t.str);
      }
      pos := pos + 1;
      return Pass;
    }

    /** expect_number: the value of the current NUM token, or a failure at
        its offset. */
    method ExpectNumber() returns (r: Result<int, nat>)
      requires Valid()
      modifies this
      ensures Valid()
      ensures r.Success? <==> Lexemes()[old(pos)].LNum?
      ensures r.Success? ==> r.value == Lexemes()[old(pos)].val && pos == old(pos) + 1
      ensures r.Failure? ==> r.error == tokens[old(pos)].str && pos == old(pos)
    {
      var t := tokens[pos];
      if t.kind != TokenKind.Num {
        return Failure(t.str);
      }
      pos := pos + 1;
      return Success(t.val);
    }

    /** at_end: the cursor is on the EOF. */
    function AtEnd(): (b: bool)
      reads this
      requires Valid()
      ensures b <==> Lexemes()[pos] == LEnd
    {
      tokens[pos].kind == Eof
    }

    /** primary = "(" expr ")" | num */
    method Primary() returns (r: Result<Node, nat>)
      requires Valid()
      modifies this
      ensures Valid()
      ensures Agrees(r, EPrimary(Lexemes(), old(pos)))
      decreases |tokens| - pos, 0
    {
      var open := ConsumeReserved('(');
      if open {
        r := Expr();
        if r.Failure? {
          return;
        }
        var closed := ExpectReserved(')');
        if closed.Fail? {
          return Failure(closed.error);
        }
        return;
      }
      var v := ExpectNumber();
      if v.Failure? {
        return Failure(v.error);
      }
      return Success(Node.Num(v.value));
    }

    /** The consume_reserved calls at the head of mul's loop, in their order:
        '*', '/'. It consumes the first that matches and tells which operator it was. */
    method MulOperator() returns (found: Option<(BinOp, bool)>)
      requires Valid()
      modifies this
      ensures Valid()
      ensures found == LevelOp(1, Lexemes()[old(pos)])
      ensures pos == if found.Some? then old(pos) + 1 else old(pos)
    {
      MulOps(Lexemes()[pos]);
      var b := ConsumeReserved('*');
      if b {
        return Some((BinOp.Mul, false));
      }
      b := ConsumeReserved('/');
      if b {
        return Some((Div, false));
      }
      return None;
    }

    /** mul = primary ("*" primary | "/" primary)* */
    method Mul() returns (r: Result<Node, nat>)
      requires Valid()
      modifies this
      ensures Valid()
      ensures Agrees(r, ELevel(Lexemes(), old(pos), 1))
      decreases |tokens| - pos, 1
    {
      ghost var p0 := pos;
      r := Primary();
      if r.Failure? {
        return;
      }
      var node := r.value;
      while true
        invariant Valid() && p0 < pos
        invariant ArithTree(node)
        invariant ELevel(Lexemes(), p0, 1) == ELoop(Lexemes(), 1, node, pos)
        decreases |tokens| - pos
      {
        ghost var q := pos;
        var found := MulOperator();
        if found.None? {
          ELoopExit(Lexemes(), 1, node, q);
          return Success(node);
        }
        var (op, _) := found.value;
        var rhs := Primary();
        if rhs.Failure? {
          ELoopFails(Lexemes(), 1, node, q, op);
          return rhs;
        }
        ELoopTurn(Lexemes(), 1, node, q, op, rhs.value, pos);
        node := Binary(op, node, rhs.value);
      }
    }

    /** The consume_reserved calls at the head of expr's loop, in their order:
        '+', '-'. It consumes the first that matches and tells which operator it was. */
    method ExprOperator() returns (found: Option<(BinOp, bool)>)
      requires Valid()
      modifies this
      ensures Valid()
      ensures found == LevelOp(2, Lexemes()[old(pos)])
      ensures pos == if found.Some? then old(pos) + 1 else old(pos)
    {
      AddOps(Lexemes()[pos]);
      var b := ConsumeReserved('+');
      if b {
        return Some((Add, false));
      }
      b := ConsumeReserved('-');
      if b {
        return Some((Sub, false));
      }
      return None;
    }

    /** expr = mul ("+" mul | "-" mul)* */
    method Expr() returns (r: Result<Node, nat>)
      requires Valid()
      modifies this
      ensures Valid()
      ensures Agrees(r, EExpr(Lexemes(), old(pos)))
      decreases |tokens| - pos, 2
    {
      ghost var p0 := pos;
      r := Mul();
      if r.Failure? {
        return;
      }
      var node := r.value;
      while true
        invariant Valid() && p0 < pos
        invariant ArithTree(node)
        invariant ELevel(Lexemes(), p0, 2) == ELoop(Lexemes(), 2, node, pos)
        decreases |tokens| - pos
      {
        ghost var q := pos;
        var found := ExprOperator();
        if found.None? {
          ELoopExit(Lexemes(), 2, node, q);
          return Success(node);
        }
        var (op, _) := found.value;
        var rhs := Mul();
        if rhs.Failure? {
          ELoopFails(Lexemes(), 2, node, q, op);
          return rhs;
        }
        ELoopTurn(Lexemes(), 2, node, q, op, rhs.value, pos);
        node := Binary(op, node, rhs.value);
      }
    }
  }
}
