/** What the parser of parse.c sees of the tokenizer's output: one lexeme
    per token, read from the input text. */
module TokenView {
  import opened Lexer
  import opened Grammar

  /** What the parser can see of token t of input s: a RESERVED token's
      whole text (memcmp over `len` characters in consume_reserved). The
      earlier stage's EarlyParser.LexemeOf has the same shape but keeps only
      the first character, as 9cc.c compares `str[0]` alone, and its tokens
      carry no length. */
  function LexemeOf(s: string, t: Token): Lexeme
    requires t.str + t.len <= |s|
  {
    match t.kind
    case Reserved => LOp(s[t.str..t.str + t.len])
    case Num => LNum(t.val)
    case Ident => LIdent
    case Eof => LEnd
  }

  predicate TokensFit(s: string, ts: seq<Token>) {
    forall j :: 0 <= j < |ts| ==> ts[j].str + ts[j].len <= |s|
  }

  function LexemesOf(s: string, ts: seq<Token>): (lx: seq<Lexeme>)
    requires TokensFit(s, ts)
    ensures |lx| == |ts|
    ensures forall j :: 0 <= j < |ts| ==> lx[j] == LexemeOf(s, ts[j])
  {
    seq(|ts|, j requires 0 <= j < |ts| => LexemeOf(s, ts[j]))
  }

  /** What the parser relies on: each token's text lies in the input, the
      list ends with EOF, and a RESERVED token has at least one character
      (expect_reserved reads the first one). */
  predicate ParserReady(s: string, ts: seq<Token>) {
    && TokensFit(s, ts)
    && |ts| > 0
    && ts[|ts| - 1].kind == Eof
    && (forall j :: 0 <= j < |ts| && ts[j].kind == Reserved ==> ts[j].len >= 1)
  }

  /** The tokenizer's output is ready for the parser, and what the parser
      sees of it ends with the EOF. */
  lemma TokenizationReady(s: string, ts: seq<Token>)
    requires Tokenization(s, 0, ts)
    ensures ParserReady(s, ts)
    ensures ValidLexemes(LexemesOf(s, ts))
  {
    WellFormedReady(s, ts);
  }

  lemma WellFormedReady(s: string, ts: seq<Token>)
    requires |ts| >= 1 && ts[|ts| - 1] == Token(Eof, |s|, 0, 0)
    requires forall j :: 0 <= j < |ts| - 1 ==> WellFormed(s, ts[j])
    ensures ParserReady(s, ts)
    ensures ValidLexemes(LexemesOf(s, ts))
  {
    forall j | 0 <= j < |ts|
      ensures ts[j].str + ts[j].len <= |s|
      ensures ts[j].kind == Reserved ==> ts[j].len >= 1
    {
      if j < |ts| - 1 {
        assert WellFormed(s, ts[j]);
      }
    }
    assert LexemesOf(s, ts)[|ts| - 1] == LEnd;
  }

  /** Parser.lexemes is the view of the parser's tokens. */
  predicate Viewed(s: string, ts: seq<Token>, lx: seq<Lexeme>) {
    && ParserReady(s, ts)
    && ValidLexemes(lx) && |lx| == |ts|
    && (forall j {:trigger LexemeOf(s, ts[j])} :: 0 <= j < |ts| ==> lx[j] == LexemeOf(s, ts[j]))
  }
}

/** parse.c: the recursive-descent parser over the global token cursor,
    made a class whose `pos` field is that cursor. Each parsing method is
    proved to do what the grammar function of its level says (module
    Grammar), and a failure reports the input offset of the token the
    cursor was on, where error_at puts its caret. */
module Parser {
  import opened Results
  import opened Lexer
  import opened Ast
  import opened Grammar
  import opened TokenView

  class Parser {
    const input: string
    const tokens: seq<Token>
    /** What the grammar sees of the tokens: lexemes[j] is LexemeOf(input,
        tokens[j]). */
    ghost const lexemes: seq<Lexeme>
    var pos: nat

    ghost predicate Valid()
      reads this
    {
      Viewed(input, tokens, lexemes) && pos < |tokens|
    }

    /** The cursor starts at the first token (main.c sets `token`). */
    constructor (s: string, ts: seq<Token>)
      requires ParserReady(s, ts)
      ensures input == s && tokens == ts && lexemes == LexemesOf(s, ts) && pos == 0
      ensures Valid()
    {
      input := s;
      tokens := ts;
      lexemes := LexemesOf(s, ts);
      pos := 0;
    }

    /** The method result r and the final cursor are what the grammar
        function says: the tree with the cursor after it, or a failure at
        the offset of the token the grammar fails on. */
    ghost predicate Agrees(r: Result<Node, nat>, spec: PResult)
      reads this
      requires Valid()
    {
      match spec
      case Success(Parsed(n, q)) => r == Success(n) && pos == q
      case Failure(i) => i < |tokens| && r == Failure(tokens[i].str)
    }

    /** consume_reserved: the current token is RESERVED and its text is op,
        in length and in every character. */
    method ConsumeReserved(op: string) returns (b: bool)
      requires Valid()
      modifies this
      ensures Valid()
      ensures b <==> lexemes[old(pos)] == LOp(op)
      ensures pos == if b then old(pos) + 1 else old(pos)
    {
      var t := tokens[pos];
      assert lexemes[pos] == LexemeOf(input, t);
      if t.kind != Reserved || |op| != t.len || input[t.str..t.str + t.len] != op {
        return false;
      }
      pos := pos + 1;
      return true;
    }

    /** expect_reserved: the current token is RESERVED and starts with op;
        otherwise a failure at its offset. */
    method ExpectReserved(op: char) returns (r: Outcome<nat>)
      requires Valid()
      modifies this
      ensures Valid()
      ensures r.Pass? <==> ExpectsChar(lexemes[old(pos)], op)
      ensures r.Pass? ==> pos == old(pos) + 1
      ensures r.Fail? ==> r.error == tokens[old(pos)].str && pos == old(pos)
    {
      var t := tokens[pos];
      assert lexemes[pos] == LexemeOf(input, t);
      if t.kind != Reserved || input[t.str] != op {
        return Fail(t.str);
      }
      pos := pos + 1;
      return Pass;
    }

    /** expect_number: the value of the current NUM token; otherwise (EOF
        included) a failure at its offset. */
    method ExpectNumber() returns (r: Result<int, nat>)
      requires Valid()
      modifies this
      ensures Valid()
      ensures r.Success? <==> lexemes[old(pos)].LNum?
      ensures r.Success? ==> r.value == lexemes[old(pos)].val && pos == old(pos) + 1
      ensures r.Failure? ==> r.error == tokens[old(pos)].str && pos == old(pos)
    {
      var t := tokens[pos];
      assert lexemes[pos] == LexemeOf(input, t);
      if t.kind != TokenKind.Num {
        return Failure(t.str);
      }
      pos := pos + 1;
      return Success(t.val);
    }

    /** at_end: the cursor is on the EOF. */
    function AtEnd(): (b: bool)
      reads this
      requires Valid()
      ensures b <==> lexemes[pos] == LEnd
    {
      assert lexemes[pos] == LexemeOf(input, tokens[pos]);
      tokens[pos].kind == Eof
    }

    /** primary = "(" expr ")" | num */
    method Primary() returns (r: Result<Node, nat>)
      requires Valid()
      modifies this
      ensures Valid()
      ensures Agrees(r, PPrimary(lexemes, old(pos)))
      decreases |tokens| - pos, 0
    {
      var open := ConsumeReserved("(");
      if open {
        r := Expr();
        if r.Failure? {
          return;
        }
        var closed := ExpectReserved(')');
        if closed.Fail? {
          return Failure(closed.error);
        }
        return;
      }
      var v := ExpectNumber();
      if v.Failure? {
        return Failure(v.error);
      }
      return Success(Node.Num(v.value));
    }

    /** unary = ("-" | "+")? primary */
    method Unary() returns (r: Result<Node, nat>)
      requires Valid()
      modifies this
      ensures Valid()
      ensures Agrees(r, PUnary(lexemes, old(pos)))
      decreases |tokens| - pos, 1
    {
      var plus := ConsumeReserved("+");
      if plus {
        r := Primary();
        return;
      }
      var minus := ConsumeReserved("-");
      if minus {
        r := Primary();
        if r.Failure? {
          return;
        }
        return Success(Binary(Sub, Node.Num(0), r.value));
      }
      r := Primary();
    }

    /** The chain of consume_reserved calls at the head of mul's loop,
        in its order: "*", "/". It consumes the first that matches and tells which
        operator it was. */
    method MulOperator() returns (found: Option<(BinOp, bool)>)
      requires Valid()
      modifies this
      ensures Valid()
      ensures found == LevelOp(1, lexemes[old(pos)])
      ensures pos == if found.Some? then old(pos) + 1 else old(pos)
    {
      MulOps(lexemes[pos]);
      var b := ConsumeReserved("*");
      if b {
        return Some((BinOp.Mul, false));
      }
      b := ConsumeReserved("/");
      if b {
        return Some((Div, false));
      }
      return None;
    }

    /** mul = unary ("*" unary | "/" unary)* */
    method Mul() returns (r: Result<Node, nat>)
      requires Valid()
      modifies this
      ensures Valid()
      ensures Agrees(r, PLevel(lexemes, old(pos), 1))
      decreases |tokens| - pos, 2
    {
      ghost var p0 := pos;
      LevelFirst(lexemes, p0, 1);
      r := Unary();
      if r.Failure? {
        return;
      }
      var node := r.value;
      while true
        invariant Valid() && p0 < pos
        invariant ParserTree(node)
        invariant PLevel(lexemes, p0, 1) == PLoop(lexemes, 1, node, pos)
        decreases |tokens| - pos
      {
        ghost var q := pos;
        var found := MulOperator();
        if found.None? {
          LoopExit(lexemes, 1, node, q);
          return Success(node);
        }
        var (op, _) := found.value;
        var rhs := Unary();
        if rhs.Failure? {
          LoopFails(lexemes, 1, node, q, op, false);
          return rhs;
        }
        LoopTurn(lexemes, 1, node, q, op, false, rhs.value, pos);
        node := Binary(op, node, rhs.value);
      }
    }

    /** The chain of consume_reserved calls at the head of add's loop,
        in its order: "+", "-". It consumes the first that matches and tells which
        operator it was. */
    method AddOperator() returns (found: Option<(BinOp, bool)>)
      requires Valid()
      modifies this
      ensures Valid()
      ensures found == LevelOp(2, lexemes[old(pos)])
      ensures pos == if found.Some? then old(pos) + 1 else old(pos)
    {
      AddOps(lexemes[pos]);
      var b := ConsumeReserved("+");
      if b {
        return Some((BinOp.Add, false));
      }
      b := ConsumeReserved("-");
      if b {
        return Some((Sub, false));
      }
      return None;
    }

    /** add = mul ("+" mul | "-" mul)* */
    method Add() returns (r: Result<Node, nat>)
      requires Valid()
      modifies this
      ensures Valid()
      ensures Agrees(r, PLevel(lexemes, old(pos), 2))
      decreases |tokens| - pos, 3
    {
      ghost var p0 := pos;
      LevelFirst(lexemes, p0, 2);
      r := Mul();
      if r.Failure? {
        return;
      }
      var node := r.value;
      while true
        invariant Valid() && p0 < pos
        invariant ParserTree(node)
        invariant PLevel(lexemes, p0, 2) == PLoop(lexemes, 2, node, pos)
        decreases |tokens| - pos
      {
        ghost var q := pos;
        var found := AddOperator();
        if found.None? {
          LoopExit(lexemes, 2, node, q);
          return Success(node);
        }
        var (op, _) := found.value;
        var rhs := Mul();
        if rhs.Failure? {
          LoopFails(lexemes, 2, node, q, op, false);
          return rhs;
        }
        LoopTurn(lexemes, 2, node, q, op, false, rhs.value, pos);
        node := Binary(op, node, rhs.value);
      }
    }

    /** The chain of consume_reserved calls at the head of relational's loop,
        in its order: "<=", ">=", "<", ">". It consumes the first that matches
        and tells which operator it was and whether the operands swap. */
    method RelationalOperator() returns (found: Option<(BinOp, bool)>)
      requires Valid()
      modifies this
      ensures Valid()
      ensures found == LevelOp(3, lexemes[old(pos)])
      ensures pos == if found.Some? then old(pos) + 1 else old(pos)
    {
      RelationalOps(lexemes[pos]);
      var b := ConsumeReserved("<=");
      if b {
        return Some((Lte, false));
      }
      b := ConsumeReserved(">=");
      if b {
        return Some((Lte, true));
      }
      b := ConsumeReserved("<");
      if b {
        return Some((Lt, false));
      }
      b := ConsumeReserved(">");
      if b {
        return Some((Lt, true));
      }
      return None;
    }

    /** relational = add ("<" add | "<=" add | ">" add | ">=" add)*, where
        "a > b" builds LT(b, a) and "a >= b" builds LTE(b, a). */
    method Relational() returns (r: Result<Node, nat>)
      requires Valid()
      modifies this
      ensures Valid()
      ensures Agrees(r, PLevel(lexemes, old(pos), 3))
      decreases |tokens| - pos, 4
    {
      ghost var p0 := pos;
      LevelFirst(lexemes, p0, 3);
      r := Add();
      if r.Failure? {
        return;
      }
      var node := r.value;
      while true
        invariant Valid() && p0 < pos
        invariant ParserTree(node)
        invariant PLevel(lexemes, p0, 3) == PLoop(lexemes, 3, node, pos)
        decreases |tokens| - pos
      {
        ghost var q := pos;
        var found := RelationalOperator();
        if found.None? {
          LoopExit(lexemes, 3, node, q);
          return Success(node);
        }
        var (op, swapped) := found.value;
        var other := Add();
        if other.Failure? {
          LoopFails(lexemes, 3, node, q, op, swapped);
          return other;
        }
        LoopTurn(lexemes, 3, node, q, op, swapped, other.value, pos);
        node := if swapped then Binary(op, other.value, node) else Binary(op, node, other.value);
      }
    }

    /** The chain of consume_reserved calls at the head of equality's loop,
        in its order: "==", "!=". It consumes the first that matches and tells which
        operator it was. */
    method EqualityOperator() returns (found: Option<(BinOp, bool)>)
      requires Valid()
      modifies this
      ensures Valid()
      ensures found == LevelOp(4, lexemes[old(pos)])
      ensures pos == if found.Some? then old(pos) + 1 else old(pos)
    {
      EqualityOps(lexemes[pos]);
      var b := ConsumeReserved("==");
      if b {
        return Some((Eq, false));
      }
      b := ConsumeReserved("!=");
      if b {
        return Some((Neq, false));
      }
      return None;
    }

    /** equality = relational ("==" relational | "!=" relational)* */
    method Equality() returns (r: Result<Node, nat>)
      requires Valid()
      modifies this
      ensures Valid()
      ensures Agrees(r, PLevel(lexemes, old(pos), 4))
      decreases |tokens| - pos, 5
    {
      ghost var p0 := pos;
      LevelFirst(lexemes, p0, 4);
      r := Relational();
      if r.Failure? {
        return;
      }
      var node := r.value;
      while true
        invariant Valid() && p0 < pos
        invariant ParserTree(node)
        invariant PLevel(lexemes, p0, 4) == PLoop(lexemes, 4, node, pos)
        decreases |tokens| - pos
      {
        ghost var q := pos;
        var found := EqualityOperator();
        if found.None? {
          LoopExit(lexemes, 4, node, q);
          return Success(node);
        }
        var (op, _) := found.value;
        var rhs := Relational();
        if rhs.Failure? {
          LoopFails(lexemes, 4, node, q, op, false);
          return rhs;
        }
        LoopTurn(lexemes, 4, node, q, op, false, rhs.value, pos);
        node := Binary(op, node, rhs.value);
      }
    }

    /** expr = equality */
    method Expr() returns (r: Result<Node, nat>)
      requires Valid()
      modifies this
      ensures Valid()
      ensures Agrees(r, PExpr(lexemes, old(pos)))
      decreases |tokens| - pos, 6
    {
      r := Equality();
    }
  }
}
