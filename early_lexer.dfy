/** The tokenizer of the earlier, self-contained stage (9cc.c). Its token
    record has no length; its only operators are the six one-character
    ones. White space, digits and strtol are as in the final stage. */
module EarlyLexer {
  import opened Results
  import Lexer

  /** The kinds of 9cc.c. */
  datatype TokenKind = Reserved | Num | Eof

  /** The record of 9cc.c: kind, start in the input, value of a NUM. */
  datatype Token = Token(kind: TokenKind, str: nat, val: int)

  /** The six characters that tokenize of 9cc.c accepts as operators:
      + - * and / and the two parentheses. */
  predicate IsPunct(c: char) {
    c == '+' || c == '-' || c == '*' || c == '/' || c == '(' || c == ')'
  }

  /** What tokenizing s from index i yields: the tokens, or the index of the
      character that cannot start a token. */
  function Scan(s: string, i: nat): Result<seq<Token>, nat>
    requires i <= |s|
    decreases |s| - i
  {
    if i == |s| then Success([Token(Eof, i, 0)])
    else if Lexer.IsSpace(s[i]) then Scan(s, i + 1)
    else if IsPunct(s[i]) then Prepend(Token(Reserved, i, 0), Scan(s, i + 1))
    else if Lexer.IsDigit(s[i]) then
      var n := Lexer.DigitRun(s, i);
      Prepend(Token(Num, i, Lexer.DecimalValue(s[i..i + n])), Scan(s, i + n))
    else Failure(i)
  }

  /** A character the tokenizer accepts. */
  predicate Accepted(c: char) {
    Lexer.IsSpace(c) || Lexer.IsDigit(c) || IsPunct(c)
  }

  /** Tokenizing succeeds exactly when every character is white space, a
      digit or an IsPunct character; otherwise it fails at the first character
      that is none of these. */
  lemma {:induction false} ScanSucceedsIff(s: string, i: nat)
    requires i <= |s|
    ensures Scan(s, i).Success? <==> forall k :: i <= k < |s| ==> Accepted(s[k])
    ensures Scan(s, i).Failure? ==>
              var e := Scan(s, i).error;
              i <= e < |s| && !Accepted(s[e]) && forall k :: i <= k < e ==> Accepted(s[k])
    decreases |s| - i
  {
    if i == |s| {
    } else if Lexer.IsSpace(s[i]) || IsPunct(s[i]) {
      ScanSucceedsIff(s, i + 1);
    } else if Lexer.IsDigit(s[i]) {
      ScanSucceedsIff(s, i + Lexer.DigitRun(s, i));
    }
  }

  /** The final stage's token, without its length. */
  function Forget(t: Lexer.Token): Token {
    Token(match t.kind
          case Reserved => Reserved
          case Num => Num
          case Ident => Eof  // unreachable: no tokenizer produces Ident
          case Eof => Eof,
          t.str, t.val)
  }

  function ForgetAll(r: Result<seq<Lexer.Token>, nat>): Result<seq<Token>, nat> {
    match r
    case Success(ts) => Success(seq(|ts|, j requires 0 <= j < |ts| => Forget(ts[j])))
    case Failure(p) => Failure(p)
  }

  /** The final tokenizer extends this one: on an input without any of
      the characters = ! < and >, the two produce the same tokens, once lengths are dropped, or
      fail at the same place. */
  lemma {:induction false} FinalStageExtends(s: string, i: nat)
    requires i <= |s|
    requires forall k :: i <= k < |s| ==> !Lexer.OpLead(s[k])
    ensures Scan(s, i) == ForgetAll(Lexer.Scan(s, i))
    decreases |s| - i
  {
    if i == |s| {
      assert ForgetAll(Lexer.Scan(s, i)).value == [Token(Eof, i, 0)];
    } else if Lexer.IsSpace(s[i]) {
      FinalStageExtends(s, i + 1);
    } else if IsPunct(s[i]) {
      FinalStageExtends(s, i + 1);
      PunctExtends(s, i);
    } else if Lexer.IsDigit(s[i]) {
      FinalStageExtends(s, i + Lexer.DigitRun(s, i));
      NumberExtends(s, i);
    } else {
      assert !Lexer.IsPunct(s[i]);
    }
  }

  lemma PunctExtends(s: string, i: nat)
    requires i < |s| && IsPunct(s[i])
    requires Scan(s, i + 1) == ForgetAll(Lexer.Scan(s, i + 1))
    ensures Scan(s, i) == ForgetAll(Lexer.Scan(s, i))
  {
    assert !Lexer.StartsTwoCharOp(s, i);
    ForgetPrepend(Lexer.Token(Lexer.Reserved, i, 1, 0), Lexer.Scan(s, i + 1));
  }

  lemma NumberExtends(s: string, i: nat)
    requires i < |s| && Lexer.IsDigit(s[i])
    requires Scan(s, i + Lexer.DigitRun(s, i)) == ForgetAll(Lexer.Scan(s, i + Lexer.DigitRun(s, i)))
    ensures Scan(s, i) == ForgetAll(Lexer.Scan(s, i))
  {
    var n := Lexer.DigitRun(s, i);
    assert !Lexer.StartsTwoCharOp(s, i);
    ForgetPrepend(Lexer.Token(Lexer.Num, i, n, Lexer.DecimalValue(s[i..i + n])), Lexer.Scan(s, i + n));
  }

  lemma ForgetPrepend(t: Lexer.Token, r: Result<seq<Lexer.Token>, nat>)
    ensures ForgetAll(Prepend(t, r)) == Prepend(Forget(t), ForgetAll(r))
  {
    if r.Success? {
      var ts := r.value;
      assert ForgetAll(Prepend(t, r)).value == [Forget(t)] + ForgetAll(r).value;
    }
  }

  /** Every successful scan is the final stage's tokenization (section by
      section: skipped white space, one-character operators, maximal digit
      runs with their values, the EOF at the end) with the lengths dropped. */
  lemma ScanSound(s: string)
    ensures Scan(s, 0).Success? ==>
              && Lexer.Scan(s, 0).Success?
              && Lexer.Tokenization(s, 0, Lexer.Scan(s, 0).value)
              && Scan(s, 0) == ForgetAll(Lexer.Scan(s, 0))
  {
    ScanSucceedsIff(s, 0);
    if Scan(s, 0).Success? {
      forall k | 0 <= k < |s|
        ensures !Lexer.OpLead(s[k])
      {
        assert Accepted(s[k]);
      }
      FinalStageExtends(s, 0);
      Lexer.ScanSound(s, 0);
    }
  }

  /** The comparison characters of the final stage are not tokens here. */
  lemma ComparisonFails(s: string, k: nat)
    requires k < |s| && Lexer.OpLead(s[k])
    ensures Scan(s, 0).Failure?
  {
    ScanSucceedsIff(s, 0);
    assert !Accepted(s[k]);
  }

  /** tokenize of 9cc.c: the scanning loop, appending each new token. */
  method Tokenize(s: string) returns (r: Result<seq<Token>, nat>)
    ensures r == Scan(s, 0)
    ensures r.Failure? ==> r.error < |s| && !Accepted(s[r.error])
  {
    var toks: seq<Token> := [];
    var i := 0;
    if Scan(s, 0).Success? {
      assert toks + Scan(s, 0).value == Scan(s, 0).value;
    }
    while i < |s|
      invariant i <= |s|
      invariant Scan(s, 0) == Glue(toks, Scan(s, i))
      decreases |s| - i
    {
      if Lexer.IsSpace(s[i]) {
        i := i + 1;
        continue;
      }
      if IsPunct(s[i]) {
        GlueAppend(toks, Token(Reserved, i, 0), Scan(s, i + 1));
        toks := toks + [Token(Reserved, i, 0)];
        i := i + 1;
        continue;
      }
      if Lexer.IsDigit(s[i]) {
        var val, end := Lexer.StrToL(s, i);
        GlueAppend(toks, Token(Num, i, val), Scan(s, end));
        toks := toks + [Token(Num, i, val)];
        i := end;
        continue;
      }
      ScanSucceedsIff(s, 0);
      return Failure(i);
    }
    toks := toks + [Token(Eof, i, 0)];
    return Success(toks);
  }
}
