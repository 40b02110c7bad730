/** The tokenizer of the final stage (tokenize.c). The input is the text of
    the C string handed to `tokenize`, so it holds no NUL character; a token
    points back into it by a start index `str` and a length `len`, as the
    C record does. */
module Lexer {
  import opened Results

  /** The kinds of 9cc.h. No tokenizer ever produces Ident. */
  datatype TokenKind = Reserved | Ident | Num | Eof

  /** The record of 9cc.h: kind, start in the input, length, value of a NUM.
      calloc leaves `val` at 0 for every token that is not a number. */
  datatype Token = Token(kind: TokenKind, str: nat, len: nat, val: int)

  /** isspace in the C locale. */
  predicate IsSpace(c: char) {
    c == ' ' || ('\t' <= c <= '\r')
  }

  /** isdigit in the C locale. */
  predicate IsDigit(c: char) {
    '0' <= c <= '9'
  }

  function DigitValue(c: char): (d: nat)
    requires IsDigit(c)
    ensures d < 10
  {
    c as int - '0' as int
  }

  predicate AllDigits(d: string) {
    forall k :: 0 <= k < |d| ==> IsDigit(d[k])
  }

  /** The value of a decimal numeral, most significant digit first. */
  function DecimalValue(d: string): nat
    requires AllDigits(d)
  {
    if |d| == 0 then 0 else DecimalValue(d[..|d| - 1]) * 10 + DigitValue(d[|d| - 1])
  }

  /** starts_with: compares q with the start of p one character at a time,
      as memcmp over strlen(q) bytes does. */
  function StartsWith(p: string, q: string): (b: bool)
    ensures b <==> |q| <= |p| && p[..|q|] == q
  {
    if |q| == 0 then true
    else if |p| == 0 then false
    else
      assert |q| <= |p| && p[..|q|] == q <==> p[0] == q[0] && |q[1..]| <= |p[1..]| && p[1..][..|q[1..]|] == q[1..] by {
        if |q| <= |p| && p[0] == q[0] {
          assert p[..|q|] == [p[0]] + p[1..][..|q[1..]|];
          assert q == [q[0]] + q[1..];
        }
      }
      p[0] == q[0] && StartsWith(p[1..], q[1..])
  }

  /** The four operators that are matched before any single character. */
  predicate IsTwoCharOp(t: string) {
    t == "==" || t == "!=" || t == ">=" || t == "<="
  }

  /** The first characters of the two-character operators; each of them is
      followed by '='. */
  predicate OpLead(c: char) {
    c == '=' || c == '!' || c == '<' || c == '>'
  }

  /** A two-character operator starts at i. */
  predicate StartsTwoCharOp(s: string, i: nat) {
    i + 1 < |s| && OpLead(s[i]) && s[i + 1] == '='
  }

  /** The four starts_with tests of tokenize, in its order, hold exactly when
      a two-character operator starts at i, and the text is then that
      operator. */
  lemma TwoCharOpMatch(s: string, i: nat)
    requires i <= |s|
    ensures (StartsWith(s[i..], "==") || StartsWith(s[i..], "!=") ||
             StartsWith(s[i..], ">=") || StartsWith(s[i..], "<=")) <==> StartsTwoCharOp(s, i)
    ensures StartsTwoCharOp(s, i) ==> IsTwoCharOp(s[i..i + 2])
  {
    if i + 1 < |s| {
      assert s[i..][..2] == s[i..i + 2] == [s[i], s[i + 1]];
    }
  }

  /** The eight characters + - * / ( ) < > that tokenize finds with strchr
      (c is never NUL here): each forms a token of length 1. */
  predicate IsPunct(c: char) {
    c == '+' || c == '-' || c == '*' || c == '/' || c == '(' || c == ')' || c == '<' || c == '>'
  }

  /** The length of the run of digits that starts at i. */
  function DigitRun(s: string, i: nat): (n: nat)
    requires i <= |s|
    ensures i + n <= |s|
    ensures forall k :: i <= k < i + n ==> IsDigit(s[k])
    ensures i + n == |s| || !IsDigit(s[i + n])
    decreases |s| - i
  {
    if i < |s| && IsDigit(s[i]) then 1 + DigitRun(s, i + 1) else 0
  }

  /** strtol(p, &p, 10) called at a digit: reads the maximal run of digits and
      returns its value and the index just past it. */
  method StrToL(s: string, i: nat) returns (val: nat, end: nat)
    requires i <= |s|
    ensures end == i + DigitRun(s, i)
    ensures AllDigits(s[i..end]) && val == DecimalValue(s[i..end])
  {
    val, end := 0, i;
    while end < |s| && IsDigit(s[end])
      invariant i <= end <= |s|
      invariant DigitRun(s, i) == (end - i) + DigitRun(s, end)
      invariant AllDigits(s[i..end]) && val == DecimalValue(s[i..end])
      decreases |s| - end
    {
      assert s[i..end + 1][..end - i] == s[i..end];
      val := val * 10 + DigitValue(s[end]);
      end := end + 1;
    }
  }

  /** What tokenizing s from index i yields: the tokens, or the index of the
      character that cannot start a token. */
  function Scan(s: string, i: nat): Result<seq<Token>, nat>
    requires i <= |s|
    decreases |s| - i
  {
    if i == |s| then Success([Token(Eof, i, 0, 0)])
    else if IsSpace(s[i]) then Scan(s, i + 1)
    else if StartsTwoCharOp(s, i) then Prepend(Token(Reserved, i, 2, 0), Scan(s, i + 2))
    else if IsPunct(s[i]) then Prepend(Token(Reserved, i, 1, 0), Scan(s, i + 1))
    else if IsDigit(s[i]) then
      var n := DigitRun(s, i);
      Prepend(Token(Num, i, n, DecimalValue(s[i..i + n])), Scan(s, i + n))
    else Failure(i)
  }

  /** Token t holds input position k. */
  predicate Covers(t: Token, k: int) {
    t.str <= k < t.str + t.len
  }

  /** What the tokenizer promises of each token before the final EOF: it lies
      inside the input; a RESERVED token is a two-character operator, or one
      IsPunct character that does not start a two-character operator; a NUM
      token is a maximal run of digits whose value it carries. */
  predicate WellFormed(s: string, t: Token) {
    && t.str + t.len <= |s|
    && match t.kind
       case Reserved =>
         && t.val == 0
         && ((t.len == 2 && StartsTwoCharOp(s, t.str))
             || (t.len == 1 && IsPunct(s[t.str]) && !StartsTwoCharOp(s, t.str)))
       case Num =>
         && t.len >= 1
         && AllDigits(s[t.str..t.str + t.len])
         && (t.str + t.len == |s| || !IsDigit(s[t.str + t.len]))
         && t.val == DecimalValue(s[t.str..t.str + t.len])
       case Ident => false
       case Eof => false
  }

  /** ts is a tokenization of s from index i: exactly one EOF token, last, of
      length 0 at the end of the input; every other token well formed; tokens
      in strictly increasing, non-overlapping order from i on; and every
      character that is not white space inside some token. */
  ghost predicate Tokenization(s: string, i: nat, ts: seq<Token>) {
    && |ts| >= 1
    && ts[|ts| - 1] == Token(Eof, |s|, 0, 0)
    && (forall j :: 0 <= j < |ts| - 1 ==> WellFormed(s, ts[j]))
    && i <= ts[0].str
    && Ordered(ts)
    && CoversFrom(s, i, ts)
  }

  /** Each token ends before the next one starts. */
  ghost predicate Ordered(ts: seq<Token>) {
    forall j, j' :: 0 <= j < j' < |ts| ==> ts[j].str + ts[j].len <= ts[j'].str
  }

  /** Every character from i on that is not white space lies inside one of
      the tokens before the last. */
  ghost predicate CoversFrom(s: string, i: nat, ts: seq<Token>) {
    forall k :: i <= k < |s| && !IsSpace(s[k]) ==> exists j :: 0 <= j < |ts| - 1 && Covers(ts[j], k)
  }

  /** Character p cannot start any token. */
  predicate BadAt(s: string, p: nat) {
    && p < |s|
    && !IsSpace(s[p])
    && !StartsTwoCharOp(s, p)
    && !IsPunct(s[p])
    && !IsDigit(s[p])
  }

  lemma PrependSound(s: string, t: Token, r: Result<seq<Token>, nat>)
    requires t.len >= 1 && WellFormed(s, t)
    requires r.Success? ==> Tokenization(s, t.str + t.len, r.value)
    ensures Prepend(t, r).Success? ==> Tokenization(s, t.str, Prepend(t, r).value)
  {
    if r.Success? {
      var ts := r.value;
      assert Prepend(t, r).value == [t] + ts;
      PrependOrdered(t, ts);
      PrependCovers(s, t, ts);
      assert ([t] + ts)[|ts|] == ts[|ts| - 1];
      forall j | 0 <= j < |ts|
        ensures WellFormed(s, ([t] + ts)[j])
      {
        if j > 0 {
          assert ([t] + ts)[j] == ts[j - 1];
        }
      }
    }
  }

  lemma PrependOrdered(t: Token, ts: seq<Token>)
    requires |ts| >= 1 && Ordered(ts) && t.str + t.len <= ts[0].str
    ensures Ordered([t] + ts)
  {
    var us := [t] + ts;
    forall j, j' | 0 <= j < j' < |us|
      ensures us[j].str + us[j].len <= us[j'].str
    {
      if j == 0 {
        assert us[j] == t;
        if j' > 1 {
          assert us[j'] == ts[j' - 1];
          assert ts[0].str + ts[0].len <= ts[j' - 1].str;
        }
      } else {
        assert us[j] == ts[j - 1] && us[j'] == ts[j' - 1];
      }
    }
  }

  lemma PrependCovers(s: string, t: Token, ts: seq<Token>)
    requires |ts| >= 1 && CoversFrom(s, t.str + t.len, ts)
    ensures CoversFrom(s, t.str, [t] + ts)
  {
    var us := [t] + ts;
    forall k | t.str <= k < |s| && !IsSpace(s[k])
      ensures exists j :: 0 <= j < |us| - 1 && Covers(us[j], k)
    {
      if k < t.str + t.len {
        assert Covers(us[0], k);
      } else {
        var j :| 0 <= j < |ts| - 1 && Covers(ts[j], k);
        assert us[j + 1] == ts[j];
      }
    }
  }

  lemma SkipSound(s: string, i: nat, r: Result<seq<Token>, nat>)
    requires i < |s| && IsSpace(s[i])
    requires r.Success? ==> Tokenization(s, i + 1, r.value)
    ensures r.Success? ==> Tokenization(s, i, r.value)
  {
  }

  /** Every successful scan is a tokenization. */
  lemma {:induction false} ScanSound(s: string, i: nat)
    requires i <= |s|
    ensures Scan(s, i).Success? ==> Tokenization(s, i, Scan(s, i).value)
    decreases |s| - i
  {
    if i == |s| {
    } else if IsSpace(s[i]) {
      ScanSound(s, i + 1);
      SkipSound(s, i, Scan(s, i + 1));
    } else if StartsTwoCharOp(s, i) {
      var t := Token(Reserved, i, 2, 0);
      assert Scan(s, i) == Prepend(t, Scan(s, i + 2));
      ScanSound(s, i + 2);
      PrependSound(s, t, Scan(s, i + 2));
    } else if IsPunct(s[i]) {
      var t := Token(Reserved, i, 1, 0);
      assert Scan(s, i) == Prepend(t, Scan(s, i + 1));
      ScanSound(s, i + 1);
      PrependSound(s, t, Scan(s, i + 1));
    } else if IsDigit(s[i]) {
      ScanSound(s, i + DigitRun(s, i));
      NumSound(s, i);
    }
  }

  /** The NUM step of ScanSound. */
  lemma NumSound(s: string, i: nat)
    requires i < |s| && !IsSpace(s[i]) && !StartsTwoCharOp(s, i) && !IsPunct(s[i]) && IsDigit(s[i])
    requires var r := Scan(s, i + DigitRun(s, i));
             r.Success? ==> Tokenization(s, i + DigitRun(s, i), r.value)
    ensures Scan(s, i).Success? ==> Tokenization(s, i, Scan(s, i).value)
  {
    var n := DigitRun(s, i);
    var t := Token(Num, i, n, DecimalValue(s[i..i + n]));
    assert Scan(s, i) == Prepend(t, Scan(s, i + n));
    PrependSound(s, t, Scan(s, i + n));
  }

  /** A failed scan names a character that cannot start a token; every
      such character it passed over before is the '=' ending a pair that
      starts just before it. */
  lemma {:induction false} ScanFailure(s: string, i: nat)
    requires i <= |s|
    ensures Scan(s, i).Failure? ==> i <= Scan(s, i).error && BadAt(s, Scan(s, i).error)
    ensures var r := Scan(s, i);
            r.Failure? ==> forall k :: i <= k < r.error && BadAt(s, k) ==> i < k && StartsTwoCharOp(s, k - 1)
    decreases |s| - i
  {
    if i == |s| {
    } else if IsSpace(s[i]) {
      ScanFailure(s, i + 1);
    } else if StartsTwoCharOp(s, i) {
      ScanFailure(s, i + 2);
    } else if IsPunct(s[i]) {
      ScanFailure(s, i + 1);
    } else if IsDigit(s[i]) {
      ScanFailure(s, i + DigitRun(s, i));
    }
  }

  /** The scan from i meets a two-character operator at k: one starts at k,
      and the character before it (if the scan started earlier) is not one
      of = ! < >, so it cannot have been taken into an earlier pair. */
  predicate PairAt(s: string, i: nat, k: nat) {
    StartsTwoCharOp(s, k) && (k == i || (i < k && !OpLead(s[k - 1])))
  }

  /** Character k is white space, a digit, an operator character that does
      not start a pair, or one of the two characters of a pair the scan
      meets. */
  predicate Accepted(s: string, i: nat, k: nat)
    requires k < |s|
  {
    || IsSpace(s[k]) || IsDigit(s[k])
    || (IsPunct(s[k]) && !StartsTwoCharOp(s, k))
    || PairAt(s, i, k)
    || (i < k && PairAt(s, i, k - 1))
  }

  /** Moving the scan from i to j keeps every later character accepted,
      as long as the scan does not meet a pair just before j. */
  lemma AcceptedFrom(s: string, i: nat, j: nat)
    requires i < j <= |s| && !PairAt(s, i, j - 1)
    requires forall k :: i <= k < |s| ==> Accepted(s, i, k)
    ensures forall k :: j <= k < |s| ==> Accepted(s, j, k)
  {
    forall k | j <= k < |s|
      ensures Accepted(s, j, k)
    {
      assert Accepted(s, i, k);
    }
  }

  /** A sufficient condition: an input tokenizes when every character is
      white space, a digit, an operator character not starting a pair, or
      part of a pair "==", "!=", "<=" or ">=" that starts after a character
      other than = ! < >. It is not necessary ("1<<=2" tokenizes, though its
      '=' is not accepted); the exact condition is ScanIffTokenization. */
  lemma {:induction false} ScanSucceeds(s: string, i: nat)
    requires i <= |s|
    requires forall k :: i <= k < |s| ==> Accepted(s, i, k)
    ensures Scan(s, i).Success?
    decreases |s| - i
  {
    if i == |s| {
    } else {
      assert Accepted(s, i, i);
      if IsSpace(s[i]) {
        AcceptedFrom(s, i, i + 1);
        ScanSucceeds(s, i + 1);
      } else if StartsTwoCharOp(s, i) {
        AcceptedFrom(s, i, i + 2);
        ScanSucceeds(s, i + 2);
      } else if IsPunct(s[i]) {
        AcceptedFrom(s, i, i + 1);
        ScanSucceeds(s, i + 1);
      } else {
        var n := DigitRun(s, i);
        AcceptedFrom(s, i, i + n);
        ScanSucceeds(s, i + n);
      }
    }
  }

  /** The scan from i fails at a character that cannot start a token, or
      earlier, unless the character is the '=' of a pair starting just
      before it. */
  lemma {:induction false} ScanStopsBy(s: string, i: nat, k: nat)
    requires i <= k < |s| && BadAt(s, k)
    requires !(i < k && StartsTwoCharOp(s, k - 1))
    ensures Scan(s, i).Failure? && Scan(s, i).error <= k
    decreases |s| - i
  {
    if i < k {
      if IsSpace(s[i]) {
        ScanStopsBy(s, i + 1, k);
      } else if StartsTwoCharOp(s, i) {
        ScanStopsBy(s, i + 2, k);
      } else if IsPunct(s[i]) {
        ScanStopsBy(s, i + 1, k);
      } else if IsDigit(s[i]) {
        ScanStopsBy(s, i + DigitRun(s, i), k);
      }
    }
  }

  /** Moving the scan from i to j keeps the characters from j up to k
      accepted, and the scan still does not meet a pair just before k. */
  lemma AcceptedUpTo(s: string, i: nat, j: nat, k: nat)
    requires i < j <= k < |s| && !PairAt(s, i, j - 1)
    requires forall q :: i <= q < k ==> Accepted(s, i, q)
    requires !(i < k && PairAt(s, i, k - 1))
    ensures forall q :: j <= q < k ==> Accepted(s, j, q)
    ensures !(j < k && PairAt(s, j, k - 1))
  {
    forall q | j <= q < k
      ensures Accepted(s, j, q)
    {
      assert Accepted(s, i, q);
    }
    if j < k {
      assert Accepted(s, i, j);
    }
  }

  /** When every character before k is accepted and the character at k
      cannot start a token (and is not the end of a pair the scan meets),
      the scan fails exactly at k: the first character the loop cannot
      take is the one reported. */
  lemma {:induction false} ScanFailsAt(s: string, i: nat, k: nat)
    requires i <= k < |s| && BadAt(s, k)
    requires forall j :: i <= j < k ==> Accepted(s, i, j)
    requires !(i < k && PairAt(s, i, k - 1))
    ensures Scan(s, i) == Failure(k)
    decreases |s| - i
  {
    if i < k {
      assert Accepted(s, i, i);
      if IsSpace(s[i]) {
        AcceptedUpTo(s, i, i + 1, k);
        ScanFailsAt(s, i + 1, k);
      } else if StartsTwoCharOp(s, i) {
        AcceptedUpTo(s, i, i + 2, k);
        ScanFailsAt(s, i + 2, k);
      } else if IsPunct(s[i]) {
        AcceptedUpTo(s, i, i + 1, k);
        ScanFailsAt(s, i + 1, k);
      } else {
        var n := DigitRun(s, i);
        AcceptedUpTo(s, i, i + n, k);
        ScanFailsAt(s, i + n, k);
      }
    }
  }

  /** A maximal run of n >= 0 digits from i is the run DigitRun measures. */
  lemma {:induction false} DigitRunUnique(s: string, i: nat, n: nat)
    requires i + n <= |s|
    requires forall k :: i <= k < i + n ==> IsDigit(s[k])
    requires i + n == |s| || !IsDigit(s[i + n])
    ensures DigitRun(s, i) == n
    decreases n
  {
    if n > 0 {
      DigitRunUnique(s, i + 1, n - 1);
    }
  }

  /** In a tokenization from i, the token holding the non-blank character
      at i is the first one, and it starts at i. */
  lemma FirstTokenAt(s: string, i: nat, ts: seq<Token>)
    requires i < |s| && !IsSpace(s[i]) && Tokenization(s, i, ts)
    ensures |ts| >= 2 && ts[0].str == i && ts[0].len >= 1 && WellFormed(s, ts[0])
  {
    var j :| 0 <= j < |ts| - 1 && Covers(ts[j], i);
    assert WellFormed(s, ts[0]);
  }

  /** A tokenization without its first token is a tokenization from where
      that token ends. */
  lemma TailTokenization(s: string, i: nat, ts: seq<Token>)
    requires |ts| >= 2 && Tokenization(s, i, ts)
    ensures Tokenization(s, ts[0].str + ts[0].len, ts[1..])
  {
    var t := ts[0];
    var rest := ts[1..];
    assert rest[|rest| - 1] == ts[|ts| - 1];
    assert forall q :: 0 <= q < |rest| - 1 ==> rest[q] == ts[q + 1];
    assert t.str + t.len <= rest[0].str;
    forall k | t.str + t.len <= k < |s| && !IsSpace(s[k])
      ensures exists q :: 0 <= q < |rest| - 1 && Covers(rest[q], k)
    {
      var q :| 0 <= q < |ts| - 1 && Covers(ts[q], k);
      assert q > 0;
      assert rest[q - 1] == ts[q];
    }
  }

  /** A well-formed token at i is the token Scan takes at i. */
  lemma WellFormedIsScanned(s: string, t: Token)
    requires t.str < |s| && t.len >= 1 && WellFormed(s, t)
    ensures Scan(s, t.str) == Prepend(t, Scan(s, t.str + t.len))
  {
    if t.kind == Num {
      NumIsScanned(s, t);
    }
  }

  /** The NUM case of WellFormedIsScanned. */
  lemma NumIsScanned(s: string, t: Token)
    requires t.kind == Num && t.str < |s| && WellFormed(s, t)
    ensures Scan(s, t.str) == Prepend(t, Scan(s, t.str + t.len))
  {
    NumIsDigitRun(s, t);
  }

  /** A well-formed NUM token is the digit run that starts where it does. */
  lemma NumIsDigitRun(s: string, t: Token)
    requires t.kind == Num && t.str < |s| && WellFormed(s, t)
    ensures IsDigit(s[t.str]) && t.len == DigitRun(s, t.str)
  {
    var i := t.str;
    assert IsDigit(s[i..i + t.len][0]);
    forall k | i <= k < i + t.len
      ensures IsDigit(s[k])
    {
      assert s[i..i + t.len][k - i] == s[k];
    }
    DigitRunUnique(s, i, t.len);
  }

  /** The step of ScanComplete at a character that is not white space. */
  lemma ScanFirstToken(s: string, t: Token, rest: seq<Token>)
    requires t.str < |s| && t.len >= 1 && WellFormed(s, t)
    requires Scan(s, t.str + t.len) == Success(rest)
    ensures Scan(s, t.str) == Success([t] + rest)
  {
    WellFormedIsScanned(s, t);
  }

  /** No well-formed token starts at the end of the input or at white space. */
  lemma NoTokenAtBlank(s: string, t: Token)
    requires WellFormed(s, t) && t.len >= 1
    ensures t.str < |s| && !IsSpace(s[t.str])
  {
    if t.kind == Num {
      assert s[t.str..t.str + t.len][0] == s[t.str];
    }
  }

  /** A tokenization from a character that is not white space is the token
      starting there followed by a tokenization from that token's end. */
  lemma SplitFirstToken(s: string, i: nat, ts: seq<Token>) returns (t: Token, rest: seq<Token>)
    requires i < |s| && !IsSpace(s[i]) && Tokenization(s, i, ts)
    ensures ts == [t] + rest && t.str == i && t.len >= 1 && WellFormed(s, t)
    ensures i + t.len <= |s| && Tokenization(s, i + t.len, rest)
  {
    FirstTokenAt(s, i, ts);
    TailTokenization(s, i, ts);
    t, rest := ts[0], ts[1..];
    assert [t] + rest == ts;
  }

  /** A tokenization from the end of the input is the EOF alone. */
  lemma AtEndOnlyEof(s: string, ts: seq<Token>)
    requires Tokenization(s, |s|, ts)
    ensures ts == [Token(Eof, |s|, 0, 0)]
  {
    if |ts| > 1 {
      assert WellFormed(s, ts[0]);
      NoTokenAtBlank(s, ts[0]);
    }
  }

  /** A tokenization from a white-space character is one from the next. */
  lemma BlankSkipped(s: string, i: nat, ts: seq<Token>)
    requires i < |s| && IsSpace(s[i]) && Tokenization(s, i, ts)
    ensures Tokenization(s, i + 1, ts)
  {
    if |ts| > 1 {
      assert WellFormed(s, ts[0]);
      NoTokenAtBlank(s, ts[0]);
    }
  }

  /** Scanning is complete: whenever ts is a tokenization of s from i, the
      scan from i succeeds and yields exactly ts. So a tokenization is
      unique, and the scan fails only where none exists. */
  lemma {:induction false} ScanComplete(s: string, i: nat, ts: seq<Token>)
    requires i <= |s| && Tokenization(s, i, ts)
    ensures Scan(s, i) == Success(ts)
    decreases |s| - i, 1
  {
    if i == |s| {
      AtEndOnlyEof(s, ts);
    } else if IsSpace(s[i]) {
      ScanCompleteBlank(s, i, ts);
    } else {
      ScanCompleteToken(s, i, ts);
    }
  }

  /** ScanComplete at white space: the scan skips it. */
  lemma {:induction false} ScanCompleteBlank(s: string, i: nat, ts: seq<Token>)
    requires i < |s| && IsSpace(s[i]) && Tokenization(s, i, ts)
    ensures Scan(s, i) == Success(ts)
    decreases |s| - i, 0
  {
    BlankSkipped(s, i, ts);
    ScanComplete(s, i + 1, ts);
  }

  /** ScanComplete at the start of a token: the scan takes that token. */
  lemma {:induction false} ScanCompleteToken(s: string, i: nat, ts: seq<Token>)
    requires i < |s| && !IsSpace(s[i]) && Tokenization(s, i, ts)
    ensures Scan(s, i) == Success(ts)
    decreases |s| - i, 0
  {
    var t, rest := SplitFirstToken(s, i, ts);
    ScanComplete(s, i + t.len, rest);
    ScanFirstToken(s, t, rest);
  }

  /** Tokenizing succeeds exactly when the input has a tokenization, and it
      then yields that tokenization. */
  lemma ScanIffTokenization(s: string)
    ensures Scan(s, 0).Success? <==> exists ts :: Tokenization(s, 0, ts)
    ensures forall ts :: Tokenization(s, 0, ts) ==> Scan(s, 0) == Success(ts)
  {
    ScanSound(s, 0);
    forall ts | Tokenization(s, 0, ts)
      ensures Scan(s, 0) == Success(ts)
    {
      ScanComplete(s, 0, ts);
    }
  }

  /** "1<=2" is a number, the single operator "<=" and a number: the pair is
      never split into "<" and "=". */
  lemma LessEqualNotSplit(s: string)
    requires s == "1<=2"
    ensures Scan(s, 0) == Success([Token(Num, 0, 1, 1), Token(Reserved, 1, 2, 0),
                                   Token(Num, 3, 1, 2), Token(Eof, 4, 0, 0)])
  {
    var eof, two := Token(Eof, 4, 0, 0), Token(Num, 3, 1, 2);
    var le, one := Token(Reserved, 1, 2, 0), Token(Num, 0, 1, 1);
    assert DigitRun(s, 4) == 0 && DigitRun(s, 3) == 1;
    assert DecimalValue(s[3..4]) == 2 by { assert s[3..4] == "2"; }
    assert Scan(s, 4) == Success([eof]);
    assert Scan(s, 3) == Prepend(two, Success([eof]));
    assert Scan(s, 1) == Prepend(le, Success([two] + [eof]));
    assert DigitRun(s, 1) == 0 && DigitRun(s, 0) == 1;
    assert DecimalValue(s[0..1]) == 1 by { assert s[0..1] == "1"; }
    assert Scan(s, 0) == Prepend(one, Success([le] + ([two] + [eof])));
    assert [one] + ([le] + ([two] + [eof])) == [one, le, two, eof];
  }

  /** "<=a" fails at the letter, index 2, and not at the '=' before it,
      which ends the pair "<=" although it cannot start a token itself. */
  lemma FailsAfterPair(s: string)
    requires s == "<=a"
    ensures BadAt(s, 1) && Scan(s, 0) == Failure(2)
  {
    assert Accepted(s, 0, 0) && Accepted(s, 0, 1);
    ScanFailsAt(s, 0, 2);
  }

  /** The characters of a token are digits or operator characters. */
  lemma TokenChars(s: string, t: Token, k: nat)
    requires WellFormed(s, t) && Covers(t, k)
    ensures IsDigit(s[k]) || IsPunct(s[k]) || s[k] == '=' || s[k] == '!'
    ensures t.kind == Num ==> IsDigit(s[k])
    ensures s[k] == '!' ==> t.kind == Reserved && t.len == 2 && t.str == k && s[k + 1] == '='
    ensures s[k] == '=' && t.str == k ==> t.kind == Reserved && t.len == 2 && s[k + 1] == '='
    ensures s[k] == '=' && t.str < k ==> t.kind == Reserved && t.len == 2 && OpLead(s[k - 1])
  {
    if t.kind == Num {
      assert s[t.str..t.str + t.len][k - t.str] == s[k];
    } else if t.len == 2 {
      assert s[t.str..t.str + 2][k - t.str] == s[k];
      assert s[t.str..t.str + 2][0] == s[t.str];
      assert s[t.str..t.str + 2][1] == s[t.str + 1];
    }
  }

  /** A character outside white space, digits, IsPunct characters, '=' and
      '!' (a letter, say) makes tokenizing fail there or earlier, and
      exactly there when every character before it is accepted. */
  lemma ForeignCharFails(s: string, k: nat)
    requires k < |s|
    requires !(IsSpace(s[k]) || IsDigit(s[k]) || IsPunct(s[k]) || s[k] == '=' || s[k] == '!')
    ensures Scan(s, 0).Failure? && Scan(s, 0).error <= k
    ensures (forall j :: 0 <= j < k ==> Accepted(s, 0, j)) ==> Scan(s, 0) == Failure(k)
  {
    ScanStopsBy(s, 0, k);
    if forall j :: 0 <= j < k ==> Accepted(s, 0, j) {
      ScanFailsAt(s, 0, k);
    }
  }

  /** A '!' not followed by '=' makes tokenizing fail there or earlier, and
      exactly there when every character before it is accepted. */
  lemma LoneBangFails(s: string, k: nat)
    requires k < |s| && s[k] == '!'
    requires k + 1 == |s| || s[k + 1] != '='
    ensures Scan(s, 0).Failure? && Scan(s, 0).error <= k
    ensures (forall j :: 0 <= j < k ==> Accepted(s, 0, j)) ==> Scan(s, 0) == Failure(k)
  {
    ScanStopsBy(s, 0, k);
    if forall j :: 0 <= j < k ==> Accepted(s, 0, j) {
      ScanFailsAt(s, 0, k);
    }
  }

  /** A '=' that neither follows one of "=!<>" nor precedes another '=' (as in
      "1=2") makes tokenizing fail there or earlier, and exactly there when
      every character before it is accepted. */
  lemma LoneEqualsFails(s: string, k: nat)
    requires k < |s| && s[k] == '='
    requires k == 0 || !OpLead(s[k - 1])
    requires k + 1 == |s| || s[k + 1] != '='
    ensures Scan(s, 0).Failure? && Scan(s, 0).error <= k
    ensures (forall j :: 0 <= j < k ==> Accepted(s, 0, j)) ==> Scan(s, 0) == Failure(k)
  {
    ScanStopsBy(s, 0, k);
    if forall j :: 0 <= j < k ==> Accepted(s, 0, j) {
      ScanFailsAt(s, 0, k);
    }
  }

  /** One loop turn that appends token t and resumes at j keeps the loop's
      invariant, when t is what Scan takes at i. */
  lemma Advance(s: string, i: nat, toks: seq<Token>, t: Token, j: nat)
    requires i < j <= |s|
    requires Scan(s, i) == Prepend(t, Scan(s, j))
    ensures Glue(toks, Scan(s, i)) == Glue(toks + [t], Scan(s, j))
  {
    GlueAppend(toks, t, Scan(s, j));
  }

  /** The loop turn that reads a number with strtol keeps the invariant. */
  lemma NumAdvance(s: string, i: nat, toks: seq<Token>, val: nat, end: nat)
    requires i < |s| && !IsSpace(s[i]) && !StartsTwoCharOp(s, i) && !IsPunct(s[i]) && IsDigit(s[i])
    requires end == i + DigitRun(s, i) && val == DecimalValue(s[i..end])
    ensures i < end <= |s|
    ensures Glue(toks, Scan(s, i)) == Glue(toks + [Token(Num, i, end - i, val)], Scan(s, end))
  {
    Advance(s, i, toks, Token(Num, i, end - i, val), end);
  }

  /** tokenize: the scanning loop. Each new token is appended to the list
      (new_token); white space is skipped; the final EOF sits at the end. */
  method Tokenize(s: string) returns (r: Result<seq<Token>, nat>)
    ensures r == Scan(s, 0)
    ensures r.Success? ==> Tokenization(s, 0, r.value)
    ensures r.Failure? ==> BadAt(s, r.error)
  {
    var toks: seq<Token> := [];
    var i := 0;
    if Scan(s, 0).Success? {
      assert toks + Scan(s, 0).value == Scan(s, 0).value;
    }
    while i < |s|
      invariant i <= |s|
      invariant Scan(s, 0) == Glue(toks, Scan(s, i))
      decreases |s| - i
    {
      if IsSpace(s[i]) {
        assert Scan(s, i) == Scan(s, i + 1);
        i := i + 1;
        continue;
      }
      TwoCharOpMatch(s, i);
      if StartsWith(s[i..], "==") || StartsWith(s[i..], "!=") ||
         StartsWith(s[i..], ">=") || StartsWith(s[i..], "<=") {
        Advance(s, i, toks, Token(Reserved, i, 2, 0), i + 2);
        toks := toks + [Token(Reserved, i, 2, 0)];
        i := i + 2;
        continue;
      }
      if IsPunct(s[i]) {
        Advance(s, i, toks, Token(Reserved, i, 1, 0), i + 1);
        toks := toks + [Token(Reserved, i, 1, 0)];
        i := i + 1;
        continue;
      }
      if IsDigit(s[i]) {
        var val, end := StrToL(s, i);
        NumAdvance(s, i, toks, val, end);
        toks := toks + [Token(Num, i, end - i, val)];
        i := end;
        continue;
      }
      assert Scan(s, i) == Failure(i);
      return Failure(i);
    }
    toks := toks + [Token(Eof, i, 0, 0)];
    ScanSound(s, 0);
    return Success(toks);
  }
}
