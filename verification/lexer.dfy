/**
 * The scanner: turns the command-line argument into a token list that ends
 * in a single Eof token, or fails at the offset of the first character it
 * cannot place in a token.
 */
module Lexer {
  import opened Tokens

  datatype LexResult = Tokenized(toks: seq<Token>) | CannotTokenize(at: nat)

  /** Puts `prefix` in front of the tokens of a successful scan; a failure stays as it is. */
  function Prepend(prefix: seq<Token>, r: LexResult): LexResult {
    if r.Tokenized? then Tokenized(prefix + r.toks) else r
  }

  /**
   * The scan of `s` from offset `i` on, one character class per branch:
   * whitespace is skipped, `+`/`-` give a Reserved token, a digit gives a Num
   * token for its whole digit run, the terminator gives Eof, and anything
   * else fails at its offset.
   */
  function Lex(s: CString, i: nat): (r: LexResult)
    requires i <= |s|
    ensures r.Tokenized? ==> WellFormed(r.toks) && r.toks[|r.toks| - 1] == Token(Eof, 0, |s|)
    ensures r.CannotTokenize? ==> i <= r.at < |s|
    decreases |s| - i
  {
    if i == |s| then Tokenized([Token(Eof, 0, i)])
    else if IsSpace(s[i]) then Lex(s, i + 1)
    else if IsOp(s[i]) then Prepend([Token(Reserved, 0, i)], Lex(s, i + 1))
    else if IsDigit(s[i]) then
      var j := RunEnd(s, i);
      Prepend([Token(Num, DigitsValue(s[i..j]), i)], Lex(s, j))
    else CannotTokenize(i)
  }

  lemma PrependTwice(a: seq<Token>, b: seq<Token>, r: LexResult)
    ensures Prepend(a, Prepend(b, r)) == Prepend(a + b, r)
  {
    if r.Tokenized? {
      assert a + (b + r.toks) == (a + b) + r.toks;
    }
  }

  /**
   * `tokenize`: scans left to right with a moving offset `p`, appending each
   * new token to the list; the list is closed with an Eof token at the
   * terminator. The test `*p` is `p < |s|`, since a NUL-free input has its
   * terminator exactly at the end (`CharAtTerminator`).
   */
  method Tokenize(s: CString) returns (r: LexResult)
    ensures r == Lex(s, 0)
  {
    var p := 0;
    var toks: seq<Token> := [];
    while p < |s|
      invariant p <= |s|
      invariant Lex(s, 0) == Prepend(toks, Lex(s, p))
      decreases |s| - p
    {
      if IsSpace(s[p]) {
        p := p + 1;
        continue;
      }
      if s[p] == '+' || s[p] == '-' {
        PrependTwice(toks, [Token(Reserved, 0, p)], Lex(s, p + 1));
        toks := toks + [Token(Reserved, 0, p)];
        p := p + 1;
        continue;
      }
      if IsDigit(s[p]) {
        var q := RunEnd(s, p);
        PrependTwice(toks, [Token(Num, DigitsValue(s[p..q]), p)], Lex(s, q));
        toks := toks + [Token(Num, DigitsValue(s[p..q]), p)];
        p := q;
        continue;
      }
      return CannotTokenize(p);
    }
    toks := toks + [Token(Eof, 0, p)];
    r := Tokenized(toks);
  }

  /**
   * The scan from `i` yields the lone Eof token exactly when nothing but
   * whitespace is left; in particular the empty input scans to `[Eof]`.
   */
  lemma {:induction false} LexBlank(s: CString, i: nat)
    requires i <= |s|
    ensures Lex(s, i) == Tokenized([Token(Eof, 0, |s|)]) <==> forall k :: i <= k < |s| ==> IsSpace(s[k])
    decreases |s| - i
  {
    if i < |s| {
      LexBlank(s, i + 1);
    }
  }

  /** Offsets at `lo` or later, strictly increasing. */
  predicate Ordered(t: seq<Token>, lo: nat) {
    forall a, b :: 0 <= a < b < |t| ==> lo <= t[a].str < t[b].str
  }

  lemma OrderedCons(x: Token, rest: seq<Token>, lo: nat, next: nat)
    requires lo <= x.str < next
    requires Ordered(rest, next)
    requires |rest| > 0 ==> next <= rest[0].str
    ensures Ordered([x] + rest, lo)
  {
    var t := [x] + rest;
    forall a, b | 0 <= a < b < |t| ensures lo <= t[a].str < t[b].str {
      assert t[b] == rest[b - 1];
      if a > 0 {
        assert t[a] == rest[a - 1];
      } else if b > 1 {
        assert rest[0].str < rest[b - 1].str;
      }
    }
  }

  /** Every token of a successful scan from `i` stands at an offset `i` or later, strictly increasing. */
  lemma {:induction false} LexOrdered(s: CString, i: nat)
    requires i <= |s|
    requires Lex(s, i).Tokenized?
    ensures Ordered(Lex(s, i).toks, i)
    ensures |Lex(s, i).toks| > 0 && i <= Lex(s, i).toks[0].str
    decreases |s| - i
  {
    if i == |s| {
    } else if IsSpace(s[i]) {
      LexOrdered(s, i + 1);
    } else if IsOp(s[i]) {
      LexOrdered(s, i + 1);
      OrderedCons(Token(Reserved, 0, i), Lex(s, i + 1).toks, i, i + 1);
    } else {
      var j := RunEnd(s, i);
      LexOrdered(s, j);
      OrderedCons(Token(Num, DigitsValue(s[i..j]), i), Lex(s, j).toks, i, j);
    }
  }

  /**
   * Soundness of a successful scan from `i` for operators: a Reserved token
   * stands on a `+` or `-` of the input (never on whitespace) and has value 0.
   */
  lemma {:induction false} LexReservedSound(s: CString, i: nat)
    requires i <= |s|
    requires Lex(s, i).Tokenized?
    ensures forall j :: 0 <= j < |Lex(s, i).toks| && Lex(s, i).toks[j].kind == Reserved ==>
      var x := Lex(s, i).toks[j]; i <= x.str < |s| && IsOp(s[x.str]) && x.val == 0
    decreases |s| - i
  {
    if i == |s| {
    } else if IsSpace(s[i]) {
      LexReservedSound(s, i + 1);
    } else if IsOp(s[i]) {
      LexReservedSound(s, i + 1);
      var t, rest := Lex(s, i).toks, Lex(s, i + 1).toks;
      assert forall b :: 1 <= b < |t| ==> t[b] == rest[b - 1];
    } else {
      var j := RunEnd(s, i);
      LexReservedSound(s, j);
      var t, rest := Lex(s, i).toks, Lex(s, j).toks;
      assert forall b :: 1 <= b < |t| ==> t[b] == rest[b - 1];
    }
  }

  /**
   * A Num token that stands at the first digit of a digit run starting at or
   * after `i`, valued as the whole run.
   */
  predicate NumSound(s: string, i: nat, x: Token) {
    i <= x.str < |s| && IsDigit(s[x.str]) && (i < x.str ==> !IsDigit(s[x.str - 1]))
    && x.val == DigitsValue(s[x.str..RunEnd(s, x.str)])
  }

  /**
   * Soundness of a successful scan from `i` for numbers: every Num token
   * stands at the first digit of a digit run and its value is the base-10
   * value of the whole run.
   */
  lemma {:induction false} LexNumSound(s: CString, i: nat)
    requires i <= |s|
    requires Lex(s, i).Tokenized?
    ensures forall j :: 0 <= j < |Lex(s, i).toks| && Lex(s, i).toks[j].kind == Num ==>
      NumSound(s, i, Lex(s, i).toks[j])
    decreases |s| - i
  {
    if i == |s| {
    } else if IsSpace(s[i]) || IsOp(s[i]) {
      LexNumSound(s, i + 1);
      NumSoundTail(s, i, i + 1, Lex(s, i).toks, Lex(s, i + 1).toks);
    } else {
      var j := RunEnd(s, i);
      LexNumSound(s, j);
      NumSoundTail(s, i, j, Lex(s, i).toks, Lex(s, j).toks);
    }
  }

  /** The soundness of the tokens of a scan from `j` carries over to a scan from `i` that ends with them. */
  lemma NumSoundTail(s: string, i: nat, j: nat, t: seq<Token>, rest: seq<Token>)
    requires i < j <= |s|
    requires !IsDigit(s[j - 1]) || j == |s| || !IsDigit(s[j])
    requires t == rest || (|t| == |rest| + 1 && t[1..] == rest && (t[0].kind == Num ==> NumSound(s, i, t[0])))
    requires forall b :: 0 <= b < |rest| && rest[b].kind == Num ==> NumSound(s, j, rest[b])
    ensures forall b :: 0 <= b < |t| && t[b].kind == Num ==> NumSound(s, i, t[b])
  {
    forall b | 0 <= b < |t| && t[b].kind == Num
      ensures NumSound(s, i, t[b])
    {
      if t == rest {
        assert NumSound(s, j, rest[b]);
      } else if b > 0 {
        assert t[b] == t[1..][b - 1];
        assert NumSound(s, j, rest[b - 1]);
      }
    }
  }

  /**
   * Where the unbounded value agrees with C: a Num token whose digit run is
   * at most nine characters long has a value that fits the token's `int`.
   */
  lemma LexShortNumFitsInt(s: CString, j: nat)
    requires Lex(s, 0).Tokenized? && j < |Lex(s, 0).toks|
    requires Lex(s, 0).toks[j].kind == Num
    requires Lex(s, 0).toks[j].str < |s| && RunEnd(s, Lex(s, 0).toks[j].str) - Lex(s, 0).toks[j].str <= 9
    ensures Lex(s, 0).toks[j].val < 0x8000_0000
  {
    var x := Lex(s, 0).toks[j];
    LexNumSound(s, 0);
    var run := s[x.str..RunEnd(s, x.str)];
    assert AllDigits(run);
    ShortRunFitsInt(run);
  }

  /** A Num token standing at offset `k`. */
  predicate NumAt(t: Token, k: nat) {
    t.kind == Num && t.str == k
  }

  predicate HasReservedAt(t: seq<Token>, k: nat) {
    exists j :: 0 <= j < |t| && t[j] == Token(Reserved, 0, k)
  }

  predicate HasNumAt(t: seq<Token>, k: nat) {
    exists j :: 0 <= j < |t| && NumAt(t[j], k)
  }

  lemma ReservedInTail(x: Token, rest: seq<Token>, k: nat)
    requires HasReservedAt(rest, k)
    ensures HasReservedAt([x] + rest, k)
  {
    var j :| 0 <= j < |rest| && rest[j] == Token(Reserved, 0, k);
    assert ([x] + rest)[j + 1] == rest[j];
  }

  lemma NumInTail(x: Token, rest: seq<Token>, k: nat)
    requires HasNumAt(rest, k)
    ensures HasNumAt([x] + rest, k)
  {
    var j :| 0 <= j < |rest| && NumAt(rest[j], k);
    assert ([x] + rest)[j + 1] == rest[j];
  }

  /**
   * Completeness of a successful scan from `i`: every `+` or `-` gets a
   * Reserved token at its own offset, and every digit run that starts at or
   * after `i` gets a Num token at its first digit.
   */
  lemma {:induction false} LexComplete(s: CString, i: nat)
    requires i <= |s|
    requires Lex(s, i).Tokenized?
    ensures forall k :: i <= k < |s| && IsOp(s[k]) ==> HasReservedAt(Lex(s, i).toks, k)
    ensures forall k :: i <= k < |s| && IsDigit(s[k]) && (i < k ==> !IsDigit(s[k - 1])) ==>
      HasNumAt(Lex(s, i).toks, k)
  {
    forall k | i <= k < |s| && IsOp(s[k])
      ensures HasReservedAt(Lex(s, i).toks, k)
    {
      LexFindsOp(s, i, k);
    }
    forall k | i <= k < |s| && IsDigit(s[k]) && (i < k ==> !IsDigit(s[k - 1]))
      ensures HasNumAt(Lex(s, i).toks, k)
    {
      LexFindsRun(s, i, k);
    }
  }

  /** Every character of a digit run is a digit. */
  lemma InRun(s: string, i: nat, k: nat)
    requires i <= |s| && i <= k < RunEnd(s, i)
    ensures IsDigit(s[k])
  {
    assert s[k] == s[i..RunEnd(s, i)][k - i];
  }

  /** A `+` or `-` at `k` gets a Reserved token at `k` in a successful scan from `i`. */
  lemma {:induction false} LexFindsOp(s: CString, i: nat, k: nat)
    requires i <= k < |s| && IsOp(s[k])
    requires Lex(s, i).Tokenized?
    ensures HasReservedAt(Lex(s, i).toks, k)
    decreases |s| - i
  {
    var t := Lex(s, i).toks;
    if IsSpace(s[i]) {
      LexFindsOp(s, i + 1, k);
    } else if IsOp(s[i]) {
      var rest := Lex(s, i + 1).toks;
      assert t == [Token(Reserved, 0, i)] + rest;
      if k == i {
        assert t[0] == Token(Reserved, 0, k);
      } else {
        LexFindsOp(s, i + 1, k);
        ReservedInTail(Token(Reserved, 0, i), rest, k);
      }
    } else {
      var e := RunEnd(s, i);
      if k < e {
        InRun(s, i, k);
      }
      var rest := Lex(s, e).toks;
      assert t == [Token(Num, DigitsValue(s[i..e]), i)] + rest;
      LexFindsOp(s, e, k);
      ReservedInTail(t[0], rest, k);
    }
  }

  /** A digit run starting at `k` gets a Num token at `k` in a successful scan from `i`. */
  lemma {:induction false} LexFindsRun(s: CString, i: nat, k: nat)
    requires i <= k < |s| && IsDigit(s[k]) && (i < k ==> !IsDigit(s[k - 1]))
    requires Lex(s, i).Tokenized?
    ensures HasNumAt(Lex(s, i).toks, k)
    decreases |s| - i
  {
    var t := Lex(s, i).toks;
    if k == i {
      assert t[0].kind == Num && t[0].str == k;
    } else if IsSpace(s[i]) {
      LexFindsRun(s, i + 1, k);
    } else if IsOp(s[i]) {
      var rest := Lex(s, i + 1).toks;
      assert t == [Token(Reserved, 0, i)] + rest;
      LexFindsRun(s, i + 1, k);
      NumInTail(Token(Reserved, 0, i), rest, k);
    } else {
      var e := RunEnd(s, i);
      if k < e {
        InRun(s, i, k - 1);
      }
      var rest := Lex(s, e).toks;
      assert t == [Token(Num, DigitsValue(s[i..e]), i)] + rest;
      LexFindsRun(s, e, k);
      NumInTail(t[0], rest, k);
    }
  }

  /**
   * The scan from `i` fails exactly when a character at or after `i` is
   * illegal, and then it fails at the first such character.
   */
  lemma {:induction false} LexFailsAtFirstIllegal(s: CString, i: nat)
    requires i <= |s|
    ensures Lex(s, i).CannotTokenize? <==> exists k :: i <= k < |s| && Illegal(s[k])
    ensures Lex(s, i).CannotTokenize? ==>
      var p := Lex(s, i).at;
      Illegal(s[p]) && forall k :: i <= k < p ==> !Illegal(s[k])
    decreases |s| - i
  {
    if i == |s| {
    } else if IsSpace(s[i]) {
      LexFailsAtFirstIllegal(s, i + 1);
      assert !Illegal(s[i]);
    } else if IsOp(s[i]) {
      LexFailsAtFirstIllegal(s, i + 1);
      assert !Illegal(s[i]);
    } else if IsDigit(s[i]) {
      var j := RunEnd(s, i);
      LexFailsAtFirstIllegal(s, j);
      forall k | i <= k < j ensures !Illegal(s[k]) {
        assert IsDigit(s[i..j][k - i]);
      }
    } else {
      assert Illegal(s[i]);
    }
  }

  lemma {:induction false} DigitsHaveNoOps(s: string, i: nat, j: nat)
    requires i <= j <= |s|
    requires AllDigits(s[i..j])
    ensures OpCount(s[i..]) == OpCount(s[j..])
    decreases j - i
  {
    if i < j {
      assert IsDigit(s[i..j][0]);
      assert s[i..][1..] == s[i + 1..];
      assert s[i + 1..j] == s[i..j][1..];
      DigitsHaveNoOps(s, i + 1, j);
    }
  }

  /** A successful scan from `i` has one Reserved token per `+` or `-` in `s[i..]`. */
  lemma {:induction false} LexOpCount(s: CString, i: nat)
    requires i <= |s|
    requires Lex(s, i).Tokenized?
    ensures ReservedCount(Lex(s, i).toks) == OpCount(s[i..])
    decreases |s| - i
  {
    var t := Lex(s, i).toks;
    if i == |s| {
      assert t == [Token(Eof, 0, i)];
      assert ReservedCount(t) == ReservedCount(t[1..]);
    } else if IsSpace(s[i]) {
      LexOpCount(s, i + 1);
      assert s[i..][1..] == s[i + 1..];
    } else if IsOp(s[i]) {
      LexOpCount(s, i + 1);
      assert s[i..][1..] == s[i + 1..];
      assert t[1..] == Lex(s, i + 1).toks;
    } else {
      var j := RunEnd(s, i);
      LexOpCount(s, j);
      assert t[1..] == Lex(s, j).toks;
      assert s[i..][1..] == s[i + 1..];
      DigitsHaveNoOps(s, i, j);
    }
  }

  /** What a scan says without where it says it: the lexemes, or the failure offset relative to `base`. */
  datatype View = Lexed(lexemes: seq<Lexeme>) | FailedAt(offset: int)

  function ViewOf(s: string, r: LexResult, base: nat): View {
    if r.Tokenized? then Lexed(Lexemes(s, r.toks)) else FailedAt(r.at - base)
  }

  lemma LexemesCons(s: string, x: Token, t: seq<Token>)
    ensures Lexemes(s, [x] + t) == [LexemeOf(s, x)] + Lexemes(s, t)
  {
    assert forall j :: 1 <= j < |t| + 1 ==> ([x] + t)[j] == t[j - 1];
  }

  lemma DigitRunsAgree(s1: string, i1: nat, s2: string, i2: nat)
    requires i1 <= |s1| && i2 <= |s2|
    requires s1[i1..] == s2[i2..]
    ensures RunEnd(s1, i1) - i1 == RunEnd(s2, i2) - i2
    ensures s1[i1..RunEnd(s1, i1)] == s2[i2..RunEnd(s2, i2)]
  {
    var j1 := RunEnd(s1, i1);
    var d := j1 - i1;
    assert s1[i1..j1] == s1[i1..][..d] == s2[i2..][..d] == s2[i2..i2 + d];
    if i2 + d < |s2| {
      assert s2[i2 + d] == s2[i2..][d] == s1[i1..][d] == s1[j1];
    }
    RunEndUnique(s2, i2, i2 + d);
  }

  /** A scan depends only on the text that is left: offsets shift, nothing else changes. */
  lemma {:induction false} LexSuffix(s1: CString, i1: nat, s2: CString, i2: nat)
    requires i1 <= |s1| && i2 <= |s2|
    requires s1[i1..] == s2[i2..]
    ensures ViewOf(s1, Lex(s1, i1), i1) == ViewOf(s2, Lex(s2, i2), i2)
    decreases |s1| - i1
  {
    assert |s1| - i1 == |s2| - i2;
    if i1 < |s1| {
      assert s1[i1] == s1[i1..][0] == s2[i2..][0] == s2[i2];
      assert s1[i1 + 1..] == s1[i1..][1..] == s2[i2..][1..] == s2[i2 + 1..];
    }
    if i1 == |s1| {
    } else if IsSpace(s1[i1]) {
      LexSuffix(s1, i1 + 1, s2, i2 + 1);
    } else if IsOp(s1[i1]) {
      LexSuffix(s1, i1 + 1, s2, i2 + 1);
      var r1, r2 := Lex(s1, i1 + 1), Lex(s2, i2 + 1);
      if r1.Tokenized? {
        LexemesCons(s1, Token(Reserved, 0, i1), r1.toks);
        LexemesCons(s2, Token(Reserved, 0, i2), r2.toks);
      }
    } else if IsDigit(s1[i1]) {
      var j1, j2 := RunEnd(s1, i1), RunEnd(s2, i2);
      DigitRunsAgree(s1, i1, s2, i2);
      assert s1[j1..] == s1[i1..][j1 - i1..] == s2[i2..][j2 - i2..] == s2[j2..];
      LexSuffix(s1, j1, s2, j2);
      var r1, r2 := Lex(s1, j1), Lex(s2, j2);
      if r1.Tokenized? {
        LexemesCons(s1, Token(Num, DigitsValue(s1[i1..j1]), i1), r1.toks);
        LexemesCons(s2, Token(Num, DigitsValue(s2[i2..j2]), i2), r2.toks);
      }
    }
  }

  /** `s` with the character `w` inserted at offset `k`. */
  function Insert(s: CString, k: nat, w: char): (s': CString)
    requires k <= |s| && IsSpace(w)
    ensures |s'| == |s| + 1 && s'[k] == w
    ensures forall m :: 0 <= m < k ==> s'[m] == s[m]
    ensures forall m :: k <= m < |s| ==> s'[m + 1] == s[m]
  {
    s[..k] + [w] + s[k..]
  }

  /** How the scan of `s` and the scan of `s` with one whitespace inserted at `k` correspond. */
  predicate SameScan(s: CString, r: LexResult, s': CString, r': LexResult, k: nat) {
    if r.Tokenized? then r'.Tokenized? && Lexemes(s, r.toks) == Lexemes(s', r'.toks)
    else r'.CannotTokenize? && r'.at == if r.at < k then r.at else r.at + 1
  }

  /** A digit run that starts before `k` ends at `k` at the latest, unless `k` splits a number. */
  lemma RunStopsAtGap(s: string, i: nat, k: nat)
    requires i < k <= |s|
    requires !(0 < k < |s| && IsDigit(s[k - 1]) && IsDigit(s[k]))
    ensures RunEnd(s, i) <= k
  {
    var j := RunEnd(s, i);
    forall m | i <= m < j
      ensures IsDigit(s[m])
    {
      assert s[i..j][m - i] == s[m];
    }
  }

  /** Inserting at `k` does not change a digit run that starts before `k`. */
  lemma InsertKeepsRun(s: CString, k: nat, w: char, i: nat)
    requires i < k <= |s| && IsSpace(w)
    requires !(0 < k < |s| && IsDigit(s[k - 1]) && IsDigit(s[k]))
    ensures RunEnd(Insert(s, k, w), i) == RunEnd(s, i)
    ensures Insert(s, k, w)[i..RunEnd(s, i)] == s[i..RunEnd(s, i)]
  {
    var s' := Insert(s, k, w);
    var j := RunEnd(s, i);
    RunStopsAtGap(s, i, k);
    assert s'[i..j] == s[i..j];
    assert j < k ==> s'[j] == s[j];
    RunEndUnique(s', i, j);
  }

  lemma {:induction false} SpaceInsertFrom(s: CString, k: nat, w: char, i: nat)
    requires i <= k <= |s| && IsSpace(w)
    requires !(0 < k < |s| && IsDigit(s[k - 1]) && IsDigit(s[k]))
    ensures SameScan(s, Lex(s, i), Insert(s, k, w), Lex(Insert(s, k, w), i), k)
    decreases k - i
  {
    var s' := Insert(s, k, w);
    if i == k {
      assert s'[k + 1..] == s[k..];
      LexSuffix(s', k + 1, s, k);
    } else if IsSpace(s[i]) {
      SpaceInsertFrom(s, k, w, i + 1);
    } else if IsOp(s[i]) {
      SpaceInsertFrom(s, k, w, i + 1);
      SpaceInsertOp(s, s', k, i);
    } else if IsDigit(s[i]) {
      InsertKeepsRun(s, k, w, i);
      SpaceInsertFrom(s, k, w, RunEnd(s, i));
      SpaceInsertRun(s, s', k, i);
    }
  }

  /** The operator step of `SpaceInsertFrom`: the same Reserved token goes in front of both scans. */
  lemma SpaceInsertOp(s: CString, s': CString, k: nat, i: nat)
    requires i < |s| && i < |s'| && s'[i] == s[i] && IsOp(s[i])
    requires SameScan(s, Lex(s, i + 1), s', Lex(s', i + 1), k)
    ensures SameScan(s, Lex(s, i), s', Lex(s', i), k)
  {
    var r, r' := Lex(s, i + 1), Lex(s', i + 1);
    if r.Tokenized? {
      LexemesCons(s, Token(Reserved, 0, i), r.toks);
      LexemesCons(s', Token(Reserved, 0, i), r'.toks);
    }
  }

  /** The number step of `SpaceInsertFrom`: the same digit run gives the same Num token in front of both scans. */
  lemma SpaceInsertRun(s: CString, s': CString, k: nat, i: nat)
    requires i < |s| && i < |s'| && s'[i] == s[i] && IsDigit(s[i])
    requires RunEnd(s', i) == RunEnd(s, i) && s'[i..RunEnd(s, i)] == s[i..RunEnd(s, i)]
    requires SameScan(s, Lex(s, RunEnd(s, i)), s', Lex(s', RunEnd(s, i)), k)
    ensures SameScan(s, Lex(s, i), s', Lex(s', i), k)
  {
    var j := RunEnd(s, i);
    var x := Token(Num, DigitsValue(s[i..j]), i);
    var r, r' := Lex(s, j), Lex(s', j);
    if r.Tokenized? {
      LexemesCons(s, x, r.toks);
      LexemesCons(s', x, r'.toks);
    }
  }

  /**
   * Whitespace insensitivity: inserting a whitespace character anywhere but
   * inside a digit run leaves the kinds, characters and values of the tokens
   * unchanged, and a failure stays at the same character.
   */
  lemma SpaceInsensitive(s: CString, k: nat, w: char)
    requires k <= |s| && IsSpace(w)
    requires !(0 < k < |s| && IsDigit(s[k - 1]) && IsDigit(s[k]))
    ensures SameScan(s, Lex(s, 0), Insert(s, k, w), Lex(Insert(s, k, w), 0), k)
  {
    SpaceInsertFrom(s, k, w, 0);
  }

  // ----- A scan worked by hand: " 12 + 34 - 5 " -----

  lemma ScanExampleFrom11(s: CString)
    requires s == " 12 + 34 - 5 "
    ensures Lex(s, 11) == Tokenized([Token(Num, 5, 11), Token(Eof, 0, 13)])
  {
    assert Lex(s, 12) == Lex(s, 13) == Tokenized([Token(Eof, 0, 13)]);
    RunEndUnique(s, 11, 12);
    assert s[11..12] == "5" && DigitsValue("5") == 5;
  }

  lemma ScanExampleFrom6(s: CString)
    requires s == " 12 + 34 - 5 "
    ensures Lex(s, 6) ==
      Tokenized([Token(Num, 34, 6), Token(Reserved, 0, 9), Token(Num, 5, 11), Token(Eof, 0, 13)])
  {
    ScanExampleFrom11(s);
    assert Lex(s, 9) == Prepend([Token(Reserved, 0, 9)], Lex(s, 10));
    RunEndUnique(s, 6, 8);
    assert s[6..8] == "34" && DigitsValue("34") == 34;
  }

  /** Whitespace is skipped, each operator and each digit run becomes a token at its own offset. */
  lemma ScanExample(s: CString)
    requires s == " 12 + 34 - 5 "
    ensures Lex(s, 0) == Tokenized([Token(Num, 12, 1), Token(Reserved, 0, 4), Token(Num, 34, 6),
                                    Token(Reserved, 0, 9), Token(Num, 5, 11), Token(Eof, 0, 13)])
  {
    ScanExampleFrom6(s);
    assert Lex(s, 5) == Lex(s, 6);
    assert Lex(s, 4) == Prepend([Token(Reserved, 0, 4)], Lex(s, 5));
    assert Lex(s, 3) == Lex(s, 4);
    RunEndUnique(s, 1, 3);
    assert s[1..3] == "12" && DigitsValue("12") == 12;
    assert Lex(s, 1) == Prepend([Token(Num, 12, 1)], Lex(s, 3));
    assert Lex(s, 0) == Lex(s, 1);
  }
}
