/**
 * The fused parse-and-emit pass of `main`: a number, then `+`/`-` number
 * pairs until Eof, emitting one instruction per number into the
 * accumulator `rax`.
 */
module Codegen {
  import opened Results
  import opened Tokens
  import opened Cursor

  /** The lines `main` prints: three directives, then instructions on `rax`. */
  datatype Instr =
    | IntelSyntax
    | Globl(sym: string)
    | Label(sym: string)
    | Mov(n: nat)
    | Add(n: nat)
    | Sub(n: nat)
    | Ret

  /** Printed before the first number is read. */
  const Preamble: seq<Instr> := [IntelSyntax, Globl("main"), Label("main")]

  /**
   * What the pass leaves on standard output: the whole program, or the
   * lines printed before the parse error that stopped it.
   */
  datatype Emission = Complete(code: seq<Instr>) | Aborted(partial: seq<Instr>, error: ParseError)

  /**
   * The pass over a token list as `main` runs it: preamble, the first number,
   * then the loop. The only operator it ever reports missing is `-`.
   */
  function Gen(s: string, t: seq<Token>): (e: Emission)
    requires WellFormed(t)
    ensures e.Aborted? && e.error.NotOperator? ==> e.error.op == '-'
  {
    if t[0].kind != Num then Aborted(Preamble, NotNumber(t[0].str))
    else Loop(s, t, 1, Preamble + [Mov(t[0].val)])
  }

  /**
   * The `while (!at_eof())` loop from token `i` on, with `out` printed so
   * far. The one operator it insists on is `-`: a `+` is only ever
   * consumed, never expected.
   */
  function Loop(s: string, t: seq<Token>, i: nat, out: seq<Instr>): (e: Emission)
    requires WellFormed(t) && i < |t|
    ensures e.Aborted? && e.error.NotOperator? ==> e.error.op == '-'
    decreases |t| - i
  {
    if t[i].kind == Eof then Complete(out + [Ret])
    else if IsReserved(s, t[i], '+') then
      if t[i + 1].kind == Num then Loop(s, t, i + 2, out + [Add(t[i + 1].val)])
      else Aborted(out, NotNumber(t[i + 1].str))
    else if IsReserved(s, t[i], '-') then
      if t[i + 1].kind == Num then Loop(s, t, i + 2, out + [Sub(t[i + 1].val)])
      else Aborted(out, NotNumber(t[i + 1].str))
    else Aborted(out, NotOperator('-', t[i].str))
  }

  /**
   * The emission part of `main`, driving the cursor: `expect_number` for
   * the first number, then `consume('+')` or else `expect('-')`, each
   * followed by `expect_number`, until `at_eof`. The pass completes with
   * the cursor on Eof, and a failure leaves it on the token it reports.
   */
  method Generate(c: TokenCursor) returns (r: Emission)
    requires c.Valid() && c.index == 0
    modifies c
    ensures r == Gen(c.input, c.tokens)
    ensures c.Valid()
    ensures r.Complete? ==> c.index == |c.tokens| - 1
    ensures r.Aborted? ==> c.tokens[c.index].str == r.error.at
  {
    var out := Preamble;
    var first := c.ExpectNumber();
    if first.Err? {
      return Aborted(out, first.error);
    }
    out := out + [Mov(first.value)];
    while !c.AtEof()
      invariant c.Valid()
      invariant Gen(c.input, c.tokens) == Loop(c.input, c.tokens, c.index, out)
      decreases |c.tokens| - c.index
    {
      ghost var i, before := c.index, out;
      var plus := c.Consume('+');
      if plus {
        var n := c.ExpectNumber();
        if n.Err? {
          return Aborted(out, n.error);
        }
        out := out + [Add(n.value)];
        assert Loop(c.input, c.tokens, i, before) == Loop(c.input, c.tokens, c.index, out);
        continue;
      }
      var minus := c.Expect('-');
      if minus.Err? {
        return Aborted(out, minus.error);
      }
      var n := c.ExpectNumber();
      if n.Err? {
        return Aborted(out, n.error);
      }
      out := out + [Sub(n.value)];
      assert Loop(c.input, c.tokens, i, before) == Loop(c.input, c.tokens, c.index, out);
    }
    out := out + [Ret];
    return Complete(out);
  }

  // ----- The grammar NUMBER (('+'|'-') NUMBER)* and its meaning -----

  /**
   * Token `j` breaks the grammar: a number belongs at every even position,
   * and a `+`, a `-` or the end at every odd one.
   */
  predicate Bad(s: string, t: seq<Token>, j: nat)
    requires j < |t|
  {
    if j % 2 == 0 then t[j].kind != Num
    else t[j].kind != Eof && !IsReserved(s, t[j], '+') && !IsReserved(s, t[j], '-')
  }

  /** The first token at or after `from` that breaks the grammar, or `|t|` if none does. */
  function FirstBad(s: string, t: seq<Token>, from: nat): (m: nat)
    requires from <= |t|
    ensures from <= m <= |t|
    ensures m < |t| ==> Bad(s, t, m)
    ensures forall j :: from <= j < m ==> !Bad(s, t, j)
    decreases |t| - from
  {
    if from == |t| || Bad(s, t, from) then from else FirstBad(s, t, from + 1)
  }

  /** The error reported at a token that breaks the grammar. */
  function ErrorAt(t: seq<Token>, j: nat): ParseError
    requires j < |t|
  {
    if j % 2 == 0 then NotNumber(t[j].str) else NotOperator('-', t[j].str)
  }

  /** The instruction for the `k`-th number (from 0): its operator says add or subtract. */
  function Step(s: string, t: seq<Token>, k: nat): Instr
    requires 2 * k < |t|
  {
    if k == 0 then Mov(t[0].val)
    else if IsReserved(s, t[2 * k - 1], '+') then Add(t[2 * k].val)
    else Sub(t[2 * k].val)
  }

  /** The instructions for the first `n` numbers: a load of the first, then one add or subtract per operator. */
  function Body(s: string, t: seq<Token>, n: nat): seq<Instr>
    requires 2 * n <= |t| + 1
  {
    seq(n, k requires 0 <= k < n => Step(s, t, k))
  }

  /** The left-to-right sum and difference of the first `n` numbers. */
  function Value(s: string, t: seq<Token>, n: nat): int
    requires 1 <= n && 2 * n <= |t| + 1
  {
    if n == 1 then t[0].val
    else if IsReserved(s, t[2 * n - 3], '+') then Value(s, t, n - 1) + t[2 * n - 2].val
    else Value(s, t, n - 1) - t[2 * n - 2].val
  }

  /** The effect of one instruction on `rax`; directives and labels leave it alone. */
  function Apply(x: Instr, rax: int): int {
    match x
    case Mov(n) => n
    case Add(n) => rax + n
    case Sub(n) => rax - n
    case _ => rax
  }

  /** Runs a listing from the top with `rax` as given: the value of `rax` at the first `ret`, if there is one. */
  function Exec(code: seq<Instr>, rax: int): Option<int> {
    if code == [] then None
    else if code[0] == Ret then Some(rax)
    else Exec(code[1..], Apply(code[0], rax))
  }

  /** The value of `rax` after straight-line code. */
  function Acc(code: seq<Instr>, rax: int): int {
    if code == [] then rax else Acc(code[1..], Apply(code[0], rax))
  }

  lemma {:induction false} AccSnoc(code: seq<Instr>, x: Instr, rax: int)
    ensures Acc(code + [x], rax) == Apply(x, Acc(code, rax))
    decreases |code|
  {
    if code != [] {
      assert (code + [x])[1..] == code[1..] + [x];
      AccSnoc(code[1..], x, Apply(code[0], rax));
    }
  }

  lemma {:induction false} ExecAfter(code: seq<Instr>, rest: seq<Instr>, rax: int)
    requires Ret !in code
    ensures Exec(code + rest, rax) == Exec(rest, Acc(code, rax))
    decreases |code|
  {
    if code != [] {
      assert code[0] in code;
      assert forall x :: x in code[1..] ==> x in code;
      var all := code + rest;
      assert all[0] == code[0] && all[1..] == code[1..] + rest;
      assert Exec(all, rax) == Exec(all[1..], Apply(code[0], rax));
      ExecAfter(code[1..], rest, Apply(code[0], rax));
    } else {
      assert code + rest == rest;
    }
  }

  lemma PreambleKeepsRax(rax: int)
    ensures Acc(Preamble, rax) == rax
  {
    var rest := [Globl("main"), Label("main")];
    assert Preamble[1..] == rest && rest[1..] == [Label("main")];
    assert Acc(Preamble, rax) == Acc(rest, rax);
    assert Acc(rest, rax) == Acc([Label("main")], rax);
    assert Acc([Label("main")], rax) == Acc([], rax);
  }

  lemma BodySnoc(s: string, t: seq<Token>, n: nat)
    requires 2 * (n + 1) <= |t| + 1
    ensures Body(s, t, n + 1) == Body(s, t, n) + [Step(s, t, n)]
  {
  }

  /** Running the instructions for the first `n` numbers, from any `rax`, leaves their left-to-right value. */
  lemma {:induction false} BodyComputesValue(s: string, t: seq<Token>, n: nat, rax: int)
    requires 1 <= n && 2 * n <= |t| + 1
    ensures Acc(Body(s, t, n), rax) == Value(s, t, n)
    decreases n
  {
    if n == 1 {
      assert Body(s, t, 1) == [Mov(t[0].val)];
    } else {
      BodySnoc(s, t, n - 1);
      AccSnoc(Body(s, t, n - 1), Step(s, t, n - 1), rax);
      BodyComputesValue(s, t, n - 1, rax);
    }
  }

  /** `printed` is `out` followed by adds and subtracts only. */
  predicate ArithAfter(printed: seq<Instr>, out: seq<Instr>) {
    |printed| >= |out| && printed[..|out|] == out
    && forall k :: |out| <= k < |printed| ==> printed[k].Add? || printed[k].Sub?
  }

  /** The loop's lines after `out`: adds and subtracts, then `ret` if it completes. */
  predicate ExtendsWithArith(e: Emission, out: seq<Instr>) {
    if e.Complete? then |e.code| > 0 && e.code[|e.code| - 1] == Ret && ArithAfter(e.code[..|e.code| - 1], out)
    else ArithAfter(e.partial, out)
  }

  lemma ExtendsSnoc(e: Emission, out: seq<Instr>, x: Instr)
    requires ExtendsWithArith(e, out + [x]) && (x.Add? || x.Sub?)
    ensures ExtendsWithArith(e, out)
  {
    var printed := if e.Complete? then e.code[..|e.code| - 1] else e.partial;
    assert printed[..|out|] == (out + [x])[..|out|] == out;
    assert printed[|out|] == (out + [x])[|out|] == x;
  }

  /**
   * What was printed stays printed: the loop only appends to `out`, and
   * what it appends is adds and subtracts, then `ret` if it completes.
   */
  lemma {:induction false} LoopExtends(s: string, t: seq<Token>, i: nat, out: seq<Instr>)
    requires WellFormed(t) && i < |t|
    ensures ExtendsWithArith(Loop(s, t, i, out), out)
    decreases |t| - i
  {
    if t[i].kind == Eof {
      assert Loop(s, t, i, out) == Complete(out + [Ret]);
      assert (out + [Ret])[..|out|] == out;
    } else if (IsReserved(s, t[i], '+') || IsReserved(s, t[i], '-')) && t[i + 1].kind == Num {
      var x := if IsReserved(s, t[i], '+') then Add(t[i + 1].val) else Sub(t[i + 1].val);
      assert Loop(s, t, i, out) == Loop(s, t, i + 2, out + [x]);
      LoopExtends(s, t, i + 2, out + [x]);
      ExtendsSnoc(Loop(s, t, i + 2, out + [x]), out, x);
    } else {
      assert Loop(s, t, i, out).partial == out;
      assert out[..|out|] == out;
    }
  }

  /**
   * The shape of a listing: the preamble, a load of the first number, then
   * adds and subtracts, and `ret` if the pass completes; an aborted pass
   * keeps the preamble and whatever it printed after it.
   */
  lemma GenShape(s: string, t: seq<Token>)
    requires WellFormed(t)
    ensures var e := Gen(s, t);
      (e.Complete? ==> |e.code| > 0 && e.code[|e.code| - 1] == Ret)
      && var printed := if e.Complete? then e.code[..|e.code| - 1] else e.partial;
      |printed| >= |Preamble| && printed[..|Preamble|] == Preamble
      && (|printed| > |Preamble| <==> t[0].kind == Num)
      && (|printed| > |Preamble| ==> printed[|Preamble|] == Mov(t[0].val))
      && (forall k :: |Preamble| < k < |printed| ==> printed[k].Add? || printed[k].Sub?)
  {
    if t[0].kind == Num {
      var out := Preamble + [Mov(t[0].val)];
      LoopExtends(s, t, 1, out);
      var e := Gen(s, t);
      var printed := if e.Complete? then e.code[..|e.code| - 1] else e.partial;
      assert printed[..|out|] == out;
      assert printed[..|Preamble|] == out[..|Preamble|] == Preamble;
      assert printed[|Preamble|] == out[|Preamble|];
    }
  }

  /** One turn of the loop, after `n` numbers, over an operator and the number after it. */
  lemma LoopTurn(s: string, t: seq<Token>, n: nat, out: seq<Instr>)
    requires WellFormed(t) && 1 <= n && 2 * n < |t|
    requires IsReserved(s, t[2 * n - 1], '+') || IsReserved(s, t[2 * n - 1], '-')
    requires t[2 * n].kind == Num
    ensures Loop(s, t, 2 * n - 1, out) == Loop(s, t, 2 * n + 1, out + [Step(s, t, n)])
  {
  }

  /** The loop stops with `ret` on the Eof token. */
  lemma LoopAtEof(s: string, t: seq<Token>, i: nat, out: seq<Instr>)
    requires WellFormed(t) && i < |t| && t[i].kind == Eof
    ensures Loop(s, t, i, out) == Complete(out + [Ret])
  {
  }

  /** The loop stops where an operator is not followed by a number. */
  lemma LoopMissesNumber(s: string, t: seq<Token>, i: nat, out: seq<Instr>)
    requires WellFormed(t) && i + 1 < |t|
    requires IsReserved(s, t[i], '+') || IsReserved(s, t[i], '-')
    requires t[i + 1].kind != Num
    ensures Loop(s, t, i, out) == Aborted(out, NotNumber(t[i + 1].str))
  {
  }

  /** The loop stops, expecting `-`, where neither an operator nor the end is found. */
  lemma LoopMissesOperator(s: string, t: seq<Token>, i: nat, out: seq<Instr>)
    requires WellFormed(t) && i < |t| && t[i].kind != Eof
    requires !IsReserved(s, t[i], '+') && !IsReserved(s, t[i], '-')
    ensures Loop(s, t, i, out) == Aborted(out, NotOperator('-', t[i].str))
  {
  }

  /**
   * What the grammar prescribes when `m` is the first misplaced token (or
   * `|t|` if there is none): the whole listing, or the instructions for the
   * numbers before `m` and the error for position `m`.
   */
  function Prescribed(s: string, t: seq<Token>, m: nat): Emission
    requires m <= |t|
  {
    if m == |t| then Complete(Preamble + Body(s, t, |t| / 2) + [Ret])
    else Aborted(Preamble + Body(s, t, (m + 1) / 2), ErrorAt(t, m))
  }

  /**
   * The loop after `n` numbers have been read in grammatical order, that is,
   * from token `2n - 1` with their instructions printed: it ends in `ret` at
   * a well-formed end, or stops at the first misplaced token with the
   * instructions for the numbers before it.
   */
  lemma {:induction false} LoopMatchesGrammar(s: string, t: seq<Token>, n: nat, out: seq<Instr>)
    requires WellFormed(t) && 1 <= n && 2 * n - 1 < |t|
    requires forall j :: 0 <= j < 2 * n - 1 ==> !Bad(s, t, j)
    requires out == Preamble + Body(s, t, n)
    ensures Loop(s, t, 2 * n - 1, out) == Prescribed(s, t, FirstBad(s, t, 2 * n - 1))
    ensures FirstBad(s, t, 2 * n - 1) == |t| ==> |t| % 2 == 0
    decreases |t| - 2 * n
  {
    var i := 2 * n - 1;
    if t[i].kind == Eof {
      assert !Bad(s, t, i) && i == |t| - 1 && |t| / 2 == n;
      assert FirstBad(s, t, i) == |t|;
      LoopAtEof(s, t, i, out);
      assert Loop(s, t, i, out) == Prescribed(s, t, FirstBad(s, t, i));
    } else if IsReserved(s, t[i], '+') || IsReserved(s, t[i], '-') {
      assert !Bad(s, t, i);
      if t[i + 1].kind == Num {
        assert !Bad(s, t, i + 1);
        assert FirstBad(s, t, i) == FirstBad(s, t, i + 2);
        BodySnoc(s, t, n);
        var out' := out + [Step(s, t, n)];
        LoopTurn(s, t, n, out);
        LoopMatchesGrammar(s, t, n + 1, out');
        assert Loop(s, t, i, out) == Loop(s, t, i + 2, out') == Prescribed(s, t, FirstBad(s, t, i + 2));
      } else {
        assert Bad(s, t, i + 1);
        assert FirstBad(s, t, i) == i + 1 && (i + 2) / 2 == n;
        LoopMissesNumber(s, t, i, out);
        assert Loop(s, t, i, out) == Prescribed(s, t, FirstBad(s, t, i));
      }
    } else {
      assert Bad(s, t, i) && FirstBad(s, t, i) == i && (i + 1) / 2 == n;
      LoopMissesOperator(s, t, i, out);
      assert Loop(s, t, i, out) == Prescribed(s, t, FirstBad(s, t, i));
    }
  }

  /**
   * The pass follows the grammar exactly: with no token out of place it
   * prints the preamble, a load of the first number, one add or subtract per
   * operator in order, and `ret`; otherwise it stops at the first token out
   * of place with the error for that position, after printing the preamble
   * and the instructions for the numbers before it.
   */
  lemma GenMatchesGrammar(s: string, t: seq<Token>)
    requires WellFormed(t)
    ensures var m := FirstBad(s, t, 0);
      Gen(s, t) == if m == |t| then Complete(Preamble + Body(s, t, |t| / 2) + [Ret])
                   else Aborted(Preamble + Body(s, t, (m + 1) / 2), ErrorAt(t, m))
    ensures FirstBad(s, t, 0) == |t| ==> |t| % 2 == 0
  {
    if t[0].kind == Num {
      assert !Bad(s, t, 0);
      assert Body(s, t, 1) == [Mov(t[0].val)];
      LoopMatchesGrammar(s, t, 1, Preamble + [Mov(t[0].val)]);
    } else {
      assert Body(s, t, 0) == [];
    }
  }

  lemma {:induction false} ReservedCountOfSentence(s: string, t: seq<Token>, i: nat)
    requires WellFormed(t) && i < |t| && i % 2 == 0 && |t| % 2 == 0
    requires forall j :: i <= j < |t| ==> !Bad(s, t, j)
    ensures ReservedCount(t[i..]) == (|t| - i) / 2 - 1
    decreases |t| - i
  {
    assert !Bad(s, t, i) && !Bad(s, t, i + 1);
    assert t[i].kind == Num;
    assert t[i..][1..] == t[i + 1..];
    assert ReservedCount(t[i..]) == ReservedCount(t[i + 1..]);
    assert t[i + 1..][1..] == t[i + 2..];
    if i + 2 < |t| {
      assert t[i + 1].kind == Reserved;
      assert ReservedCount(t[i + 1..]) == 1 + ReservedCount(t[i + 2..]);
      ReservedCountOfSentence(s, t, i + 2);
    } else {
      assert t[i + 1].kind == Eof;
      assert ReservedCount(t[i + 1..]) == ReservedCount(t[i + 2..]);
      assert t[i + 2..] == [];
    }
  }

  /**
   * A successful pass prints `1 + (number of operators)` instructions
   * between the preamble and `ret`, and running the listing from any
   * initial `rax` returns the left-to-right sum and difference of the
   * numbers.
   */
  lemma GenComputesValue(s: string, t: seq<Token>, rax: int)
    requires WellFormed(t) && Gen(s, t).Complete?
    ensures |t| >= 2 && |t| % 2 == 0
    ensures |Gen(s, t).code| == |Preamble| + 1 + ReservedCount(t) + 1
    ensures Exec(Gen(s, t).code, rax) == Some(Value(s, t, |t| / 2))
  {
    GenMatchesGrammar(s, t);
    var n := |t| / 2;
    assert FirstBad(s, t, 0) == |t|;
    assert !Bad(s, t, 0);
    ReservedCountOfSentence(s, t, 0);
    assert t[0..] == t;
    var body := Body(s, t, n);
    assert Gen(s, t).code == Preamble + (body + [Ret]);
    PreambleKeepsRax(rax);
    ExecAfter(Preamble, body + [Ret], rax);
    assert Ret !in body;
    ExecAfter(body, [Ret], rax);
    BodyComputesValue(s, t, n, rax);
  }

  /** The pass succeeds exactly when every token is where the grammar puts it. */
  lemma GenSucceedsIffSentence(s: string, t: seq<Token>)
    requires WellFormed(t)
    ensures Gen(s, t).Complete? <==> forall j :: 0 <= j < |t| ==> !Bad(s, t, j)
  {
    GenMatchesGrammar(s, t);
    var m := FirstBad(s, t, 0);
    if m < |t| {
      assert Bad(s, t, m);
    }
  }

  /** Two emissions that print the same lines and stop for the same reason, whatever the offsets. */
  predicate SameOutput(a: Emission, b: Emission) {
    if a.Complete? then b.Complete? && a.code == b.code
    else b.Aborted? && a.partial == b.partial
         && a.error.NotOperator? == b.error.NotOperator?
         && (a.error.NotOperator? ==> a.error.op == b.error.op)
  }

  lemma SameLexeme(s1: string, x1: Token, s2: string, x2: Token)
    requires LexemeOf(s1, x1) == LexemeOf(s2, x2)
    ensures x1.kind == x2.kind
    ensures x1.kind == Num ==> x1.val == x2.val
    ensures forall op :: IsReserved(s1, x1, op) == IsReserved(s2, x2, op)
  {
  }

  lemma {:induction false} FirstBadAgrees(s1: string, t1: seq<Token>, s2: string, t2: seq<Token>, from: nat)
    requires Lexemes(s1, t1) == Lexemes(s2, t2) && from <= |t1|
    ensures |t1| == |t2| && FirstBad(s1, t1, from) == FirstBad(s2, t2, from)
    decreases |t1| - from
  {
    if from < |t1| {
      assert LexemeOf(s1, t1[from]) == LexemeOf(s2, t2[from]);
      assert Bad(s1, t1, from) == Bad(s2, t2, from);
      FirstBadAgrees(s1, t1, s2, t2, from + 1);
    }
  }

  /** Tokens with the same lexemes give the same instruction for a number. */
  lemma StepAgrees(s1: string, t1: seq<Token>, s2: string, t2: seq<Token>, k: nat)
    requires |t1| == |t2| && 2 * k < |t1| && t1[2 * k].kind == Num
    requires LexemeOf(s1, t1[2 * k]) == LexemeOf(s2, t2[2 * k])
    requires k > 0 ==> LexemeOf(s1, t1[2 * k - 1]) == LexemeOf(s2, t2[2 * k - 1])
    ensures Step(s1, t1, k) == Step(s2, t2, k)
  {
    SameLexeme(s1, t1[2 * k], s2, t2[2 * k]);
    if k > 0 {
      SameLexeme(s1, t1[2 * k - 1], s2, t2[2 * k - 1]);
    }
  }

  /** Tokens with the same lexemes give the same instructions for numbers read in grammatical order. */
  lemma BodyAgrees(s1: string, t1: seq<Token>, s2: string, t2: seq<Token>, n: nat)
    requires Lexemes(s1, t1) == Lexemes(s2, t2) && 2 * n <= |t1| + 1
    requires forall j :: 0 <= j < 2 * n - 1 ==> !Bad(s1, t1, j)
    ensures Body(s1, t1, n) == Body(s2, t2, n)
  {
    forall k | 0 <= k < n
      ensures Step(s1, t1, k) == Step(s2, t2, k)
    {
      assert !Bad(s1, t1, 2 * k);
      assert LexemeOf(s1, t1[2 * k]) == LexemeOf(s2, t2[2 * k]);
      if k > 0 {
        assert LexemeOf(s1, t1[2 * k - 1]) == LexemeOf(s2, t2[2 * k - 1]);
      }
      StepAgrees(s1, t1, s2, t2, k);
    }
  }

  /**
   * The printed lines depend only on the kinds, characters and values of
   * the tokens, not on where they stand in the input.
   */
  lemma GenDependsOnLexemes(s1: string, t1: seq<Token>, s2: string, t2: seq<Token>)
    requires WellFormed(t1) && Lexemes(s1, t1) == Lexemes(s2, t2)
    ensures WellFormed(t2)
    ensures SameOutput(Gen(s1, t1), Gen(s2, t2))
  {
    assert forall j :: 0 <= j < |t1| ==> LexemeOf(s1, t1[j]) == LexemeOf(s2, t2[j]);
    assert WellFormed(t2);
    GenMatchesGrammar(s1, t1);
    GenMatchesGrammar(s2, t2);
    FirstBadAgrees(s1, t1, s2, t2, 0);
    var m := FirstBad(s1, t1, 0);
    forall n: nat | 2 * n <= m + 1 ensures Body(s1, t1, n) == Body(s2, t2, n) {
      BodyAgrees(s1, t1, s2, t2, n);
    }
    if m < |t1| {
      assert LexemeOf(s1, t1[m]) == LexemeOf(s2, t2[m]);
    }
  }

  // ----- The text of the listing -----

  function DigitChar(d: nat): (c: char)
    requires d < 10
    ensures IsDigit(c) && c as int - '0' as int == d
  {
    ('0' as int + d) as char
  }

  /** `%d` of a non-negative value: its decimal digits, which read back as the value. */
  function Decimal(n: nat): (d: string)
    ensures |d| >= 1 && AllDigits(d)
    ensures DigitsValue(d) == n
    ensures |d| > 1 ==> d[0] != '0'
    decreases n
  {
    if n < 10 then [DigitChar(n)]
    else
      var prefix := Decimal(n / 10);
      assert (prefix + [DigitChar(n % 10)])[..|prefix|] == prefix;
      prefix + [DigitChar(n % 10)]
  }

  /** Every instruction can be printed as one line: no symbol holds a newline. */
  predicate Printable(code: seq<Instr>) {
    forall j :: 0 <= j < |code| ==> (code[j].Globl? || code[j].Label? ==> '\n' !in code[j].sym)
  }

  /** Every symbol in the code is `main`. */
  predicate OnlyMain(code: seq<Instr>) {
    forall j :: 0 <= j < |code| ==> (code[j].Globl? || code[j].Label? ==> code[j].sym == "main")
  }

  /** Lines appended by the loop name no symbol and print as one line each, as `out` does. */
  lemma ExtendsPrintable(e: Emission, out: seq<Instr>)
    requires ExtendsWithArith(e, out) && Printable(out) && OnlyMain(out)
    ensures Printable(if e.Complete? then e.code else e.partial)
    ensures OnlyMain(if e.Complete? then e.code else e.partial)
  {
    var printed := if e.Complete? then e.code[..|e.code| - 1] else e.partial;
    var all := if e.Complete? then e.code else e.partial;
    forall j | 0 <= j < |all|
      ensures all[j].Globl? || all[j].Label? ==> '\n' !in all[j].sym && all[j].sym == "main"
    {
      if j < |out| {
        assert all[j] == printed[j] == printed[..|out|][j] == out[j];
      } else if j < |printed| {
        assert all[j] == printed[j];
      }
    }
  }

  /** Every symbol the pass prints is `main`, so whatever it prints is printable. */
  lemma GenIsPrintable(s: string, t: seq<Token>)
    requires WellFormed(t)
    ensures var e := Gen(s, t); Printable(if e.Complete? then e.code else e.partial)
    ensures var e := Gen(s, t); OnlyMain(if e.Complete? then e.code else e.partial)
  {
    assert Printable(Preamble) && OnlyMain(Preamble);
    if t[0].kind == Num {
      var out := Preamble + [Mov(t[0].val)];
      assert Printable(out) && OnlyMain(out);
      LoopExtends(s, t, 1, out);
      ExtendsPrintable(Loop(s, t, 1, out), out);
    }
  }

  /** The line `main` prints for an instruction. */
  function Line(x: Instr): (l: string)
    requires x.Globl? || x.Label? ==> '\n' !in x.sym
    ensures |l| > 0 && l[|l| - 1] == '\n' && '\n' !in l[..|l| - 1]
  {
    match x
    case IntelSyntax => ".intel_syntax noprefix\n"
    case Globl(sym) => ".globl " + sym + "\n"
    case Label(sym) => sym + ":\n"
    case Mov(n) => "    mov rax, " + Decimal(n) + "\n"
    case Add(n) => "    add rax, " + Decimal(n) + "\n"
    case Sub(n) => "    sub rax, " + Decimal(n) + "\n"
    case Ret => "    ret\n"
  }
}
