/**
 * `main`: checks the argument count, scans the one argument, runs the
 * parse-and-emit pass over the tokens and reports the first failure.
 */
module Compiler {
  import opened Results
  import opened Tokens
  import opened Lexer
  import opened Cursor
  import opened Codegen
  import opened Diagnostics

  /**
   * What a run leaves behind: the lines printed on standard output, and
   * the fault it exited with status 1 for, if any. Lines printed before a
   * fault stay printed.
   */
  datatype Run = Run(stdout: seq<Instr>, fault: Option<Fault>)

  /** The process exit status of a run. */
  function ExitStatus(r: Run): int {
    if r.fault.None? then 0 else 1
  }

  /**
   * `main` on the argument vector `args` (`args[0]` is the program name).
   * A wrong argument count is the only reason for `InvalidArguments`; it and
   * a scan failure stop the run before anything is printed; and the only
   * operator ever reported missing is `-`.
   */
  function CompileSpec(args: seq<CString>): (r: Run)
    ensures r.fault == Some(InvalidArguments) <==> |args| != 2
    ensures r.fault.Some? && !r.fault.value.Parse? ==> r.stdout == []
    ensures r.fault.Some? && r.fault.value.Parse? && r.fault.value.error.NotOperator? ==>
      r.fault.value.error.op == '-'
  {
    if |args| != 2 then Run([], Some(InvalidArguments))
    else
      var lexed := Lex(args[1], 0);
      if lexed.CannotTokenize? then Run([], Some(TokenizeError(lexed.at)))
      else
        var e := Gen(args[1], lexed.toks);
        if e.Complete? then Run(e.code, None) else Run(e.partial, Some(Parse(e.error)))
  }

  /** `main`: the scanner loop, then the cursor-driven pass over a fresh cursor. */
  method Compile(args: seq<CString>) returns (r: Run)
    ensures r == CompileSpec(args)
  {
    if |args| != 2 {
      return Run([], Some(InvalidArguments));
    }
    var lexed := Tokenize(args[1]);
    if lexed.CannotTokenize? {
      return Run([], Some(TokenizeError(lexed.at)));
    }
    var cursor := new TokenCursor(args[1], lexed.toks);
    var e := Generate(cursor);
    if e.Complete? {
      return Run(e.code, None);
    }
    return Run(e.partial, Some(Parse(e.error)));
  }

  /**
   * What a run writes to standard error, in either diagnostic style, with
   * the located caret as `error_at` prints it.
   */
  function Stderr(style: Style, args: seq<CString>, r: Run): (text: string)
    ensures text == "" <==> r.fault.None?
  {
    if r.fault.None? then ""
    else if style == Located then ReportAsWritten(if |args| == 2 then args[1] else "", r.fault.value)
    else Report(Bare, if |args| == 2 then args[1] else "", r.fault.value)
  }

  /** Standard error of a located run with the caret where it is meant to be. */
  function StderrCorrected(args: seq<CString>, r: Run): (text: string)
    ensures text == "" <==> r.fault.None?
  {
    if r.fault.None? then ""
    else Report(Located, if |args| == 2 then args[1] else "", r.fault.value)
  }

  /**
   * The located standard error as written and as corrected are the same
   * text except for a run that fails at offset 0 of its argument.
   */
  lemma StderrCorrectedOnlyAtStart(args: seq<CString>, r: Run)
    ensures Stderr(Located, args, r) == StderrCorrected(args, r) <==>
      r.fault.None? || Offset(r.fault.value) != Some(0)
  {
    if r.fault.Some? {
      ReportAsWrittenDiffersOnlyAtStart(if |args| == 2 then args[1] else "", r.fault.value);
    }
  }

  // ----- The text on standard output -----

  /** The lines of a listing, one after the other. */
  function Listing(code: seq<Instr>): string
    requires Printable(code)
  {
    if code == [] then "" else Line(code[0]) + Listing(code[1..])
  }

  function NewlineCount(s: string): nat {
    if s == [] then 0 else (if s[0] == '\n' then 1 else 0) + NewlineCount(s[1..])
  }

  lemma {:induction false} NewlineCountAppend(a: string, b: string)
    ensures NewlineCount(a + b) == NewlineCount(a) + NewlineCount(b)
    decreases |a|
  {
    if a == [] {
      assert a + b == b;
    } else {
      assert (a + b)[0] == a[0];
      assert (a + b)[1..] == a[1..] + b;
      NewlineCountAppend(a[1..], b);
    }
  }

  lemma {:induction false} LineHasOneNewline(l: string)
    requires |l| > 0 && l[|l| - 1] == '\n' && '\n' !in l[..|l| - 1]
    ensures NewlineCount(l) == 1
    decreases |l|
  {
    if |l| > 1 {
      assert l[0] == l[..|l| - 1][0];
      var tail := l[1..];
      var pre, whole := tail[..|tail| - 1], l[..|l| - 1];
      forall m | 0 <= m < |pre|
        ensures pre[m] != '\n'
      {
        assert pre[m] == whole[m + 1];
      }
      LineHasOneNewline(tail);
    }
  }

  /** Each instruction is printed as exactly one line. */
  lemma {:induction false} ListingHasOneLinePerInstr(code: seq<Instr>)
    requires Printable(code)
    ensures NewlineCount(Listing(code)) == |code|
    decreases |code|
  {
    if code != [] {
      var l := Line(code[0]);
      LineHasOneNewline(l);
      NewlineCountAppend(l, Listing(code[1..]));
      ListingHasOneLinePerInstr(code[1..]);
    }
  }

  /** Every symbol a run prints is `main`, so each instruction prints as one line. */
  lemma CompiledIsPrintable(args: seq<CString>)
    ensures Printable(CompileSpec(args).stdout)
    ensures OnlyMain(CompileSpec(args).stdout)
  {
    if |args| == 2 && Lex(args[1], 0).Tokenized? {
      GenIsPrintable(args[1], Lex(args[1], 0).toks);
    }
  }

  // ----- What a run does, end to end -----

  /** Every character is whitespace, an operator or a digit, and the tokens follow the grammar. */
  predicate Accepted(s: CString) {
    (forall k :: 0 <= k < |s| ==> !Illegal(s[k]))
    && Lex(s, 0).Tokenized?
    && var t := Lex(s, 0).toks;
       forall j :: 0 <= j < |t| ==> !Bad(s, t, j)
  }

  /**
   * A run succeeds, and exits with status 0, exactly when there is one argument, every character of
   * it is whitespace, an operator or a digit, and its tokens follow the
   * grammar NUMBER (('+'|'-') NUMBER)*.
   */
  lemma CompileSucceedsIff(args: seq<CString>)
    ensures CompileSpec(args).fault.None? <==> |args| == 2 && Accepted(args[1])
    ensures ExitStatus(CompileSpec(args)) == 0 <==> |args| == 2 && Accepted(args[1])
    ensures ExitStatus(CompileSpec(args)) == 1 <==> !(|args| == 2 && Accepted(args[1]))
  {
    if |args| == 2 {
      LexFailsAtFirstIllegal(args[1], 0);
      if Lex(args[1], 0).Tokenized? {
        GenSucceedsIffSentence(args[1], Lex(args[1], 0).toks);
      }
    }
  }

  /**
   * A character the scanner cannot place stops the run before anything is
   * printed, with the offset of the first such character.
   */
  lemma IllegalCharacterPrintsNothing(args: seq<CString>, k: nat)
    requires |args| == 2 && k < |args[1]| && Illegal(args[1][k])
    ensures var r := CompileSpec(args);
      r.stdout == [] && r.fault.Some? && r.fault.value.TokenizeError?
      && r.fault.value.at <= k && Illegal(args[1][r.fault.value.at])
      && forall j :: 0 <= j < r.fault.value.at ==> !Illegal(args[1][j])
  {
    LexFailsAtFirstIllegal(args[1], 0);
  }

  /**
   * A successful run prints the preamble, one instruction per number (a
   * load, then one add or subtract per `+` or `-` in the argument) and
   * `ret`; the listing returns the left-to-right sum and difference of the
   * numbers, whatever `rax` held before.
   */
  lemma CompiledProgramValue(args: seq<CString>, rax: int)
    requires CompileSpec(args).fault.None?
    ensures |args| == 2 && Lex(args[1], 0).Tokenized?
    ensures var code := CompileSpec(args).stdout;
      var t := Lex(args[1], 0).toks;
      |code| == |Preamble| + 1 + OpCount(args[1]) + 1
      && code[..|Preamble|] == Preamble && code[|code| - 1] == Ret
      && |t| >= 2 && Exec(code, rax) == Some(Value(args[1], t, |t| / 2))
  {
    var s := args[1];
    var t := Lex(s, 0).toks;
    GenComputesValue(s, t, rax);
    GenMatchesGrammar(s, t);
    LexOpCount(s, 0);
    assert s[0..] == s;
  }

  /** Two runs with the same output and the same kind of fault; a scan failure moves with the inserted character. */
  predicate SameRun(r1: Run, r2: Run, k: nat) {
    r1.stdout == r2.stdout && r1.fault.None? == r2.fault.None?
    && (r1.fault.Some? ==>
          var f1 := r1.fault.value;
          var f2 := r2.fault.value;
          if f1.TokenizeError? then f2.TokenizeError? && f2.at == (if f1.at < k then f1.at else f1.at + 1)
          else f1.Parse? && f2.Parse? && f1.error.NotOperator? == f2.error.NotOperator?
               && (f1.error.NotOperator? ==> f1.error.op == f2.error.op))
  }

  /**
   * Whitespace between tokens does not matter: inserting one whitespace
   * character anywhere but inside a number leaves standard output and the
   * kind of failure unchanged, and moves a scan failure at or after the
   * insertion point by one.
   */
  lemma CompileSpaceInsensitive(prog: CString, input: CString, k: nat, w: char)
    requires k <= |input| && IsSpace(w)
    requires !(0 < k < |input| && IsDigit(input[k - 1]) && IsDigit(input[k]))
    ensures SameRun(CompileSpec([prog, input]), CompileSpec([prog, Insert(input, k, w)]), k)
  {
    var input' := Insert(input, k, w);
    SpaceInsensitive(input, k, w);
    if Lex(input, 0).Tokenized? {
      GenDependsOnLexemes(input, Lex(input, 0).toks, input', Lex(input', 0).toks);
    }
  }

  /** Any argument count but one program argument fails at once, printing nothing. */
  lemma ArgcFault(args: seq<CString>)
    requires |args| != 2
    ensures CompileSpec(args) == Run([], Some(InvalidArguments))
    ensures Stderr(Located, args, CompileSpec(args)) == "Invalid number of arguments.\n"
    ensures ExitStatus(CompileSpec(args)) == 1
  {
    assert Message(Located, InvalidArguments) == "Invalid number of arguments.";
  }

  lemma ExampleOne()
    ensures CompileSpec(["cc", "5"]) == Run(Preamble + [Mov(5), Ret], None)
  {
  }

  lemma ExampleSum(s: CString)
    requires s == " 12 + 34 - 5 "
    ensures CompileSpec(["cc", s]) == Run(Preamble + [Mov(12), Add(34), Sub(5), Ret], None)
  {
    ScanExample(s);
    var t := Lex(s, 0).toks;
    var out := Preamble + [Mov(12)];
    assert Gen(s, t) == Loop(s, t, 1, out);
    assert IsReserved(s, t[1], '+');
    assert Loop(s, t, 1, out) == Loop(s, t, 3, out + [Add(34)]);
    assert !IsReserved(s, t[3], '+') && IsReserved(s, t[3], '-');
    assert Loop(s, t, 3, out + [Add(34)]) == Loop(s, t, 5, out + [Add(34)] + [Sub(5)]);
  }

  lemma ExampleIllegal()
    ensures CompileSpec(["cc", "1 * 2"]) == Run([], Some(TokenizeError(2)))
  {
  }

  lemma ExampleMissingOp()
    ensures CompileSpec(["cc", "1 2"]) == Run(Preamble + [Mov(1)], Some(Parse(NotOperator('-', 2))))
  {
  }

  lemma ExampleMissingNum()
    ensures CompileSpec(["cc", "1+"]) == Run(Preamble + [Mov(1)], Some(Parse(NotNumber(2))))
  {
  }

  lemma ExampleLeadingOperator()
    ensures CompileSpec(["cc", "+1"]) == Run(Preamble, Some(Parse(NotNumber(0))))
  {
  }

  lemma ExampleEmpty()
    ensures CompileSpec(["cc", ""]) == Run(Preamble, Some(Parse(NotNumber(0))))
  {
  }

  /**
   * The caret finding on a run: for the argument "+1" the pass stops at
   * offset 0, where a number was expected. Standard error as written puts
   * the caret under the `1`; the corrected text puts it under the `+`.
   */
  lemma LeadingOperatorCaret()
    ensures CompileSpec(["cc", "+1"]) == Run(Preamble, Some(Parse(NotNumber(0))))
    ensures var r := Stderr(Located, ["cc", "+1"], CompileSpec(["cc", "+1"]));
      r[..3] == "+1\n" && r[3] == ' ' && r[4] == '^'
    ensures var r := StderrCorrected(["cc", "+1"], CompileSpec(["cc", "+1"]));
      r[..3] == "+1\n" && r[3] == '^'
    ensures Stderr(Bare, ["cc", "+1"], CompileSpec(["cc", "+1"])) == "token is not number.\n"
  {
    ExampleLeadingOperator();
    LeadingFaultAsWritten();
    LeadingFaultCorrected();
  }

  /** The two diagnostic styles on the same failed run. */
  lemma MissingOperatorReports()
    ensures var r := CompileSpec(["cc", "1 2"]);
      Stderr(Located, ["cc", "1 2"], r) == "1 2\n  ^ token is not '-'.\n"
      && Stderr(Bare, ["cc", "1 2"], r) == "token is not '-'.\n"
      && ExitStatus(r) == 1
  {
    ExampleMissingOp();
    MissingOperatorText();
    ReportAsWrittenDiffersOnlyAtStart("1 2", Parse(NotOperator('-', 2)));
  }
}
