/**
 * What the compiler writes to standard error when it gives up. The two
 * entry points differ only here: one echoes the input and puts a caret
 * under the offending offset (`error_at`), the other prints the bare
 * message (`error`).
 */
module Diagnostics {
  import opened Results
  import opened Tokens
  import opened Cursor

  /** Every reason the compiler exits with status 1. */
  datatype Fault = InvalidArguments | TokenizeError(at: nat) | Parse(error: ParseError)

  /** `Located`: diagnostics with an input echo and a caret; `Bare`: the message alone. */
  datatype Style = Located | Bare

  /** The input offset a fault is reported at, if it has one. */
  function Offset(f: Fault): (p: Option<nat>)
    ensures p.None? <==> f.InvalidArguments?
  {
    match f
    case InvalidArguments => None
    case TokenizeError(at) => Some(at)
    case Parse(e) => Some(e.at)
  }

  /**
   * The message text of a fault, as each entry point words it. A missing
   * operator is named in the message (`'%c'`).
   */
  function Message(style: Style, f: Fault): (m: string)
    ensures |m| > 0
    ensures f.Parse? && f.error.NotOperator? ==> |m| >= 3 && m[|m| - 3] == f.error.op
  {
    match f
    case InvalidArguments => "Invalid number of arguments."
    case TokenizeError(_) => "Can not tokenize!"
    case Parse(NotOperator(op, _)) => "token is not '" + [op] + "'."
    case Parse(NotNumber(_)) =>
      if style == Located then "token is not a number." else "token is not number."
  }

  /** The two entry points word every message alike except the one for a missing number. */
  lemma MessageStylesDiffer(f: Fault)
    ensures Message(Located, f) == Message(Bare, f) <==> !(f.Parse? && f.error.NotNumber?)
  {
    if f.Parse? && f.error.NotNumber? {
      assert Message(Located, f)[13] == 'a' && Message(Bare, f)[13] == 'n';
    }
  }

  function Spaces(n: nat): (r: string)
    ensures |r| == n && forall k :: 0 <= k < n ==> r[k] == ' '
  {
    if n == 0 then "" else Spaces(n - 1) + " "
  }

  /**
   * The caret line as `error_at` prints it: `%*s` with width `pos` applied
   * to the one-character string " ", which pads to `pos` characters but never
   * prints fewer than the one it is given.
   */
  function CaretLineAsWritten(pos: nat): (l: string)
    ensures var w := if pos < 1 then 1 else pos;
      |l| == w + 2 && l[w] == '^' && forall k :: 0 <= k < w ==> l[k] == ' '
  {
    Spaces(if pos < 1 then 1 else pos) + "^ "
  }

  /** The caret line as intended: exactly `pos` spaces, then the caret. */
  function CaretLine(pos: nat): (l: string)
    ensures |l| == pos + 2
    ensures l[pos] == '^' && forall k :: 0 <= k < pos ==> l[k] == ' '
  {
    Spaces(pos) + "^ "
  }

  /** The caret as written sits where intended at every offset but the first. */
  lemma CaretAsWrittenAgreesAfterStart(pos: nat)
    requires pos >= 1
    ensures CaretLineAsWritten(pos) == CaretLine(pos)
  {
  }

  /**
   * At offset 0 the caret as written lands one column to the right: for the
   * input "+1" it stands under the `1` instead of under the `+` that failed.
   */
  lemma CaretAsWrittenMisplacedAtStart()
    ensures CaretLineAsWritten(0)[0] == ' ' && CaretLineAsWritten(0)[1] == '^'
    ensures CaretLineAsWritten(0) != CaretLine(0)
  {
    assert CaretLineAsWritten(0) == " ^ ";
  }

  /**
   * The text written to standard error for a fault, for the given input,
   * with the caret where it is meant to be.
   */
  function Report(style: Style, input: string, f: Fault): string {
    if style == Located && Offset(f).Some? then
      input + "\n" + CaretLine(Offset(f).value) + Message(style, f) + "\n"
    else
      Message(style, f) + "\n"
  }

  /**
   * The located report as `error_at` prints it, with the caret line as
   * written; a fault without an offset is reported through `error`.
   */
  function ReportAsWritten(input: string, f: Fault): string {
    if Offset(f).Some? then
      input + "\n" + CaretLineAsWritten(Offset(f).value) + Message(Located, f) + "\n"
    else
      Message(Located, f) + "\n"
  }

  /**
   * Every report ends with the message and a newline: after the caret on
   * the caret line for a located report, and alone for a bare one.
   */
  lemma ReportEndsWithMessage(style: Style, input: string, f: Fault)
    ensures var r, m := Report(style, input, f), Message(style, f);
      |r| > |m| && r[|r| - 1] == '\n' && r[|r| - 1 - |m|..|r| - 1] == m
      && (style == Bare ==> |r| == |m| + 1)
    ensures var r, m := ReportAsWritten(input, f), Message(Located, f);
      |r| > |m| && r[|r| - 1] == '\n' && r[|r| - 1 - |m|..|r| - 1] == m
  {
    var m := Message(style, f);
    var r := Report(style, input, f);
    assert r[|r| - 1 - |m|..|r| - 1] == m;
    var m' := Message(Located, f);
    var r' := ReportAsWritten(input, f);
    assert r'[|r'| - 1 - |m'|..|r'| - 1] == m';
  }

  /** The report as written differs from the corrected one only for faults at offset 0. */
  lemma ReportAsWrittenDiffersOnlyAtStart(input: string, f: Fault)
    ensures ReportAsWritten(input, f) == Report(Located, input, f) <==> Offset(f) != Some(0)
  {
    if Offset(f) == Some(0) {
      var a, b := ReportAsWritten(input, f), Report(Located, input, f);
      assert a[|input| + 1] == ' ' && b[|input| + 1] == '^';
    } else if Offset(f).Some? {
      CaretAsWrittenAgreesAfterStart(Offset(f).value);
    }
  }

  /**
   * A fault at offset 0 of "+1": as written, the second line starts with a
   * space and puts the caret in column 1, under the `1`.
   */
  lemma LeadingFaultAsWritten()
    ensures var r := ReportAsWritten("+1", Parse(NotNumber(0)));
      r[..3] == "+1\n" && r[3] == ' ' && r[4] == '^'
  {
    var caret := CaretLineAsWritten(0);
    assert caret == Spaces(1) + "^ " && caret[0] == ' ' && caret[1] == '^';
    var r := ReportAsWritten("+1", Parse(NotNumber(0)));
    assert r == "+1\n" + caret + Message(Located, Parse(NotNumber(0))) + "\n";
    assert r[3] == caret[0] && r[4] == caret[1];
  }

  /** The same fault corrected: the caret is in column 0, under the `+`. */
  lemma LeadingFaultCorrected()
    ensures var r := Report(Located, "+1", Parse(NotNumber(0)));
      r[..3] == "+1\n" && r[3] == '^'
  {
    LocatedReportPointsAt("+1", Parse(NotNumber(0)));
  }

  /** The message for a missing `-` at offset 2 of "1 2", in both styles. */
  lemma MissingOperatorText()
    ensures Report(Located, "1 2", Parse(NotOperator('-', 2))) == "1 2\n  ^ token is not '-'.\n"
    ensures Report(Bare, "1 2", Parse(NotOperator('-', 2))) == "token is not '-'.\n"
  {
    var f := Parse(NotOperator('-', 2));
    var msg := "token is not '-'.";
    assert Message(Located, f) == Message(Bare, f) == msg;
    assert Spaces(2) == "  ";
    var caret := "  ^ ";
    assert CaretLine(2) == caret;
    assert Report(Located, "1 2", f) == "1 2\n" + caret + msg + "\n";
  }

  /**
   * With the located style, a fault at offset `p` echoes the input, then a
   * newline, then `p` spaces and the caret: the caret is in column `p`
   * counted in characters of the echoed input.
   */
  lemma LocatedReportPointsAt(input: string, f: Fault)
    requires Offset(f).Some?
    ensures var r := Report(Located, input, f);
      var p := Offset(f).value;
      r[..|input|] == input && r[|input|] == '\n'
      && r[|input| + 1 + p] == '^'
      && forall k :: |input| < k <= |input| + p ==> r[k] == ' '
  {
    var p := Offset(f).value;
    var r := Report(Located, input, f);
    var caret := CaretLine(p);
    assert r == input + "\n" + caret + Message(Located, f) + "\n";
    assert r[|input| + 1 + p] == caret[p];
    forall k | |input| < k <= |input| + p
      ensures r[k] == ' '
    {
      assert r[k] == caret[k - |input| - 1];
    }
  }

  /**
   * As written, a fault at offset `p` echoes the input, then a newline, then
   * `max(p, 1)` spaces and the caret: in the column of the offending
   * character, counted in characters of the echo, for every offset but 0.
   */
  lemma AsWrittenReportPointsAt(input: string, f: Fault)
    requires Offset(f).Some?
    ensures var r := ReportAsWritten(input, f);
      var p := Offset(f).value;
      var w := if p < 1 then 1 else p;
      r[..|input|] == input && r[|input|] == '\n'
      && r[|input| + 1 + w] == '^'
      && forall k :: |input| < k <= |input| + w ==> r[k] == ' '
  {
    var p := Offset(f).value;
    var w := if p < 1 then 1 else p;
    var r := ReportAsWritten(input, f);
    var caret := CaretLineAsWritten(p);
    assert r == input + "\n" + caret + Message(Located, f) + "\n";
    assert r[|input| + 1 + w] == caret[w];
    forall k | |input| < k <= |input| + w
      ensures r[k] == ' '
    {
      assert r[k] == caret[k - |input| - 1];
    }
  }

  /**
   * With the bare style the report says what went wrong but not where: two
   * faults of the same kind give the same text, whatever their offsets and
   * inputs.
   */
  lemma BareReportHasNoPosition(in1: string, f1: Fault, in2: string, f2: Fault)
    requires || (f1.TokenizeError? && f2.TokenizeError?)
             || (f1.Parse? && f2.Parse? && f1.error.NotNumber? && f2.error.NotNumber?)
             || (f1.Parse? && f2.Parse? && f1.error.NotOperator? && f2.error.NotOperator?
                 && f1.error.op == f2.error.op)
    ensures Report(Bare, in1, f1) == Report(Bare, in2, f2)
  {
  }
}
