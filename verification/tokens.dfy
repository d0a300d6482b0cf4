/** Small failure-compatible result types shared by the scanner and the driver. */
module Results {
  datatype Option<T> = None | Some(value: T)

  datatype Result<T, E> = Ok(value: T) | Err(error: E)
}

/**
 * Tokens of the language `NUMBER (('+'|'-') NUMBER)*` and the character
 * classes the scanner uses.
 */
module Tokens {

  /** The characters of a C string before its terminating NUL. */
  type CString = s: string | '\0' !in s

  datatype TokenKind = Reserved | Num | Eof

  /**
   * A token. `str` is the byte offset of its first character in the input;
   * `val` is the value of a Num token and 0 for the others, which are
   * allocated zeroed and never given a value.
   */
  datatype Token = Token(kind: TokenKind, val: nat, str: nat)

  /** The character at offset `i` of a C string: the terminator past the end. */
  function CharAt(s: string, i: nat): char {
    if i < |s| then s[i] else '\0'
  }

  /**
   * In a NUL-free input the terminator is read exactly at and past the
   * end, so a scan that stops at `'\0'` stops at the end of the input.
   */
  lemma CharAtTerminator(s: CString, i: nat)
    ensures CharAt(s, i) == '\0' <==> i >= |s|
  {
    if i < |s| {
      assert s[i] in s;
    }
  }

  /** `isspace` in the C locale. */
  predicate IsSpace(c: char) {
    c == ' ' || '\t' <= c <= '\r'
  }

  /** `isdigit`. */
  predicate IsDigit(c: char) {
    '0' <= c <= '9'
  }

  /**
   * The character classes as the C locale lists them: `isspace` holds for
   * space, tab, newline, vertical tab, form feed and carriage return, and
   * `isdigit` for the ten decimal digits. No character is in both classes.
   */
  lemma CharClasses(c: char)
    ensures IsSpace(c) <==> c in [' ', '\t', '\n', '\U{000B}', '\U{000C}', '\r']
    ensures IsDigit(c) <==> c in "0123456789"
    ensures !(IsSpace(c) && IsDigit(c))
  {
  }

  /** The two characters that make a Reserved token. */
  predicate IsOp(c: char) {
    c == '+' || c == '-'
  }

  /** A character the scanner cannot place in any token. */
  predicate Illegal(c: char) {
    !IsSpace(c) && !IsOp(c) && !IsDigit(c)
  }

  predicate AllDigits(d: string) {
    forall k :: 0 <= k < |d| ==> IsDigit(d[k])
  }

  function Pow10(n: nat): (p: nat)
    ensures p >= 1
  {
    if n == 0 then 1 else 10 * Pow10(n - 1)
  }

  /** The base-10 value of a digit string, read most significant digit first. */
  function DigitsValue(d: string): nat
    requires AllDigits(d)
  {
    if d == [] then 0
    else 10 * DigitsValue(d[..|d| - 1]) + (d[|d| - 1] as int - '0' as int)
  }

  /**
   * The size of a digit string's value: `n` digits give a value below
   * `10^n`, and at least `10^(n-1)` when the first digit is not `0`.
   */
  lemma {:induction false} DigitsValueBounds(d: string)
    requires AllDigits(d)
    ensures DigitsValue(d) < Pow10(|d|)
    ensures |d| > 0 && d[0] != '0' ==> Pow10(|d| - 1) <= DigitsValue(d)
  {
    if d != [] {
      var prefix := d[..|d| - 1];
      assert AllDigits(prefix);
      assert |prefix| > 0 ==> prefix[0] == d[0];
      DigitsValueBounds(prefix);
    }
  }

  lemma {:induction false} Pow10Monotone(a: nat, b: nat)
    requires a <= b
    ensures Pow10(a) <= Pow10(b)
    decreases b - a
  {
    if a < b {
      Pow10Monotone(a, b - 1);
    }
  }

  /**
   * A run of at most nine digits is below `10^9`, so its value fits the
   * 32-bit `int val` that `strtol`'s result is stored into, unchanged.
   */
  lemma ShortRunFitsInt(d: string)
    requires AllDigits(d) && |d| <= 9
    ensures DigitsValue(d) < 0x8000_0000
  {
    DigitsValueBounds(d);
    Pow10Monotone(|d|, 9);
    assert Pow10(9) == 1000000000;
  }

  /**
   * The end of the maximal run of digits starting at `i`: where `strtol`
   * leaves its end pointer when it parses a number at `i`.
   */
  function RunEnd(s: string, i: nat): (j: nat)
    requires i <= |s|
    ensures i <= j <= |s|
    ensures AllDigits(s[i..j])
    ensures j == |s| || !IsDigit(s[j])
    ensures i < |s| && IsDigit(s[i]) ==> i < j
    decreases |s| - i
  {
    if i < |s| && IsDigit(s[i]) then RunEnd(s, i + 1) else i
  }

  /** The run end is the unique end of a digit run that cannot be extended. */
  lemma RunEndUnique(s: string, i: nat, j: nat)
    requires i <= j <= |s|
    requires AllDigits(s[i..j])
    requires j == |s| || !IsDigit(s[j])
    ensures RunEnd(s, i) == j
    decreases j - i
  {
    if i < j {
      assert IsDigit(s[i..j][0]);
      assert s[i + 1..j] == s[i..j][1..];
      RunEndUnique(s, i + 1, j);
    }
  }

  /**
   * A token list as the scanner produces it: it ends in an Eof token and no
   * other token is Eof.
   */
  predicate WellFormed(t: seq<Token>) {
    |t| > 0 && t[|t| - 1].kind == Eof
    && forall j :: 0 <= j < |t| - 1 ==> t[j].kind != Eof
  }

  /** What a token says, without where it stands. */
  datatype Lexeme = Op(c: char) | Number(v: nat) | End

  function LexemeOf(s: string, t: Token): Lexeme {
    match t.kind
    case Reserved => Op(CharAt(s, t.str))
    case Num => Number(t.val)
    case Eof => End
  }

  /** The kinds, characters and values of a token list, without offsets. */
  function Lexemes(s: string, t: seq<Token>): (r: seq<Lexeme>)
    ensures |r| == |t|
    ensures forall j :: 0 <= j < |t| ==> r[j] == LexemeOf(s, t[j])
  {
    seq(|t|, j requires 0 <= j < |t| => LexemeOf(s, t[j]))
  }

  /** Number of Reserved tokens in a token list. */
  function ReservedCount(t: seq<Token>): nat {
    if t == [] then 0
    else (if t[0].kind == Reserved then 1 else 0) + ReservedCount(t[1..])
  }

  /** Number of `+` and `-` characters in a string. */
  function OpCount(s: string): nat {
    if s == [] then 0
    else (if IsOp(s[0]) then 1 else 0) + OpCount(s[1..])
  }
}
