# A verified model of the 9cc step-1 compiler

The program compiles one command-line argument in the language
`NUMBER (('+'|'-') NUMBER)*` into x86-64 assembly that leaves the value of the
expression in `rax`. It has one pass that both scans and emits code:

- `tokenize` turns the argument into a list of tokens: Reserved for `+`/`-`,
  Num for a digit run, and a final Eof.
- `consume`, `expect` and `expect_number` move a global current-token pointer
  forward through that list.
- `main` prints a preamble and a `mov` for the first number. It then prints an
  `add` or a `sub` for every following operator-and-number pair, and finally `ret`.

Two variants of the program exist, and they differ only in how they report
failures:

- `c/chibicc.c` uses `error_at`. It echoes the input and puts a caret under the
  offending offset.
- `chibicc.c` uses `error`, which prints the bare message.

The model has these modules:

- `Tokens`: the token datatype, the character classes (C-locale `isspace`,
  `isdigit`), digit runs and their values.
- `Lexer`: the specification of the scan as a recursive function `Lex`. It also
  holds the scanning loop `Tokenize`, proved equal to `Lex`, and lemmas on
  soundness, completeness, order, failure position, operator count and
  whitespace insensitivity.
- `Cursor`: the current-token pointer. It is a class with an index into the
  token sequence and the methods `Consume`, `Expect`, `ExpectNumber` and
  `AtEof`.
- `Codegen`: the emission loop of `main`. It has a specification function
  `Gen`, and the method `Generate` drives a `TokenCursor` and is proved equal to
  `Gen`. There is also an independent reference, the grammar (`Bad`,
  `FirstBad`), with the instructions each number should produce (`Step`,
  `Body`) and the left-to-right value (`Value`). A small interpreter of the
  instructions (`Exec`) shows that the emitted code computes that value.
- `Diagnostics`: the error messages of both variants, and the caret line as
  written and as intended.
- `Compiler`: `main` as a whole. The method `Compile` is proved equal to
  `CompileSpec`. End-to-end lemmas cover success, failure, value, output size
  and whitespace insensitivity, with concrete runs as examples.

Some choices in how things are represented:

- The input is a `CString`, a string without NUL. C's `*p` test becomes
  `p < |s|`, and reading `token->str[0]` past the end gives the terminator
  (`CharAt`); in a NUL-free string that happens exactly at the end
  (`CharAtTerminator`).
- A token's `str` pointer becomes its offset in the input.
- Process exit and the partial standard output are captured by the `Run`
  datatype: the instructions printed so far, plus the fault if there was one.

## Model

| member | source | states |
|---|---|---|
| Tokens.CharAtTerminator | c/chibicc.c:103 | in a NUL-free argument the character read at an offset is the terminator exactly at or past the end, so `while (*p)` stops at the end of the argument and `token->str[0]` of the Eof token is NUL |
| Tokens.CharClasses | c/chibicc.c:105-115 | `isspace` holds exactly for space, tab, newline, vertical tab, form feed and carriage return, `isdigit` exactly for `0`-`9`, and no character is both |
| Tokens.ShortRunFitsInt | c/chibicc.c:117 | a run of at most nine digits has a value below `2^31`, so storing it in `int val` changes nothing |
| Lexer.LexShortNumFitsInt | c/chibicc.c:115-118 | every Num token of at most nine digits carries a value that fits C's `int` |
| Tokens.DigitsValueBounds | c/chibicc.c:117 | a run of `d` digits read in base 10 is below `10^d`, and at least `10^(d-1)` when it has no leading zero |
| Tokens.RunEnd | c/chibicc.c:115-119 | where `strtol` stops: the run from `i` is all digits, cannot be extended, and is non-empty when `s[i]` is a digit |
| Tokens.RunEndUnique | c/chibicc.c:117 | any maximal digit run starting at `i` ends where `strtol` stops |
| Lexer.Lex | c/chibicc.c:98-128 | a successful scan ends in exactly one Eof token, placed at the end of the input; a failure lies within the unscanned input |
| Lexer.Tokenize | c/chibicc.c:98-128 | the pointer-advancing scanning loop returns exactly the scan `Lex(s, 0)`; `chibicc.c:81-109` is the same code |
| Lexer.LexBlank | c/chibicc.c:103-108 | the scan gives the lone Eof token exactly when only whitespace is left, so the empty input gives `[Eof]` |
| Lexer.LexOrdered | c/chibicc.c:110-119 | token offsets strictly increase and never precede the scan start |
| Lexer.LexReservedSound | c/chibicc.c:110-113 | every Reserved token stands on a `+` or `-` of the input and has value 0 |
| Lexer.LexNumSound | c/chibicc.c:115-119 | every Num token starts a maximal digit run, and its value is that run read in base 10 |
| Lexer.LexComplete | c/chibicc.c:103-119 | every `+`/`-` of the input has a Reserved token at its offset, and every digit run has a Num token at its start |
| Lexer.LexFailsAtFirstIllegal | c/chibicc.c:121 | the scan fails exactly when some character is not whitespace, an operator or a digit, and then at the first such character; `chibicc.c:104` fails on the same inputs, without a position |
| Lexer.LexOpCount | c/chibicc.c:110-113 | the number of Reserved tokens equals the number of `+`/`-` characters in the input |
| Lexer.LexSuffix | c/chibicc.c:103-122 | the scan depends only on the remaining text: the same suffix gives the same lexemes, and a failure at the same relative offset |
| Lexer.SpaceInsensitive | c/chibicc.c:105-108 | inserting a whitespace character anywhere except inside a number leaves kinds, characters and values unchanged, and moves a failure with the text |
| Lexer.ScanExample | c/chibicc.c:98-128 | `" 12 + 34 - 5 "` scans to Num 12 at 1, `+` at 4, Num 34 at 6, `-` at 9, Num 5 at 11 and Eof at 13 |
| Cursor.TokenCursor.constructor | c/chibicc.c:140 | the cursor starts at the first token of a well-formed list |
| Cursor.TokenCursor.AtEof | c/chibicc.c:82-84 | holds exactly when the cursor is on the last token, so otherwise there is a next token to move to; `chibicc.c:65-67` is the same code |
| Cursor.TokenCursor.Consume | c/chibicc.c:57-62 | advances by one and returns true exactly when the current token is the Reserved token for `op`; otherwise returns false and leaves the cursor unchanged; `chibicc.c:40-45` is the same code |
| Cursor.TokenCursor.Expect | c/chibicc.c:66-70 | advances by one on the Reserved token for `op`; otherwise fails with `op` and the offset of the current token, and the cursor does not move; `chibicc.c:49-53` is the same code |
| Cursor.TokenCursor.ExpectNumber | c/chibicc.c:74-80 | on a Num token, returns its value and advances by one; otherwise fails at the current token's offset, and the cursor does not move; `chibicc.c:57-63` is the same code |
| Codegen.Gen | c/chibicc.c:142-162 | the only operator the pass can report missing is `-`, since `+` is only ever tried with `consume` |
| Codegen.Loop | c/chibicc.c:150-160 | from any position, the only operator the loop can report missing is `-` |
| Codegen.LoopExtends | c/chibicc.c:150-160 | whatever was printed before the loop stays printed; the loop appends only `add`/`sub` lines, then `ret` if it completes |
| Codegen.GenShape | c/chibicc.c:142-162 | complete or partial, the output starts with the preamble, has a `mov` next exactly when the first token is a number, then only `add`/`sub`; a complete listing ends in `ret` |
| Codegen.GenIsPrintable | c/chibicc.c:142-144 | every symbol printed before completion or failure is `main`, so each instruction prints as one line |
| Codegen.Generate | c/chibicc.c:142-162 | the cursor-driven emission loop prints exactly what `Gen` prescribes, including the partial output before a parse error; it completes with the cursor on Eof, and a failure leaves the cursor on the token whose offset it reports; `chibicc.c:123-141` is the same code |
| Codegen.FirstBad | c/chibicc.c:147-160 | the first token that breaks the grammar: every earlier token is in place |
| Codegen.BodyComputesValue | c/chibicc.c:147-159 | the load and the add/sub instructions for the first `n` numbers leave their left-to-right sum and difference in `rax` |
| Codegen.LoopMatchesGrammar | c/chibicc.c:150-162 | from any odd position reached in grammatical order, the loop ends in `ret` at a well-formed end, or stops at the first misplaced token with the instructions for the numbers before it |
| Codegen.GenMatchesGrammar | c/chibicc.c:142-162 | the output is the preamble, one instruction per number and `ret` when the tokens follow the grammar; otherwise it is the preamble and the instructions before the first misplaced token, with that token's error |
| Codegen.ReservedCountOfSentence | c/chibicc.c:150-160 | in a grammatical token list, the operators are exactly the tokens between the numbers |
| Codegen.GenComputesValue | c/chibicc.c:142-162 | a complete listing has 3 + 1 + (number of operators) + 1 instructions and returns the left-to-right sum and difference from any starting `rax` |
| Codegen.GenSucceedsIffSentence | c/chibicc.c:147-160 | the pass completes exactly when every token is where the grammar puts it |
| Codegen.GenDependsOnLexemes | c/chibicc.c:147-160 | the printed instructions and the kind of error depend only on token kinds, characters and values, not on offsets |
| Codegen.Decimal | c/chibicc.c:147 | `%d` of a number gives digits without a leading zero that read back as that number |
| Codegen.Line | c/chibicc.c:142-162 | each instruction is printed as one line ending in its only newline |
| Diagnostics.Offset | c/chibicc.c:46 | every fault except the argument-count check has an input offset to point at |
| Diagnostics.Message | c/chibicc.c:66-70 | every message is non-empty, and the message for a missing operator names that operator (`'%c'`) |
| Diagnostics.MessageStylesDiffer | chibicc.c:57-63 | the two variants word every message alike except the missing number: `token is not a number.` against `token is not number.` |
| Diagnostics.CaretLineAsWritten | c/chibicc.c:48-49 | the caret line as written: `max(pos, 1)` spaces, then the caret in that column |
| Diagnostics.ReportEndsWithMessage | c/chibicc.c:42-53 | every report ends with the message and a newline: on a located report (as written or corrected) the message follows the caret on the caret line, and a bare report as `error` at `chibicc.c:30-36` prints it is the message line alone |
| Diagnostics.AsWrittenReportPointsAt | c/chibicc.c:42-53 | `error_at` as written prints the input echo and a newline, then the caret at column `max(p, 1)` (a character offset into the echo) |
| Diagnostics.CaretLine | c/chibicc.c:46-49 | the corrected caret line: `pos` spaces, then the caret in column `pos` |
| Diagnostics.CaretAsWrittenAgreesAfterStart | c/chibicc.c:48 | for offsets of 1 or more, `%*s` with `" "` prints exactly `pos` spaces, so the caret is correct |
| Diagnostics.CaretAsWrittenMisplacedAtStart | c/chibicc.c:48 | at offset 0, `%*s` with `" "` still prints one space, so the caret lands in column 1 |
| Diagnostics.ReportAsWrittenDiffersOnlyAtStart | c/chibicc.c:42-53 | `error_at` as written prints the corrected report exactly when the fault is not at offset 0 |
| Diagnostics.LeadingFaultAsWritten | c/chibicc.c:42-53 | for a fault at offset 0 of `"+1"`, the report as written puts the caret under the `1` |
| Diagnostics.LeadingFaultCorrected | c/chibicc.c:42-53 | the corrected report for that fault puts the caret under the `+` |
| Diagnostics.MissingOperatorText | c/chibicc.c:68 | a missing `-` at offset 2 of `"1 2"` is reported as the echo, a caret line with the caret in column 2, and `token is not '-'.`; `chibicc.c:51` prints only `token is not '-'.` |
| Diagnostics.LocatedReportPointsAt | c/chibicc.c:42-53 | the located report prints the input echo and a newline, then `p` spaces and the caret: column `p` counted as a character offset into the echo, so under the offending character when the echo holds no tab or line break |
| Diagnostics.BareReportHasNoPosition | chibicc.c:30-36 | a bare report is the same text for faults of the same kind, whatever their offsets and inputs |
| Compiler.CompileSpec | c/chibicc.c:131-164 | the fault is the argument count exactly when there is not one argument; that fault and a scan failure come before anything is printed; a missing operator is always `-` |
| Compiler.Compile | c/chibicc.c:131-164 | `main` checks the argument count, scans, then runs the cursor-driven pass, and returns exactly `CompileSpec`; `chibicc.c:114-143` is the same code |
| Compiler.Stderr | c/chibicc.c:30-53 | standard error, with the caret where `error_at` prints it, stays empty exactly when the run succeeds |
| Compiler.StderrCorrected | c/chibicc.c:42-53 | standard error with the caret under the offending character stays empty exactly when the run succeeds |
| Compiler.StderrCorrectedOnlyAtStart | c/chibicc.c:48 | standard error as written and as corrected are the same text exactly unless the run fails at offset 0 |
| Compiler.CompiledIsPrintable | c/chibicc.c:142-144 | every symbol a run prints, in `.globl` or as a label, is `main`, so each instruction prints as one line |
| Compiler.ListingHasOneLinePerInstr | c/chibicc.c:142-162 | the printed text has exactly one line per instruction |
| Compiler.CompileSucceedsIff | c/chibicc.c:131-164 | a run succeeds, and exits with status 0, exactly when there is one argument with no illegal character whose tokens follow the grammar; otherwise it exits with status 1 |
| Compiler.IllegalCharacterPrintsNothing | c/chibicc.c:139-144 | an illegal character stops the run before the preamble is printed, at the first illegal offset |
| Compiler.CompiledProgramValue | c/chibicc.c:142-162 | a successful run prints the preamble, 1 + (number of `+`/`-` in the argument) arithmetic instructions and `ret`; the listing returns the left-to-right sum and difference |
| Compiler.CompileSpaceInsensitive | c/chibicc.c:105-108 | inserting whitespace outside a number leaves standard output and the kind of failure unchanged |
| Compiler.ArgcFault | c/chibicc.c:131-135 | for every argument count other than one, nothing is printed, standard error is `Invalid number of arguments.` and the exit status is 1 |
| Compiler.ExampleOne | c/chibicc.c:142-162 | `"5"` compiles to the preamble, `mov rax, 5` and `ret` |
| Compiler.ExampleSum | c/chibicc.c:142-162 | `" 12 + 34 - 5 "` compiles to `mov 12`, `add 34`, `sub 5`, `ret` after the preamble |
| Compiler.ExampleIllegal | c/chibicc.c:121 | `"1 * 2"` fails to scan at offset 2 with nothing printed |
| Compiler.ExampleMissingOp | c/chibicc.c:158 | `"1 2"` fails in `expect('-')` at the second number, after printing `mov rax, 1` |
| Compiler.ExampleMissingNum | c/chibicc.c:154 | `"1+"` fails in `expect_number` at the Eof offset 2, after printing `mov rax, 1` |
| Compiler.ExampleLeadingOperator | c/chibicc.c:147 | `"+1"` fails in the first `expect_number` at offset 0, after printing only the preamble |
| Compiler.ExampleEmpty | c/chibicc.c:147 | the empty argument fails in the first `expect_number` at offset 0, after printing only the preamble |
| Compiler.LeadingOperatorCaret | c/chibicc.c:46-49 | for `"+1"` standard error as written puts the caret under the `1`, the corrected text puts it under the `+`, and the bare variant says `token is not number.` |
| Compiler.MissingOperatorReports | chibicc.c:51 | for `"1 2"` both variants report `token is not '-'.`, only `error_at` with an echo and a caret (in the right column, as the offset is not 0), and the exit status is 1 |

## Left out

- Formatting through `printf`/`fprintf`/`vfprintf`, and buffering. Standard output is modelled as the instruction sequence; its text is given by `Line`/`Listing`. Standard error is given by `Stderr`, with the caret as `error_at` prints it, and by `StderrCorrected` with the caret where it is meant to be.
- `exit(1)` is not a process exit in the model. It is the `fault` of a `Run`, and the output printed before it is kept.
- `calloc`, the `next` pointers and the `head` sentinel of the token list. The list is a `seq<Token>`, and `new_token` is the append inside `Tokenize`. Zeroed allocation shows only as value 0 for Reserved and Eof tokens.
- `Lex`/`Tokenize`: numbers are unbounded naturals. `strtol` saturation at `LONG_MAX`, truncation into `int val` and `%d` of a negative truncated value are not modelled; `LexShortNumFitsInt` shows the model and C agree on every number of at most nine digits.
- `Exec`/`Apply`: `rax` is an unbounded integer. 64-bit wrap-around of `add`/`sub` is not modelled.
- Locale: `isspace` and `isdigit` are fixed to the C locale.
- The argument vector: NUL can only end an argument, never appear inside one, so arguments are NUL-free strings.
- Global mutable state (`token`, `user_input`) becomes a `TokenCursor` object and an explicit input parameter.

## Findings

| source | as written | input that shows it | evidently intended | confidence | as-written member | corrected member |
|---|---|---|---|---|---|---|
| c/chibicc.c:48 | `fprintf(stderr, "%*s", pos, " ")` pads `" "` to width `pos`, which prints `max(pos, 1)` spaces | `"+1"` (also `"*"`): the error is at offset 0, but the caret is printed in column 1, under the `1` | exactly `pos` spaces, so that the caret is at column `pos` (a character offset into the echo) for every offset | high; not executed | Diagnostics.CaretAsWrittenMisplacedAtStart | Diagnostics.LocatedReportPointsAt |
