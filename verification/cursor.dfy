/**
 * The current-token pointer that the parser advances over the token list,
 * and the primitive operations on it.
 */
module Cursor {
  import opened Results
  import opened Tokens

  /** Why the parser stopped: the operator or number it expected, and the offset of the token it found. */
  datatype ParseError = NotOperator(op: char, at: nat) | NotNumber(at: nat)

  /** The current token is the Reserved token for the character `op`. */
  predicate IsReserved(input: string, tok: Token, op: char) {
    tok.kind == Reserved && CharAt(input, tok.str) == op
  }

  /**
   * The cursor: an index into an immutable token list. It only moves
   * forward, one token at a time, and never past the Eof token, because it
   * moves only from a token that is not Eof.
   */
  class TokenCursor {
    const input: CString
    const tokens: seq<Token>
    var index: nat

    ghost predicate Valid()
      reads this
    {
      WellFormed(tokens) && index < |tokens|
    }

    constructor (input: CString, tokens: seq<Token>)
      requires WellFormed(tokens)
      ensures Valid()
      ensures this.input == input && this.tokens == tokens && index == 0
    {
      this.input := input;
      this.tokens := tokens;
      index := 0;
    }

    /**
     * `at_eof`: the current token is Eof. Since Eof is only ever the last
     * token, this says the cursor is at the end, and otherwise there is a
     * token after the current one to advance to.
     */
    predicate AtEof()
      reads this
      requires Valid()
      ensures AtEof() <==> index == |tokens| - 1
    {
      tokens[index].kind == Eof
    }

    /**
     * `consume`: advances past the current token exactly when it is the
     * Reserved token for `op`, and says whether it did.
     */
    method Consume(op: char) returns (consumed: bool)
      requires Valid()
      modifies this
      ensures Valid()
      ensures consumed == IsReserved(input, tokens[old(index)], op)
      ensures index == if consumed then old(index) + 1 else old(index)
    {
      if tokens[index].kind != Reserved || CharAt(input, tokens[index].str) != op {
        return false;
      }
      index := index + 1;
      return true;
    }

    /**
     * `expect`: advances past the current token when it is the Reserved
     * token for `op`; otherwise fails at that token's offset, leaving the
     * cursor where it is.
     */
    method Expect(op: char) returns (r: Result<(), ParseError>)
      requires Valid()
      modifies this
      ensures Valid()
      ensures IsReserved(input, tokens[old(index)], op) ==> r == Ok(()) && index == old(index) + 1
      ensures !IsReserved(input, tokens[old(index)], op) ==>
        r == Err(NotOperator(op, tokens[old(index)].str)) && index == old(index)
    {
      if tokens[index].kind != Reserved || CharAt(input, tokens[index].str) != op {
        return Err(NotOperator(op, tokens[index].str));
      }
      index := index + 1;
      return Ok(());
    }

    /**
     * `expect_number`: returns the value of the current token and advances
     * past it when it is a Num token; otherwise fails at that token's
     * offset, leaving the cursor where it is.
     */
    method ExpectNumber() returns (r: Result<nat, ParseError>)
      requires Valid()
      modifies this
      ensures Valid()
      ensures tokens[old(index)].kind == Num ==>
        r == Ok(tokens[old(index)].val) && index == old(index) + 1
      ensures tokens[old(index)].kind != Num ==>
        r == Err(NotNumber(tokens[old(index)].str)) && index == old(index)
    {
      if tokens[index].kind != Num {
        return Err(NotNumber(tokens[index].str));
      }
      var val := tokens[index].val;
      index := index + 1;
      return Ok(val);
    }
  }
}
