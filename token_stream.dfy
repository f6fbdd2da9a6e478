/**
 * `TokenStream` (saffron-data `token_stream.rs`): a replayable cursor over a
 * fixed token list. Reads clamp to the last token instead of faulting; only
 * `Advance` and `Backtrack` move the cursor, and nothing changes the tokens.
 */
module TokenStreams {
  import opened Tokens

  class TokenStream {
    const tokens: seq<Token>
    var position: nat

    constructor(tokens: seq<Token>)
      ensures this.tokens == tokens && position == 0
    {
      this.tokens := tokens;
      position := 0;
    }

    /** The token under the cursor, or the last token once the cursor is past the end. */
    function Current(): (t: Token)
      reads this
      ensures |tokens| == 0 ==> t == SyntheticEof
      ensures position < |tokens| ==> t == tokens[position]
      ensures 0 < |tokens| <= position ==> t == tokens[|tokens| - 1]
    {
      if |tokens| == 0 then SyntheticEof
      else if position >= |tokens| then tokens[|tokens| - 1]
      else tokens[position]
    }

    /** The token just before the cursor, clamped to the first and to the last token. */
    function Previous(): (t: Token)
      reads this
      ensures |tokens| == 0 ==> t == SyntheticEof
      ensures 0 < |tokens| && position == 0 ==> t == tokens[0]
      ensures 0 < position <= |tokens| ==> t == tokens[position - 1]
      ensures 0 < |tokens| < position ==> t == tokens[|tokens| - 1]
    {
      if |tokens| == 0 then SyntheticEof
      else if position == 0 then tokens[0]
      else if position > |tokens| then tokens[|tokens| - 1]
      else tokens[position - 1]
    }

    /** The token `k` places after the cursor, clamped to the last token. */
    function LookAhead(k: nat): (t: Token)
      reads this
      ensures k == 0 ==> t == Current()
      ensures |tokens| == 0 ==> t == SyntheticEof
      ensures position + k < |tokens| ==> t == tokens[position + k]
      ensures 0 < |tokens| <= position + k ==> t == tokens[|tokens| - 1]
    {
      if |tokens| == 0 then SyntheticEof
      else if position + k >= |tokens| then tokens[|tokens| - 1]
      else tokens[position + k]
    }

    /** Step over one token and return the token that was current before the step. */
    method Advance() returns (t: Token)
      modifies this`position
      ensures position == old(position) + 1
      ensures t == old(Current())
    {
      position := position + 1;
      t := Previous();
    }

    /** Undo one `Advance`; the caller must not step back before the first token. */
    method Backtrack()
      requires position > 0
      modifies this`position
      ensures position == old(position) - 1
    {
      position := position - 1;
    }
  }

  /** Stepping forward and then back leaves the cursor where it was. */
  method AdvanceThenBacktrack(s: TokenStream) returns (t: Token)
    modifies s
    ensures s.position == old(s.position)
    ensures t == old(s.Current())
  {
    t := s.Advance();
    s.Backtrack();
  }
}
