/**
 * `Tokenizer` (saffron-data `tokenizer.rs`): scans the source left to right,
 * keeping the start and length of the token being read, the line and column,
 * and the tokens emitted so far. Each method is proved to do exactly what the
 * functions of `LexSpec` say, so `ScanTokens` yields `LexSpec.Lex(source)`.
 */
module Lexer {
  import opened Wrappers
  import opened Strings
  import opened Tokens
  import opened LexSpec
  import opened TokenStreams

  class Tokenizer {
    const source: seq<char>
    var line: nat
    var column: nat
    var start: nat
    var length: nat
    var tokens: seq<Token>

    ghost predicate Valid()
      reads this
    {
      start + length <= |source|
    }

    constructor(source: string)
      ensures this.source == source && tokens == []
      ensures line == 1 && column == 1 && start == 0 && length == 0
      ensures Valid()
    {
      this.source := source;
      line := 1;
      column := 1;
      start := 0;
      length := 0;
      tokens := [];
    }

    /** What `scan_tokens` would return from the current state, as the specification computes it. */
    ghost function Pending(): Result<seq<Token>, ParseError>
      reads this
      requires Valid()
    {
      Prepend(tokens, LexFrom(source, start + length, line, column, start))
    }

    /** A new tokenizer has the whole source still to scan. */
    lemma FreshPending()
      requires Valid() && tokens == [] && start == 0 && length == 0 && line == 1 && column == 1
      ensures Pending() == Lex(source)
    {
      match LexFrom(source, 0, 1, 1, 0)
      case Success(ts) => assert [] + ts == ts;
      case Failure(_) =>
    }

    /**
     * Scan the rest of the source, then add the end-of-file token, and hand the
     * tokens to a new stream positioned at the first token.
     */
    method ScanTokens() returns (r: Result<TokenStream, ParseError>)
      requires Valid()
      modifies this
      ensures r.Success? <==> old(Pending()).Success?
      ensures r.Success? ==> fresh(r.value) && r.value.tokens == old(Pending()).value && r.value.position == 0
      ensures r.Failure? ==> r.error == old(Pending()).error
    {
      while !IsAtEnd()
        invariant Valid()
        invariant Pending() == old(Pending())
        decreases |source| - (start + length)
      {
        ghost var pos, line0, column0, start0, before := start + length, line, column, start, tokens;
        var scanned := ScanToken();
        PendingAfter(pos, line0, column0, start0, before, scanned);
        if scanned.Failure? {
          return Failure(scanned.error);
        }
      }
      MakeTokenWithLexeme(EndOfFile, EofLexeme);
      var stream := new TokenStream(tokens);
      r := Success(stream);
    }

    /**
     * After one step that follows the specification, what is pending is what
     * was pending before it; a failed step is the failure of the whole scan.
     */
    lemma PendingAfter(pos: nat, line0: nat, column0: nat, start0: nat, before: seq<Token>, r: Result<(), ParseError>)
      requires Valid() && pos < |source|
      requires Follows(LexSpec.ScanToken(source, pos, line0, column0), pos, before, r)
      ensures r.Success? ==> Pending() == Prepend(before, LexFrom(source, pos, line0, column0, start0))
      ensures r.Failure? ==> Prepend(before, LexFrom(source, pos, line0, column0, start0)) == Failure(r.error)
    {
      match LexSpec.ScanToken(source, pos, line0, column0)
      case Error(_) =>
      case Skip(_, _) =>
      case Emit(t, next, l, c) => PrependAppend(before, t, LexFrom(source, next, l, c, pos));
    }

    /** Emitting one more token is the same as keeping it in front of the rest. */
    static lemma PrependAppend(ts: seq<Token>, t: Token, rest: Result<seq<Token>, ParseError>)
      ensures Prepend(ts + [t], rest) == Prepend(ts, Prepend([t], rest))
    {
      match rest
      case Success(more) => assert (ts + [t]) + more == ts + ([t] + more);
      case Failure(_) =>
    }

    method SyncCursors()
      modifies this`start, this`length
      ensures start == old(start + length) && length == 0
    {
      start := start + length;
      length := 0;
    }

    /** The state after one `scan_token` call from `pos` agrees with the step the specification takes. */
    ghost predicate Follows(step: ScanStep, pos: nat, before: seq<Token>, r: Result<(), ParseError>)
      reads this
    {
      match step
      case Error(m) => r == Failure(ParseError(m))
      case Skip(l, c) =>
        r.Success? && tokens == before && start == pos && start + length == pos + 1 && line == l && column == c
      case Emit(t, next, l, c) =>
        r.Success? && tokens == before + [t] && start == pos && start + length == next && line == l && column == c
    }

    /** `scan_token`: read one char and act on it; whitespace leaves no token. */
    method ScanToken() returns (r: Result<(), ParseError>)
      requires Valid() && !IsAtEnd()
      modifies this`start, this`length, this`line, this`column, this`tokens
      ensures Valid()
      ensures Follows(LexSpec.ScanToken(source, old(start + length), old(line), old(column)), old(start + length), old(tokens), r)
    {
      SyncCursors();
      var next := Advance();
      var c := next.GetOr('\0');
      if c == '\n' {
        column := 1;
        line := line + 1;
      } else if c == ' ' || c == '\t' {
      } else if c == '\r' {
      } else {
        r := TokenAt(c);
        return;
      }
      return Success(());
    }

    /** The arms of `scan_token` for a char that is not a blank: it starts a token or is invalid. */
    method TokenAt(c: char) returns (r: Result<(), ParseError>)
      requires Valid() && length == 1 && column >= 1 && source[start] == c
      requires c !in {' ', '\t', '\r', '\n'}
      modifies this`length, this`line, this`column, this`tokens
      ensures Valid()
      ensures Follows(LexSpec.ScanToken(source, start, old(line), old(column) - 1), start, old(tokens), r)
    {
      if IsStructural(c) {
        MakeToken(StructuralKind(c));
      } else if c == '"' || c == '\'' {
        StepAtQuote(source, start, line, column - 1);
        r := StringLiteral(c);
        return;
      } else if c == '-' {
        if IsDigit(Peek()) {
          Number();
        } else {
          return Failure(ParseError(InvalidCharMessage(c, line)));
        }
      } else if IsDigit(c) {
        Number();
      } else if IsAlpha(c) {
        StepAtWord(source, start, line, column - 1);
        IdentifierOrKeyword();
      } else {
        return Failure(ParseError(InvalidCharMessage(c, line)));
      }
      return Success(());
    }

    /** `number`: digits, then a `.` and more digits only when a digit follows the `.`. */
    method Number()
      requires Valid() && length == 1 && column >= 1
      requires IsDigit(source[start]) || (source[start] == '-' && start + 1 < |source| && IsDigit(source[start + 1]))
      modifies this`length, this`column, this`tokens
      ensures Valid()
      ensures Follows(LexSpec.ScanToken(source, start, line, old(column) - 1), start, old(tokens), Success(()))
    {
      StepAtNumber(source, start, line, column - 1);
      Numeral();
      var lexeme := source[start..start + length];
      MakeTokenWithLexeme(TokenKind.Number, lexeme);
    }

    /** The reading part of `number`: how far the numeral extends. */
    method Numeral()
      requires Valid()
      modifies this`length, this`column
      ensures Valid() && start + length == NumberEnd(source, old(start + length))
      ensures column == old(column) + (length - old(length))
    {
      AdvanceWhileDigit();
      NumberEndAfter(source, old(start + length), start + length);
      if Check('.') && IsDigit(PeekNext()) {
        var _ := Advance();
        AdvanceWhileDigit();
      }
    }

    /** The digit loop that `number` runs before and after the `.`. */
    method AdvanceWhileDigit()
      requires Valid()
      modifies this`length, this`column
      ensures Valid()
      ensures start + length == DigitsEnd(source, old(start + length))
      ensures column == old(column) + (length - old(length))
    {
      while IsDigit(Peek())
        invariant Valid() && old(length) <= length
        invariant DigitsEnd(source, start + length) == DigitsEnd(source, old(start + length))
        invariant column == old(column) + (length - old(length))
        decreases |source| - (start + length)
      {
        var _ := Advance();
      }
    }

    /**
     * `string`: read up to the quote that opened the literal, decoding escapes;
     * running out of input first is an error.
     */
    method StringLiteral(quote: char) returns (r: Result<(), ParseError>)
      requires Valid() && length == 1 && column >= 1
      requires (quote == '"' || quote == '\'') && source[start] == quote
      modifies this`length, this`line, this`column, this`tokens
      ensures Valid()
      ensures Follows(QuotedStep(source, start, quote, old(line), old(column) - 1), start, old(tokens), r)
    {
      var value := "";
      var escaped := false;
      while !IsAtEnd()
        invariant Valid() && start == old(start) && tokens == old(tokens)
        invariant ScanString(source, start, start + length, quote, escaped, value, line, column)
               == ScanString(source, start, old(start + length), quote, false, "", old(line), old(column))
        decreases |source| - (start + length)
      {
        var c := Peek();
        if escaped {
          value := value + [Unescape(c)];
          escaped := false;
        } else if c == '\\' {
          escaped := true;
        } else if c == quote {
          break;
        } else {
          value := value + [c];
        }
        if c == '\n' {
          line := line + 1;
          column := 0;
        } else {
          column := column + 1;
        }
        var _ := Advance();
      }
      if IsAtEnd() {
        return Failure(ParseError(UnterminatedMessage(line)));
      }
      var _ := Advance();
      MakeTokenWithLexeme(String, value);
      return Success(());
    }

    /** `identifier_or_keyword`: a run of ASCII letters and digits, classified by `WordKind`. */
    method IdentifierOrKeyword()
      requires Valid() && length == 1 && column >= 1 && IsAlpha(source[start])
      modifies this`length, this`column, this`tokens
      ensures Valid()
      ensures var e := WordEnd(source, start + 1);
        Follows(RawToken(source, start, e, WordKind(source[start..e]), line, old(column) - 1), start, old(tokens), Success(()))
    {
      AdvanceWhileAlphaNumeric();
      var lexeme := source[start..start + length];
      MakeTokenWithLexeme(WordKind(lexeme), lexeme);
    }

    /** The loop of `identifier_or_keyword`. */
    method AdvanceWhileAlphaNumeric()
      requires Valid()
      modifies this`length, this`column
      ensures Valid()
      ensures start + length == WordEnd(source, old(start + length))
      ensures column == old(column) + (length - old(length))
    {
      while IsAlphaNumeric(Peek())
        invariant Valid() && old(length) <= length
        invariant WordEnd(source, start + length) == WordEnd(source, old(start + length))
        invariant column == old(column) + (length - old(length))
        decreases |source| - (start + length)
      {
        var _ := Advance();
      }
    }

    /** A token whose lexeme is the raw text just read. */
    method MakeToken(kind: TokenKind)
      requires Valid()
      modifies this`tokens
      ensures tokens == old(tokens) + [Token(kind, source[start..start + length], line, column, Span(start, start + length))]
    {
      var lexeme := source[start..start + length];
      MakeTokenWithLexeme(kind, lexeme);
    }

    method MakeTokenWithLexeme(kind: TokenKind, lexeme: string)
      modifies this`tokens
      ensures tokens == old(tokens) + [Token(kind, lexeme, line, column, Span(start, start + length))]
    {
      var span := Span(start, start + length);
      tokens := tokens + [Token(kind, lexeme, line, column, span)];
    }

    /** Consume the next char, if any; the column moves with it. */
    method Advance() returns (c: Option<char>)
      requires Valid()
      modifies this`length, this`column
      ensures Valid()
      ensures old(IsAtEnd()) ==> c == None && length == old(length) && column == old(column)
      ensures !old(IsAtEnd()) ==>
        c == Some(source[old(start + length)]) && length == old(length) + 1 && column == old(column) + 1
    {
      if IsAtEnd() {
        return None;
      }
      c := Some(source[start + length]);
      length := length + 1;
      column := column + 1;
    }

    /** `check`: whether the next char is `c`; never at the end, even for `'\0'`. */
    function Check(c: char): (r: bool)
      reads this
      ensures r <==> start + length < |source| && source[start + length] == c
    {
      if IsAtEnd() then false else c == Peek()
    }

    /** The next char, or `'\0'` at the end. */
    function Peek(): (c: char)
      reads this
      ensures !IsAtEnd() ==> c == source[start + length]
      ensures IsAtEnd() ==> c == '\0'
    {
      if start + length < |source| then source[start + length] else '\0'
    }

    /** The char after the next one, or `'\0'` past the end. */
    function PeekNext(): (c: char)
      reads this
      ensures start + length + 1 < |source| ==> c == source[start + length + 1]
      ensures start + length + 1 >= |source| ==> c == '\0'
    {
      if start + length + 1 < |source| then source[start + length + 1] else '\0'
    }

    function IsAtEnd(): bool
      reads this
    {
      start + length >= |source|
    }
  }
}
