/**
 * The token vocabulary shared by the tokenizer, the token stream and the
 * JSON tree builder (saffron-data `tokenizer.rs`), and the single flat
 * error type of the parser (`error.rs`).
 */
module Tokens {

  datatype TokenKind =
    | String
    | Number
    | Boolean
    | LeftBrace
    | RightBrace
    | LeftBracket
    | RightBracket
    | Comma
    | Colon
    | Null
    | Identifier
    | EndOfFile

  /** Start and end offsets (in chars) of the source text a token was read from. */
  datatype Span = Span(start: nat, end: nat)

  datatype Token = Token(kind: TokenKind, lexeme: string, line: nat, column: nat, span: Span)

  /** What the tree builder looks at in a token: its kind and its (decoded) lexeme. */
  datatype Signature = Signature(kind: TokenKind, lexeme: string)

  function SignatureOf(t: Token): Signature {
    Signature(t.kind, t.lexeme)
  }

  function Signatures(ts: seq<Token>): (r: seq<Signature>)
    ensures |r| == |ts|
    ensures forall i :: 0 <= i < |ts| ==> r[i] == SignatureOf(ts[i])
  {
    seq(|ts|, i requires 0 <= i < |ts| => SignatureOf(ts[i]))
  }

  /** The lexeme the tokenizer gives its end-of-file token. */
  const EofLexeme: string := "\0"

  /** The token the stream hands out when it holds no tokens at all. */
  const SyntheticEof: Token := Token(EndOfFile, EofLexeme, 0, 0, Span(0, 0))

  datatype ParseError = ParseError(message: string)

  /** `Display` for `ParseError`. */
  function ErrorText(e: ParseError): string {
    "ParseError: " + e.message
  }
}
