/**
 * The tokenizer of saffron-data (`tokenizer.rs`) as functions of the source
 * text: one scanning step from a position, and the whole token list. The
 * imperative `Lexer.Tokenizer` is proved to produce exactly these tokens.
 */
module LexSpec {
  import opened Wrappers
  import opened Strings
  import opened Tokens

  predicate IsStructural(c: char) {
    c == '[' || c == ']' || c == '{' || c == '}' || c == ',' || c == ':'
  }

  function StructuralKind(c: char): (k: TokenKind)
    requires IsStructural(c)
    ensures k in {LeftBracket, RightBracket, LeftBrace, RightBrace, Comma, Colon}
    ensures c == '[' <==> k == LeftBracket
    ensures c == ']' <==> k == RightBracket
    ensures c == '{' <==> k == LeftBrace
    ensures c == '}' <==> k == RightBrace
    ensures c == ',' <==> k == Comma
    ensures c == ':' <==> k == Colon
  {
    match c
    case '[' => LeftBracket
    case ']' => RightBracket
    case '{' => LeftBrace
    case '}' => RightBrace
    case ',' => Comma
    case ':' => Colon
  }

  /** The character an escape `\c` stands for inside a string literal. */
  function Unescape(c: char): (r: char)
    ensures c == 'n' ==> r == '\n'
    ensures c == 't' ==> r == '\t'
    ensures c == 'r' ==> r == '\r'
    ensures c != 'n' && c != 't' && c != 'r' ==> r == c
  {
    match c
    case 'n' => '\n'
    case 't' => '\t'
    case 'r' => '\r'
    case '\\' => '\\'
    case '"' => '"'
    case '\'' => '\''
    case _ => c
  }

  /** Classification of a scanned word: keywords `true`/`false`/`null`, otherwise a bare identifier. */
  function WordKind(w: string): (k: TokenKind)
    ensures k == Boolean || k == Null || k == Identifier
    ensures k == Boolean <==> w == "true" || w == "false"
    ensures k == Null <==> w == "null"
  {
    if w == "true" || w == "false" then Boolean
    else if w == "null" then Null
    else Identifier
  }

  /** End of the run of ASCII digits that starts at `i`. */
  function DigitsEnd(s: string, i: nat): (r: nat)
    requires i <= |s|
    ensures i <= r <= |s|
    ensures r == |s| || !IsDigit(s[r])
    decreases |s| - i
  {
    if i < |s| && IsDigit(s[i]) then DigitsEnd(s, i + 1) else i
  }

  /** A run of digits from `i` that stops at `j` ends where `DigitsEnd` says. */
  lemma {:induction false} DigitsEndIs(s: string, i: nat, j: nat)
    requires i <= j <= |s|
    requires forall k :: i <= k < j ==> IsDigit(s[k])
    requires j == |s| || !IsDigit(s[j])
    ensures DigitsEnd(s, i) == j
    decreases j - i
  {
    if i < j {
      DigitsEndIs(s, i + 1, j);
    }
  }

  /** End of the run of ASCII letters and digits that starts at `i`. */
  function WordEnd(s: string, i: nat): (r: nat)
    requires i <= |s|
    ensures i <= r <= |s|
    ensures r == |s| || !IsAlphaNumeric(s[r])
    decreases |s| - i
  {
    if i < |s| && IsAlphaNumeric(s[i]) then WordEnd(s, i + 1) else i
  }

  /** A run of letters and digits from `i` that stops at `j` ends where `WordEnd` says. */
  lemma {:induction false} WordEndIs(s: string, i: nat, j: nat)
    requires i <= j <= |s|
    requires forall k :: i <= k < j ==> IsAlphaNumeric(s[k])
    requires j == |s| || !IsAlphaNumeric(s[j])
    ensures WordEnd(s, i) == j
    decreases j - i
  {
    if i < j {
      WordEndIs(s, i + 1, j);
    }
  }

  /**
   * End of a number whose first char (a digit, or a `-` followed by a digit)
   * is just before `i`: more digits, then a `.` only when a digit follows it,
   * then the digits after the `.`.
   */
  function NumberEnd(s: string, i: nat): (r: nat)
    requires i <= |s|
    ensures i <= r <= |s|
  {
    var j := DigitsEnd(s, i);
    if j + 1 < |s| && s[j] == '.' && IsDigit(s[j + 1]) then DigitsEnd(s, j + 1) else j
  }

  /** Where a number ends once its integer digits end at `j`. */
  lemma NumberEndAfter(s: string, i: nat, j: nat)
    requires i <= |s| && j == DigitsEnd(s, i)
    ensures j + 1 < |s| && s[j] == '.' && IsDigit(s[j + 1]) ==> NumberEnd(s, i) == DigitsEnd(s, j + 1)
    ensures !(j + 1 < |s| && s[j] == '.' && IsDigit(s[j + 1])) ==> NumberEnd(s, i) == j
  {
  }

  /** `[0-9]+(\.[0-9]+)?`, optionally preceded by `-`: the numerals the tokenizer produces. */
  predicate IsNumeral(s: string) {
    if |s| > 0 && s[0] == '-' then IsUnsignedNumeral(s[1..]) else IsUnsignedNumeral(s)
  }

  /** `[0-9]+(\.[0-9]+)?` */
  predicate IsUnsignedNumeral(b: string) {
    || (|b| > 0 && AllDigits(b))
    || exists d :: 0 < d < |b| - 1 && b[d] == '.' && AllDigits(b[..d]) && AllDigits(b[d + 1..])
  }

  /**
   * The loop of `Tokenizer::string` from index `i`, for the literal opened at
   * `pos`: `escaped` says the previous char was an unconsumed backslash,
   * `value` is the text decoded so far. Each consumed char moves the column
   * by two (the loop and `advance` both count it) except a newline, which
   * moves to the next line at column 1. Reaching the closing quote emits the
   * string token; running out of input is an error.
   */
  function ScanString(s: string, pos: nat, i: nat, quote: char, escaped: bool, value: string, line: nat, column: nat): (r: ScanStep)
    requires pos < i <= |s|
    ensures !r.Skip?
    ensures r.Emit? ==> i < r.next <= |s| && s[r.next - 1] == quote
    ensures r.Emit? ==> r.token.kind == String && r.token.span == Span(pos, r.next)
    decreases |s| - i
  {
    if i == |s| then Error(UnterminatedMessage(line))
    else
      var c := s[i];
      var line' := if c == '\n' then line + 1 else line;
      var column' := if c == '\n' then 1 else column + 2;
      if escaped then ScanString(s, pos, i + 1, quote, false, value + [Unescape(c)], line', column')
      else if c == '\\' then ScanString(s, pos, i + 1, quote, true, value, line', column')
      else if c == quote then Emit(Token(String, value, line, column + 1, Span(pos, i + 1)), i + 1, line, column + 1)
      else ScanString(s, pos, i + 1, quote, false, value + [c], line', column')
  }

  function InvalidCharMessage(c: char, line: nat): string {
    "Invalid character '" + [c] + "' at line " + NatToString(line)
  }

  function UnterminatedMessage(line: nat): string {
    "Unterminated string at line " + NatToString(line) + "."
  }

  /** Outcome of one `scan_token` call. */
  datatype ScanStep =
    | Skip(line: nat, column: nat)
    | Emit(token: Token, next: nat, line: nat, column: nat)
    | Error(message: string)

  /** A token read from `s[pos..next]` whose lexeme is that raw text. */
  function RawToken(s: string, pos: nat, next: nat, kind: TokenKind, line: nat, column: nat): ScanStep
    requires pos < next <= |s|
  {
    var column' := column + (next - pos);
    Emit(Token(kind, s[pos..next], line, column', Span(pos, next)), next, line, column')
  }

  /**
   * A string literal opened by `quote` at `pos`: its token holds the decoded
   * text and spans both quotes.
   */
  function QuotedStep(s: string, pos: nat, quote: char, line: nat, column: nat): (r: ScanStep)
    requires pos < |s|
    ensures r.Emit? ==> pos < r.next <= |s| && r.token.span == Span(pos, r.next) && r.token.kind == String
  {
    ScanString(s, pos, pos + 1, quote, false, "", line, column + 1)
  }

  /** One call of `scan_token` at `pos`, on line `line` and column `column`. */
  function ScanToken(s: string, pos: nat, line: nat, column: nat): (r: ScanStep)
    requires pos < |s|
    ensures r.Emit? ==> pos < r.next <= |s| && r.token.span == Span(pos, r.next) && r.token.kind != EndOfFile
  {
    var c := s[pos];
    if c == '\n' then Skip(line + 1, 1)
    else if c == ' ' || c == '\t' || c == '\r' then Skip(line, column + 1)
    else if IsStructural(c) then
      assert s[pos..pos + 1] == [c];
      RawToken(s, pos, pos + 1, StructuralKind(c), line, column)
    else if c == '"' || c == '\'' then QuotedStep(s, pos, c, line, column)
    else if c == '-' then
      if pos + 1 < |s| && IsDigit(s[pos + 1]) then RawToken(s, pos, NumberEnd(s, pos + 1), Number, line, column)
      else Error(InvalidCharMessage(c, line))
    else if IsDigit(c) then RawToken(s, pos, NumberEnd(s, pos + 1), Number, line, column)
    else if IsAlpha(c) then
      var e := WordEnd(s, pos + 1);
      RawToken(s, pos, e, WordKind(s[pos..e]), line, column)
    else Error(InvalidCharMessage(c, line))
  }

  /**
   * Blanks produce no token and move the position by one; a newline starts
   * the next line at column 1; each structural char is a token of its own.
   */
  lemma ScanTokenBasics(s: string, pos: nat, line: nat, column: nat)
    requires pos < |s|
    ensures var r := ScanToken(s, pos, line, column);
      && (s[pos] in {' ', '\t', '\r'} ==> r == Skip(line, column + 1))
      && (s[pos] == '\n' ==> r == Skip(line + 1, 1))
      && (IsStructural(s[pos]) ==>
            r == Emit(Token(StructuralKind(s[pos]), [s[pos]], line, column + 1, Span(pos, pos + 1)), pos + 1, line, column + 1))
      && (r.Skip? <==> s[pos] in {' ', '\t', '\r', '\n'})
  {
  }

  /** The step at a digit, or at a `-` before a digit, reads a number. */
  lemma StepAtNumber(s: string, pos: nat, line: nat, column: nat)
    requires pos < |s|
    requires IsDigit(s[pos]) || (s[pos] == '-' && pos + 1 < |s| && IsDigit(s[pos + 1]))
    ensures ScanToken(s, pos, line, column) == RawToken(s, pos, NumberEnd(s, pos + 1), Number, line, column)
  {
  }

  /** The step at a letter reads a word. */
  lemma StepAtWord(s: string, pos: nat, line: nat, column: nat)
    requires pos < |s| && IsAlpha(s[pos])
    ensures var e := WordEnd(s, pos + 1);
      ScanToken(s, pos, line, column) == RawToken(s, pos, e, WordKind(s[pos..e]), line, column)
  {
  }

  /** The step at a quote reads a string literal. */
  lemma StepAtQuote(s: string, pos: nat, line: nat, column: nat)
    requires pos < |s| && (s[pos] == '"' || s[pos] == '\'')
    ensures ScanToken(s, pos, line, column) == QuotedStep(s, pos, s[pos], line, column)
  {
  }

  /** `ts` in front of a successful token list; a failure stays as it is. */
  function Prepend(ts: seq<Token>, r: Result<seq<Token>, ParseError>): Result<seq<Token>, ParseError> {
    match r
    case Success(rest) => Success(ts + rest)
    case Failure(e) => Failure(e)
  }

  /**
   * `scan_tokens` from position `pos`: scan tokens until the input is used up,
   * then add the end-of-file token. `lastStart` is where the previous
   * `scan_token` began, which is where the end-of-file token's span starts.
   */
  function LexFrom(s: string, pos: nat, line: nat, column: nat, lastStart: nat): (r: Result<seq<Token>, ParseError>)
    requires pos <= |s|
    ensures r.Success? ==> |r.value| > 0 && r.value[|r.value| - 1].kind == EndOfFile
    decreases |s| - pos
  {
    if pos == |s| then Success([Token(EndOfFile, EofLexeme, line, column, Span(lastStart, pos))])
    else
      match ScanToken(s, pos, line, column)
      case Error(m) => Failure(ParseError(m))
      case Skip(l, c) => LexFrom(s, pos + 1, l, c, pos)
      case Emit(t, next, l, c) => Prepend([t], LexFrom(s, next, l, c, pos))
  }

  /** The tokens of a whole source text: line 1, column 1, nothing scanned yet. */
  function Lex(s: string): (r: Result<seq<Token>, ParseError>)
    ensures r.Success? ==> |r.value| > 0 && r.value[|r.value| - 1].kind == EndOfFile
  {
    LexFrom(s, 0, 1, 1, 0)
  }
}
