/**
 * The tree builder of saffron-data (`json.rs`) as functions of the token
 * signatures (kind and lexeme) and a cursor position. Reads clamp like
 * `TokenStream::current`; every successful parse reports the position just
 * after what it consumed. The imperative `Json` methods are proved to follow
 * these functions step for step.
 */
module JsonSpec {
  import opened Wrappers
  import opened Strings
  import opened Tokens
  import opened LexSpec
  import LexProps

  /** `JsonElement`; a number is kept as its lexeme (see `FloatSyntax`). */
  datatype JsonElement =
    | Number(lexeme: string)
    | String(text: string)
    | Boolean(b: bool)
    | Array(items: seq<JsonElement>)
    | Object(members: map<string, JsonElement>)
    | Null

  /** A value together with the position just after its last token. */
  datatype Parsed = Parsed(value: JsonElement, next: nat)

  /** The token lists the tokenizer hands over: empty, or ending in an end-of-file token. */
  predicate EndsWithEof(sigs: seq<Signature>) {
    |sigs| == 0 || sigs[|sigs| - 1].kind == EndOfFile
  }

  /** `TokenStream::current` on signatures: clamped to the last token, synthetic when empty. */
  function Peek(sigs: seq<Signature>, pos: nat): (t: Signature)
    ensures pos < |sigs| ==> t == sigs[pos]
    ensures 0 < |sigs| <= pos ==> t == sigs[|sigs| - 1]
    ensures EndsWithEof(sigs) && t.kind != EndOfFile ==> pos + 1 < |sigs|
  {
    if |sigs| == 0 then SignatureOf(SyntheticEof)
    else if pos >= |sigs| then sigs[|sigs| - 1]
    else sigs[pos]
  }

  /** The `{:?}` rendering of a token kind. */
  function KindName(k: TokenKind): (r: string)
    ensures |r| > 0
  {
    match k
    case String => "String"
    case Number => "Number"
    case Boolean => "Boolean"
    case LeftBrace => "LeftBrace"
    case RightBrace => "RightBrace"
    case LeftBracket => "LeftBracket"
    case RightBracket => "RightBracket"
    case Comma => "Comma"
    case Colon => "Colon"
    case Null => "Null"
    case Identifier => "Identifier"
    case EndOfFile => "EndOfFile"
  }

  /**
   * The strings Rust's `f64::from_str` accepts: an optional sign, then
   * `inf`, `infinity` or `nan` in any case, or a decimal number.
   */
  predicate FloatSyntax(s: string) {
    if |s| > 0 && (s[0] == '+' || s[0] == '-') then UnsignedFloat(s, 1) else UnsignedFloat(s, 0)
  }

  predicate UnsignedFloat(s: string, i: nat)
    requires i <= |s|
  {
    var word := AsciiLowercase(s[i..]);
    word == "inf" || word == "infinity" || word == "nan" || Decimal(s, i, Whole, false)
  }

  /** `str::to_ascii_lowercase`. */
  function AsciiLowercase(s: string): (r: string)
    ensures |r| == |s|
  {
    if |s| == 0 then [] else [ToAsciiLower(s[0])] + AsciiLowercase(s[1..])
  }

  /** Where a decimal number is being read: `digits* ('.' digits*)? (('e' | 'E') sign? digits+)?`. */
  datatype DecimalPart = Whole | Fraction | ExponentSign | ExponentDigits

  /**
   * `s[i..]` finishes a decimal number from `part`; `digits` says whether
   * the current part (the mantissa, or the exponent once it has begun) has
   * a digit yet. The mantissa needs a digit on one side of the point at least.
   */
  predicate Decimal(s: string, i: nat, part: DecimalPart, digits: bool)
    requires i <= |s|
    decreases |s| - i
  {
    if i == |s| then digits
    else
      var c := s[i];
      var exponent := (c == 'e' || c == 'E') && digits;
      match part
      case Whole =>
        if IsDigit(c) then Decimal(s, i + 1, Whole, true)
        else if c == '.' then Decimal(s, i + 1, Fraction, digits)
        else exponent && Decimal(s, i + 1, ExponentSign, false)
      case Fraction =>
        if IsDigit(c) then Decimal(s, i + 1, Fraction, true)
        else exponent && Decimal(s, i + 1, ExponentSign, false)
      case ExponentSign =>
        if c == '+' || c == '-' then Decimal(s, i + 1, ExponentDigits, false)
        else IsDigit(c) && Decimal(s, i + 1, ExponentDigits, true)
      case ExponentDigits =>
        IsDigit(c) && Decimal(s, i + 1, ExponentDigits, true)
  }

  /**
   * Why the tree builder stops. `json.rs` formats each reason into the
   * message of a `JsonError::ParseError`; `Message` spells that text.
   */
  datatype Fault =
    | InvalidNumber(lexeme: string)
    | InvalidBoolean(lexeme: string)
    | UnexpectedToken(found: TokenKind)
    | ExpectedKey(found: TokenKind)
    | ExpectedObject
    | ExpectedColon
    | ExpectedArray
    | ObjectSeparator(found: TokenKind)
    | ArraySeparator(found: TokenKind)

  function Message(f: Fault): string {
    match f
    case InvalidNumber(lexeme) => "Invalid number '" + lexeme + "'"
    case InvalidBoolean(lexeme) => "Invalid boolean literal '" + lexeme + "'"
    case UnexpectedToken(k) => "Unexpected token: " + KindName(k)
    case ExpectedKey(k) => "Expected string key in object, found " + KindName(k)
    case ExpectedObject => "Expected '{' at start of object"
    case ExpectedColon => "Expected ':' after object key"
    case ExpectedArray => "Expected '[' at start of array"
    case ObjectSeparator(k) => "Expected ',' or '}' in object, found " + KindName(k)
    case ArraySeparator(k) => "Expected ',' or ']' in array, found " + KindName(k)
  }

  /**
   * `parse_value` at `pos`: a scalar token is the value itself; `{` and `[`
   * open a container; any other kind is an error.
   */
  function ParseValue(sigs: seq<Signature>, pos: nat): (r: Result<Parsed, Fault>)
    requires EndsWithEof(sigs) && pos <= |sigs|
    ensures r.Success? ==> pos < r.value.next < |sigs|
    decreases |sigs| - pos, 1
  {
    var t := Peek(sigs, pos);
    match t.kind
    case String => Success(Parsed(JsonElement.String(t.lexeme), pos + 1))
    case Number =>
      if FloatSyntax(t.lexeme) then Success(Parsed(JsonElement.Number(t.lexeme), pos + 1))
      else Failure(InvalidNumber(t.lexeme))
    case Boolean =>
      if t.lexeme == "true" then Success(Parsed(JsonElement.Boolean(true), pos + 1))
      else if t.lexeme == "false" then Success(Parsed(JsonElement.Boolean(false), pos + 1))
      else Failure(InvalidBoolean(t.lexeme))
    case Null => Success(Parsed(JsonElement.Null, pos + 1))
    case LeftBrace => ParseObject(sigs, pos)
    case LeftBracket => ParseArray(sigs, pos)
    case _ => Failure(UnexpectedToken(t.kind))
  }

  /** `parse_object` at `pos`: `{}` at once, otherwise the member loop. */
  function ParseObject(sigs: seq<Signature>, pos: nat): (r: Result<Parsed, Fault>)
    requires EndsWithEof(sigs) && pos <= |sigs|
    ensures r.Success? ==> pos < r.value.next < |sigs|
    decreases |sigs| - pos, 0
  {
    if Peek(sigs, pos).kind != LeftBrace then Failure(ExpectedObject)
    else if Peek(sigs, pos + 1).kind == RightBrace then Success(Parsed(Object(map[]), pos + 2))
    else ParseMembers(sigs, pos + 1, map[])
  }

  /**
   * One turn of the member loop of `parse_object` at the key position `pos`,
   * with the members read so far in `acc`; a repeated key overwrites.
   */
  function ParseMembers(sigs: seq<Signature>, pos: nat, acc: map<string, JsonElement>): (r: Result<Parsed, Fault>)
    requires EndsWithEof(sigs) && pos <= |sigs|
    ensures r.Success? ==> pos < r.value.next < |sigs|
    decreases |sigs| - pos, 2
  {
    var key := Peek(sigs, pos);
    if key.kind != TokenKind.String then Failure(ExpectedKey(key.kind))
    else if Peek(sigs, pos + 1).kind != Colon then Failure(ExpectedColon)
    else
      match ParseValue(sigs, pos + 2)
      case Failure(e) => Failure(e)
      case Success(p) =>
        var acc' := acc[key.lexeme := p.value];
        var sep := Peek(sigs, p.next);
        if sep.kind == Comma then ParseMembers(sigs, p.next + 1, acc')
        else if sep.kind == RightBrace then Success(Parsed(Object(acc'), p.next + 1))
        else Failure(ObjectSeparator(sep.kind))
  }

  /** `parse_array` at `pos`: `[]` at once, otherwise the element loop. */
  function ParseArray(sigs: seq<Signature>, pos: nat): (r: Result<Parsed, Fault>)
    requires EndsWithEof(sigs) && pos <= |sigs|
    ensures r.Success? ==> pos < r.value.next < |sigs|
    decreases |sigs| - pos, 0
  {
    if Peek(sigs, pos).kind != LeftBracket then Failure(ExpectedArray)
    else if Peek(sigs, pos + 1).kind == RightBracket then Success(Parsed(Array([]), pos + 2))
    else ParseElements(sigs, pos + 1, [])
  }

  /** One turn of the element loop of `parse_array` at `pos`, with the elements read so far in `acc`. */
  function ParseElements(sigs: seq<Signature>, pos: nat, acc: seq<JsonElement>): (r: Result<Parsed, Fault>)
    requires EndsWithEof(sigs) && pos <= |sigs|
    ensures r.Success? ==> pos < r.value.next < |sigs|
    decreases |sigs| - pos, 2
  {
    match ParseValue(sigs, pos)
    case Failure(e) => Failure(e)
    case Success(p) =>
      var sep := Peek(sigs, p.next);
      if sep.kind == Comma then ParseElements(sigs, p.next + 1, acc + [p.value])
      else if sep.kind == RightBracket then Success(Parsed(Array(acc + [p.value]), p.next + 1))
      else Failure(ArraySeparator(sep.kind))
  }

  /** `parse_tokens`: the first value of the list; whatever follows it is not looked at. */
  function ParseTokens(sigs: seq<Signature>): (r: Result<JsonElement, ParseError>)
    requires EndsWithEof(sigs)
    ensures r.Success? <==> ParseValue(sigs, 0).Success?
    ensures r.Success? ==> r.value == ParseValue(sigs, 0).value.value
    ensures r.Failure? ==> r.error == ParseError(Message(ParseValue(sigs, 0).error))
  {
    match ParseValue(sigs, 0)
    case Success(p) => Success(p.value)
    case Failure(f) => Failure(ParseError(Message(f)))
  }

  /** `Json::_parse`: tokenize the whole text, then build the tree from its tokens. */
  function ParseText(s: string): (r: Result<JsonElement, ParseError>)
    ensures Lex(s).Failure? ==> r == Failure(Lex(s).error)
    ensures r.Success? ==> Lex(s).Success?
  {
    match Lex(s)
    case Failure(e) => Failure(e)
    case Success(ts) =>
      LexProps.LexEndsWithEof(s);
      ParseTokens(Signatures(ts))
  }
}
