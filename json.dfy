/**
 * `Json::parse_tokens` and `Json::_parse` (saffron-data `json.rs`): a
 * recursive descent over a shared `TokenStream`. `ParseValue` dispatches on
 * the current kind, `ParseObject` and `ParseArray` loop, inserting into a
 * map or appending to a list as they advance the stream. Each method is
 * proved to compute what the matching `JsonSpec` function computes.
 */
module Json {
  import opened Wrappers
  import opened Tokens
  import opened TokenStreams
  import opened LexSpec
  import opened JsonSpec
  import Lexer
  import LexProps

  /**
   * A method outcome that agrees with the specification's: the same value,
   * with the cursor just after it, or the same error.
   */
  predicate Agrees(spec: Result<Parsed, Fault>, r: Result<JsonElement, Fault>, position: nat) {
    match spec
    case Success(p) => r == Success(p.value) && position == p.next
    case Failure(e) => r == Failure(e)
  }

  /** What the stream hands out is what `Peek` reads from the signatures. */
  lemma CurrentIsPeek(s: TokenStream)
    ensures SignatureOf(s.Current()) == Peek(Signatures(s.tokens), s.position)
  {
  }

  /** A stream the parser may run on: its tokens end with the end-of-file token. */
  predicate Ready(s: TokenStream)
    reads s
  {
    EndsWithEof(Signatures(s.tokens)) && s.position <= |s.tokens|
  }

  /** `parse_value`: dispatch on the kind of the current token. */
  method ParseValue(s: TokenStream) returns (r: Result<JsonElement, Fault>)
    requires Ready(s)
    modifies s`position
    ensures Agrees(JsonSpec.ParseValue(Signatures(s.tokens), old(s.position)), r, s.position)
    decreases |s.tokens| - s.position, 1
  {
    CurrentIsPeek(s);
    var tk := s.Current();
    match tk.kind
    case String =>
      var t := s.Advance();
      r := Success(JsonElement.String(t.lexeme));
    case Number =>
      var t := s.Advance();
      if !FloatSyntax(t.lexeme) {
        return Failure(InvalidNumber(t.lexeme));
      }
      r := Success(JsonElement.Number(t.lexeme));
    case Boolean =>
      var t := s.Advance();
      if t.lexeme == "true" {
        r := Success(JsonElement.Boolean(true));
      } else if t.lexeme == "false" {
        r := Success(JsonElement.Boolean(false));
      } else {
        r := Failure(InvalidBoolean(t.lexeme));
      }
    case Null =>
      var _ := s.Advance();
      r := Success(JsonElement.Null);
    case LeftBrace =>
      r := ParseObject(s);
    case LeftBracket =>
      r := ParseArray(s);
    case _ =>
      r := Failure(UnexpectedToken(tk.kind));
  }

  /** `parse_object`: `{`, then `key : value` members separated by `,`, then `}`. */
  method ParseObject(s: TokenStream) returns (r: Result<JsonElement, Fault>)
    requires Ready(s)
    modifies s`position
    ensures Agrees(JsonSpec.ParseObject(Signatures(s.tokens), old(s.position)), r, s.position)
    decreases |s.tokens| - s.position, 0
  {
    ghost var sigs := Signatures(s.tokens);
    CurrentIsPeek(s);
    var start := s.Current();
    if start.kind != LeftBrace {
      return Failure(ExpectedObject);
    }
    var _ := s.Advance();
    var members: map<string, JsonElement> := map[];
    CurrentIsPeek(s);
    if s.Current().kind == RightBrace {
      var _ := s.Advance();
      return Success(Object(members));
    }
    while true
      invariant old(s.position) < s.position <= |s.tokens|
      invariant JsonSpec.ParseMembers(sigs, s.position, members) == JsonSpec.ParseObject(sigs, old(s.position))
      decreases |s.tokens| - s.position
    {
      ghost var turn, acc := s.position, members;
      var member := ParseMember(s, acc);
      if member.Failure? {
        return Failure(member.error);
      }
      var (key, value) := member.value;
      MemberAfterValue(sigs, turn, acc, key, value, s.position);
      members := members[key := value];
      CurrentIsPeek(s);
      var separator := s.Current();
      if separator.kind == Comma {
        var _ := s.Advance();
      } else if separator.kind == RightBrace {
        var _ := s.Advance();
        return Success(Object(members));
      } else {
        return Failure(ObjectSeparator(separator.kind));
      }
    }
  }

  /**
   * The `key : value` part of a turn of the member loop. On failure the
   * turn fails with the same error, whatever the members `acc` read so far.
   */
  method ParseMember(s: TokenStream, ghost acc: map<string, JsonElement>) returns (r: Result<(string, JsonElement), Fault>)
    requires Ready(s)
    modifies s`position
    ensures var sigs, pos := Signatures(s.tokens), old(s.position);
      match r
      case Failure(e) => JsonSpec.ParseMembers(sigs, pos, acc) == Failure(e)
      case Success(member) =>
        && pos + 2 <= |sigs| && Peek(sigs, pos) == Signature(TokenKind.String, member.0) && Peek(sigs, pos + 1).kind == Colon
        && JsonSpec.ParseValue(sigs, pos + 2) == Success(Parsed(member.1, s.position))
    decreases |s.tokens| - s.position, 0
  {
    ghost var sigs := Signatures(s.tokens);
    MemberTurn(sigs, s.position, acc);
    CurrentIsPeek(s);
    var keyToken := s.Current();
    if keyToken.kind != TokenKind.String {
      return Failure(ExpectedKey(keyToken.kind));
    }
    var key := s.Advance();
    CurrentIsPeek(s);
    if s.Current().kind != Colon {
      return Failure(ExpectedColon);
    }
    var _ := s.Advance();
    var value := ParseValue(s);
    if value.Failure? {
      return Failure(value.error);
    }
    return Success((key.lexeme, value.value));
  }

  /** One turn of the member loop up to its value: the three ways it can fail. */
  lemma MemberTurn(sigs: seq<Signature>, pos: nat, acc: map<string, JsonElement>)
    requires EndsWithEof(sigs) && pos <= |sigs|
    ensures var key := Peek(sigs, pos);
      && (key.kind != TokenKind.String ==> JsonSpec.ParseMembers(sigs, pos, acc) == Failure(ExpectedKey(key.kind)))
      && (key.kind == TokenKind.String && Peek(sigs, pos + 1).kind != Colon ==>
            JsonSpec.ParseMembers(sigs, pos, acc) == Failure(ExpectedColon))
      && (key.kind == TokenKind.String && Peek(sigs, pos + 1).kind == Colon && JsonSpec.ParseValue(sigs, pos + 2).Failure? ==>
            JsonSpec.ParseMembers(sigs, pos, acc) == Failure(JsonSpec.ParseValue(sigs, pos + 2).error))
  {
  }

  /** The rest of a turn of the member loop, once its value `v` has parsed up to `n`. */
  lemma MemberAfterValue(sigs: seq<Signature>, pos: nat, acc: map<string, JsonElement>, key: string, v: JsonElement, n: nat)
    requires EndsWithEof(sigs) && pos + 2 <= |sigs|
    requires Peek(sigs, pos) == Signature(TokenKind.String, key) && Peek(sigs, pos + 1).kind == Colon
    requires JsonSpec.ParseValue(sigs, pos + 2) == Success(Parsed(v, n))
    ensures Peek(sigs, n).kind == Comma ==> JsonSpec.ParseMembers(sigs, pos, acc) == JsonSpec.ParseMembers(sigs, n + 1, acc[key := v])
    ensures Peek(sigs, n).kind == RightBrace ==> JsonSpec.ParseMembers(sigs, pos, acc) == Success(Parsed(Object(acc[key := v]), n + 1))
    ensures Peek(sigs, n).kind != Comma && Peek(sigs, n).kind != RightBrace ==>
      JsonSpec.ParseMembers(sigs, pos, acc) == Failure(ObjectSeparator(Peek(sigs, n).kind))
  {
  }

  /** `parse_array`: `[`, then values separated by `,`, then `]`. */
  method ParseArray(s: TokenStream) returns (r: Result<JsonElement, Fault>)
    requires Ready(s)
    modifies s`position
    ensures Agrees(JsonSpec.ParseArray(Signatures(s.tokens), old(s.position)), r, s.position)
    decreases |s.tokens| - s.position, 0
  {
    ghost var sigs := Signatures(s.tokens);
    CurrentIsPeek(s);
    var start := s.Current();
    if start.kind != LeftBracket {
      return Failure(ExpectedArray);
    }
    var _ := s.Advance();
    var items: seq<JsonElement> := [];
    CurrentIsPeek(s);
    if s.Current().kind == RightBracket {
      var _ := s.Advance();
      return Success(Array(items));
    }
    while true
      invariant old(s.position) < s.position <= |s.tokens|
      invariant JsonSpec.ParseElements(sigs, s.position, items) == JsonSpec.ParseArray(sigs, old(s.position))
      decreases |s.tokens| - s.position
    {
      var value := ParseValue(s);
      if value.Failure? {
        return Failure(value.error);
      }
      items := items + [value.value];
      CurrentIsPeek(s);
      var separator := s.Current();
      if separator.kind == Comma {
        var _ := s.Advance();
      } else if separator.kind == RightBracket {
        var _ := s.Advance();
        return Success(Array(items));
      } else {
        return Failure(ArraySeparator(separator.kind));
      }
    }
  }

  /** `parse_tokens`: the first value of the stream. */
  method ParseTokens(s: TokenStream) returns (r: Result<JsonElement, ParseError>)
    requires EndsWithEof(Signatures(s.tokens)) && s.position == 0
    modifies s`position
    ensures r == JsonSpec.ParseTokens(Signatures(s.tokens))
  {
    var value := ParseValue(s);
    match value
    case Success(v) => r := Success(v);
    case Failure(f) => r := Failure(ParseError(Message(f)));
  }

  /** `Json::_parse`: scan the whole text, then build the tree from the tokens. */
  method Parse(source: string) returns (r: Result<JsonElement, ParseError>)
    ensures r == ParseText(source)
  {
    var tokenizer := new Lexer.Tokenizer(source);
    tokenizer.FreshPending();
    var scanned := tokenizer.ScanTokens();
    if scanned.Failure? {
      return Failure(scanned.error);
    }
    LexProps.LexEndsWithEof(source);
    r := ParseTokens(scanned.value);
  }
}
