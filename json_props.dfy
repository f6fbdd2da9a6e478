/**
 * `Json::_parse` on whole texts (saffron-data `json.rs`): the tokens the
 * tokenizer hands over are spelt the way the reference grammar spells
 * them, so a text parses exactly when its first value is the rendering of a
 * grammar text, and the result is that text's meaning; what follows the
 * first value is never looked at; a blank at a token boundary changes
 * nothing; a lexical error anywhere fails the whole parse.
 */
module JsonProps {
  import opened Wrappers
  import opened Strings
  import opened Tokens
  import opened LexSpec
  import opened LexProps
  import opened LexConcat
  import opened JsonSpec
  import opened JsonGrammar

  // ---------------------------------------------------------------------
  // The lexemes the tokenizer produces
  // ---------------------------------------------------------------------

  /**
   * A token as the tokenizer can produce it: punctuation and `null` spelt the
   * one way they can be, a number that `f64::from_str` accepts, a boolean
   * that is `true` or `false`.
   */
  predicate Lexical(t: Signature) {
    && CanonicalToken(t)
    && (t.kind == TokenKind.Number ==> FloatSyntax(t.lexeme))
    && (t.kind == TokenKind.Boolean ==> t.lexeme == "true" || t.lexeme == "false")
  }

  predicate AllLexical(sigs: seq<Signature>) {
    forall i :: 0 <= i < |sigs| ==> Lexical(sigs[i])
  }

  /** From `i` on there are only digits: a whole or fraction part that has a digit finishes there. */
  lemma {:induction false} DigitsFinish(s: string, i: nat, part: DecimalPart, digits: bool)
    requires i <= |s| && (part == Whole || part == Fraction)
    requires forall k :: i <= k < |s| ==> IsDigit(s[k])
    requires digits || i < |s|
    ensures Decimal(s, i, part, digits)
    decreases |s| - i
  {
    if i < |s| {
      DigitsFinish(s, i + 1, part, true);
    }
  }

  /** Digits up to a point at `d`, then at least one digit and only digits to the end. */
  lemma {:induction false} PointFinish(s: string, i: nat, d: nat, digits: bool)
    requires i <= d && d + 1 < |s| && s[d] == '.'
    requires forall k :: i <= k < d ==> IsDigit(s[k])
    requires forall k :: d < k < |s| ==> IsDigit(s[k])
    ensures Decimal(s, i, Whole, digits)
    decreases d - i
  {
    if i < d {
      PointFinish(s, i + 1, d, true);
    } else {
      DigitsFinish(s, d + 1, Fraction, digits);
    }
  }

  /** `s[k..]` is all digits, at least one: a decimal. */
  lemma DigitsDecimal(s: string, k: nat)
    requires k < |s| && AllDigits(s[k..])
    ensures IsDigit(s[k]) && Decimal(s, k, Whole, false)
  {
    assert forall j :: k <= j < |s| ==> s[j] == s[k..][j - k];
    DigitsFinish(s, k, Whole, false);
  }

  /** `s[k..]` is digits, a point at `k + d`, and digits again: a decimal. */
  lemma PointDecimal(s: string, k: nat, d: nat)
    requires k <= |s| && 0 < d < |s[k..]| - 1 && s[k..][d] == '.'
    requires AllDigits(s[k..][..d]) && AllDigits(s[k..][d + 1..])
    ensures IsDigit(s[k]) && Decimal(s, k, Whole, false)
  {
    var b := s[k..];
    assert forall j :: k <= j < k + d ==> s[j] == b[..d][j - k];
    assert forall j :: k + d < j < |s| ==> s[j] == b[d + 1..][j - k - d - 1];
    PointFinish(s, k, k + d, false);
  }

  /** An unsigned numeral from `k` on is a decimal that starts with a digit. */
  lemma UnsignedDecimal(s: string, k: nat)
    requires k <= |s| && IsUnsignedNumeral(s[k..])
    ensures k < |s| && IsDigit(s[k]) && Decimal(s, k, Whole, false)
  {
    var b := s[k..];
    if |b| > 0 && AllDigits(b) {
      DigitsDecimal(s, k);
    } else {
      var d :| 0 < d < |b| - 1 && b[d] == '.' && AllDigits(b[..d]) && AllDigits(b[d + 1..]);
      PointDecimal(s, k, d);
    }
  }

  /** Every numeral the tokenizer reads is a number `f64::from_str` accepts. */
  lemma NumeralFloat(s: string)
    requires IsNumeral(s)
    ensures FloatSyntax(s)
  {
    if |s| > 0 && s[0] == '-' {
      UnsignedDecimal(s, 1);
    } else {
      assert s[0..] == s;
      UnsignedDecimal(s, 0);
    }
  }

  /** Every token one scanning step emits is lexical. */
  lemma ScanLexical(s: string, pos: nat, line: nat, column: nat)
    requires pos < |s|
    ensures var r := ScanToken(s, pos, line, column);
      r.Emit? ==> Lexical(SignatureOf(r.token))
  {
    var c := s[pos];
    if IsStructural(c) {
      ScanTokenBasics(s, pos, line, column);
    } else if c == '"' || c == '\'' {
    } else if IsDigit(c) || (c == '-' && pos + 1 < |s| && IsDigit(s[pos + 1])) {
      StepAtNumber(s, pos, line, column);
      NumberToken(s, pos);
      NumeralFloat(s[pos..NumberEnd(s, pos + 1)]);
    } else if IsAlpha(c) {
      StepAtWord(s, pos, line, column);
    }
  }

  lemma {:induction false} LexFromLexical(s: string, pos: nat, line: nat, column: nat, lastStart: nat)
    requires pos <= |s|
    ensures var r := LexFrom(s, pos, line, column, lastStart);
      r.Success? ==> AllLexical(Signatures(r.value))
    decreases |s| - pos
  {
    if pos < |s| {
      match ScanToken(s, pos, line, column)
      case Error(_) =>
      case Skip(l, c) => LexFromLexical(s, pos + 1, l, c, pos);
      case Emit(t, next, l, c) =>
        LexFromLexical(s, next, l, c, pos);
        ScanLexical(s, pos, line, column);
        var rest := LexFrom(s, next, l, c, pos);
        if rest.Success? {
          PrependLexical(t, rest.value);
        }
    }
  }

  /** A lexical token in front of lexical tokens keeps the list lexical. */
  lemma PrependLexical(t: Token, ts: seq<Token>)
    requires Lexical(SignatureOf(t)) && AllLexical(Signatures(ts))
    ensures AllLexical(Signatures([t] + ts))
  {
    var sigs, rest := Signatures([t] + ts), Signatures(ts);
    assert forall i :: 1 <= i < |sigs| ==> sigs[i] == rest[i - 1];
  }

  /**
   * The token list of a text that tokenizes ends with its end-of-file token,
   * and every token in it is lexical, so in particular canonical.
   */
  lemma LexedTokens(s: string)
    requires Lex(s).Success?
    ensures var sigs := Signatures(Lex(s).value);
      EndsWithEof(sigs) && Canonical(sigs) && AllLexical(sigs)
  {
    LexEndsWithEof(s);
    LexFromLexical(s, 0, 1, 1, 0);
  }

  // ---------------------------------------------------------------------
  // Only grammar errors are left once a text tokenizes
  // ---------------------------------------------------------------------

  /** A fault about the order of tokens, rather than about the spelling of one. */
  predicate GrammarFault(f: Fault) {
    !f.InvalidNumber? && !f.InvalidBoolean?
  }

  lemma LexicalPeek(sigs: seq<Signature>, pos: nat)
    requires |sigs| > 0 && AllLexical(sigs)
    ensures Lexical(Peek(sigs, pos))
  {
  }

  /**
   * On lexical tokens `parse_value` never reports an invalid number or an
   * invalid boolean: those two errors cannot come from a text.
   */
  lemma {:induction false} ValueFault(sigs: seq<Signature>, pos: nat)
    requires EndsWithEof(sigs) && pos <= |sigs| && AllLexical(sigs)
    ensures ParseValue(sigs, pos).Failure? ==> GrammarFault(ParseValue(sigs, pos).error)
    decreases |sigs| - pos, 1
  {
    if |sigs| > 0 {
      LexicalPeek(sigs, pos);
    }
    match Peek(sigs, pos).kind
    case LeftBrace => ObjectFault(sigs, pos);
    case LeftBracket => ArrayFault(sigs, pos);
    case _ =>
  }

  lemma {:induction false} ObjectFault(sigs: seq<Signature>, pos: nat)
    requires EndsWithEof(sigs) && pos <= |sigs| && AllLexical(sigs)
    ensures ParseObject(sigs, pos).Failure? ==> GrammarFault(ParseObject(sigs, pos).error)
    decreases |sigs| - pos, 0
  {
    if Peek(sigs, pos).kind == LeftBrace && Peek(sigs, pos + 1).kind != RightBrace {
      MembersFault(sigs, pos + 1, map[]);
    }
  }

  lemma {:induction false} MembersFault(sigs: seq<Signature>, pos: nat, acc: map<string, JsonElement>)
    requires EndsWithEof(sigs) && pos <= |sigs| && AllLexical(sigs)
    ensures ParseMembers(sigs, pos, acc).Failure? ==> GrammarFault(ParseMembers(sigs, pos, acc).error)
    decreases |sigs| - pos, 2
  {
    var key := Peek(sigs, pos);
    if key.kind == TokenKind.String && Peek(sigs, pos + 1).kind == Colon {
      ValueFault(sigs, pos + 2);
      match ParseValue(sigs, pos + 2)
      case Failure(_) =>
      case Success(p) =>
        if Peek(sigs, p.next).kind == Comma {
          MembersFault(sigs, p.next + 1, acc[key.lexeme := p.value]);
        }
    }
  }

  lemma {:induction false} ArrayFault(sigs: seq<Signature>, pos: nat)
    requires EndsWithEof(sigs) && pos <= |sigs| && AllLexical(sigs)
    ensures ParseArray(sigs, pos).Failure? ==> GrammarFault(ParseArray(sigs, pos).error)
    decreases |sigs| - pos, 0
  {
    if Peek(sigs, pos).kind == LeftBracket && Peek(sigs, pos + 1).kind != RightBracket {
      ElementsFault(sigs, pos + 1, []);
    }
  }

  lemma {:induction false} ElementsFault(sigs: seq<Signature>, pos: nat, acc: seq<JsonElement>)
    requires EndsWithEof(sigs) && pos <= |sigs| && AllLexical(sigs)
    ensures ParseElements(sigs, pos, acc).Failure? ==> GrammarFault(ParseElements(sigs, pos, acc).error)
    decreases |sigs| - pos, 2
  {
    ValueFault(sigs, pos);
    match ParseValue(sigs, pos)
    case Failure(_) =>
    case Success(p) =>
      if Peek(sigs, p.next).kind == Comma {
        ElementsFault(sigs, p.next + 1, acc + [p.value]);
      }
  }

  /**
   * `Json::_parse` fails with the tokenizer's error when the text does not
   * tokenize, and otherwise only with a grammar error.
   */
  lemma ParseTextFaults(s: string)
    ensures Lex(s).Failure? ==> ParseText(s) == Failure(Lex(s).error)
    ensures Lex(s).Success? && ParseText(s).Failure? ==>
      exists f :: GrammarFault(f) && ParseText(s) == Failure(ParseError(Message(f)))
  {
    if Lex(s).Success? {
      LexedTokens(s);
      var sigs := Signatures(Lex(s).value);
      ValueFault(sigs, 0);
      if ParseText(s).Failure? {
        var f := ParseValue(sigs, 0).error;
        assert GrammarFault(f) && ParseText(s) == Failure(ParseError(Message(f)));
      }
    }
  }

  // ---------------------------------------------------------------------
  // Whole texts and the reference grammar
  // ---------------------------------------------------------------------

  /** A rendered text never ends in an end-of-file token. */
  lemma RenderEnds(x: Syntax)
    ensures Render(x)[|Render(x)| - 1].kind != EndOfFile
  {
    var r := Render(x);
    match x
    case ArrayLiteral(items) =>
      if |items| > 0 {
        assert r == [OpenBracket] + (RenderItems(items) + [CloseBracket]);
        assert r[|r| - 1] == CloseBracket;
      }
    case ObjectLiteral(ms) =>
      if |ms| > 0 {
        assert r == [OpenBrace] + (RenderMembers(ms) + [CloseBrace]);
        assert r[|r| - 1] == CloseBrace;
      }
    case _ =>
  }

  /**
   * Every text `Json::_parse` accepts tokenizes, its tokens start with the
   * rendering of a grammar text, and the result is that text's meaning.
   */
  lemma ParseTextAccepted(s: string)
    requires ParseText(s).Success?
    ensures Lex(s).Success?
    ensures exists x :: HoldsAt(Signatures(Lex(s).value), 0, Render(x)) && ParseText(s) == Success(Meaning(x))
  {
    LexedTokens(s);
    var sigs := Signatures(Lex(s).value);
    ParseAccepted(sigs, 0);
    var x :| HoldsAt(sigs, 0, Render(x)) && ParseValue(sigs, 0) == Success(Parsed(Meaning(x), |Render(x)|));
    assert ParseText(s) == Success(Meaning(x));
  }

  /**
   * Conversely, a text whose tokens start with the rendering of a grammar
   * text parses to that text's meaning, whatever tokens follow it.
   */
  lemma ParseTextRendered(s: string, x: Syntax)
    requires Lex(s).Success? && HoldsAt(Signatures(Lex(s).value), 0, Render(x))
    ensures ParseText(s) == Success(Meaning(x))
  {
    LexEndsWithEof(s);
    var sigs := Signatures(Lex(s).value);
    RenderEnds(x);
    ParseRendered(sigs, 0, x);
  }

  /** Only the first value is parsed: the tokens after it are never inspected. */
  lemma TrailingIgnored(x: Syntax, rest: seq<Signature>)
    requires |rest| > 0 && EndsWithEof(rest)
    ensures EndsWithEof(Render(x) + rest)
    ensures ParseTokens(Render(x) + rest) == Success(Meaning(x))
  {
    var sigs := Render(x) + rest;
    assert sigs[|sigs| - 1] == rest[|rest| - 1];
    assert HoldsAt(sigs, 0, Render(x));
    ParseRendered(sigs, 0, x);
  }

  /**
   * Whitespace between tokens does not change the tree: inserting a blank
   * at a token boundary after a text that tokenizes on its own neither makes
   * the parse fail nor changes its result.
   */
  lemma BlankIgnored(a: string, b: char, c: string)
    requires IsBlank(b) && Separated(a, c) && Lex(a).Success?
    ensures ParseText(a + [b] + c).Success? <==> ParseText(a + c).Success?
    ensures Lex(a + c).Success? ==> ParseText(a + [b] + c) == ParseText(a + c)
  {
    BlankInsertion(a, b, c);
    var wide := Lex(a + [b] + c);
    var narrow := Lex(a + c);
    if narrow.Success? {
      assert Signatures(wide.value) == Signatures(narrow.value);
    }
  }
}
