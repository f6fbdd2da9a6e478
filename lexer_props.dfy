/**
 * Properties of the tokenizer of saffron-data (`tokenizer.rs`), stated on the
 * functions of `LexSpec` that `Lexer.Tokenizer` is proved to follow.
 */
module LexProps {
  import opened Wrappers
  import opened Strings
  import opened Tokens
  import opened LexSpec

  // ---------------------------------------------------------------------
  // The end-of-file token
  // ---------------------------------------------------------------------

  /** `ts` ends with the end-of-file token and holds no other. */
  predicate EofOnlyLast(ts: seq<Token>) {
    && |ts| > 0
    && ts[|ts| - 1].kind == EndOfFile
    && ts[|ts| - 1].lexeme == EofLexeme
    && forall i :: 0 <= i < |ts| - 1 ==> ts[i].kind != EndOfFile
  }

  /** Putting a token that is not end-of-file in front keeps the end-of-file token last and alone. */
  lemma PrependKeepsEofLast(t: Token, ts: seq<Token>)
    requires t.kind != EndOfFile && EofOnlyLast(ts)
    ensures EofOnlyLast([t] + ts)
  {
    var us := [t] + ts;
    assert forall i :: 1 <= i < |us| ==> us[i] == ts[i - 1];
  }

  /** A successful scan ends with an end-of-file token, and no earlier token is one. */
  lemma {:induction false} LexFromEndsWithEof(s: string, pos: nat, line: nat, column: nat, lastStart: nat)
    requires pos <= |s|
    ensures var r := LexFrom(s, pos, line, column, lastStart);
      r.Success? ==>
        && |r.value| > 0
        && r.value[|r.value| - 1].kind == EndOfFile
        && r.value[|r.value| - 1].lexeme == EofLexeme
        && forall i :: 0 <= i < |r.value| - 1 ==> r.value[i].kind != EndOfFile
    decreases |s| - pos
  {
    EofOnlyLastFrom(s, pos, line, column, lastStart);
  }

  /** The same, stated with `EofOnlyLast`. */
  lemma {:induction false} EofOnlyLastFrom(s: string, pos: nat, line: nat, column: nat, lastStart: nat)
    requires pos <= |s|
    ensures LexFrom(s, pos, line, column, lastStart).Success? ==> EofOnlyLast(LexFrom(s, pos, line, column, lastStart).value)
    decreases |s| - pos
  {
    if pos < |s| {
      match ScanToken(s, pos, line, column)
      case Error(_) =>
      case Skip(l, c) => EofOnlyLastFrom(s, pos + 1, l, c, pos);
      case Emit(t, next, l, c) =>
        EofOnlyLastFrom(s, next, l, c, pos);
        var rest := LexFrom(s, next, l, c, pos);
        if rest.Success? {
          PrependKeepsEofLast(t, rest.value);
        }
    }
  }

  /** `scan_tokens` on a whole text: the list is never empty and only its last token is `EndOfFile`. */
  lemma LexEndsWithEof(s: string)
    ensures var r := Lex(s);
      r.Success? ==>
        && |r.value| > 0
        && r.value[|r.value| - 1].kind == EndOfFile
        && forall i :: 0 <= i < |r.value| - 1 ==> r.value[i].kind != EndOfFile
  {
    LexFromEndsWithEof(s, 0, 1, 1, 0);
  }

  // ---------------------------------------------------------------------
  // String literals
  // ---------------------------------------------------------------------

  /**
   * How a text `v` is written inside a literal quoted with `quote`: a
   * backslash and that quote are preceded by a backslash, any other char
   * (the other quote, a newline) is written as it is.
   */
  function Escape(v: string, quote: char): (r: string)
    ensures |v| <= |r| <= 2 * |v|
  {
    if |v| == 0 then []
    else (if v[0] == '\\' || v[0] == quote then ['\\', v[0]] else [v[0]]) + Escape(v[1..], quote)
  }

  /** One plain char of a literal body: it is kept as it is. */
  lemma PlainStep(s: string, pos: nat, i: nat, quote: char, value: string, line: nat, column: nat)
    requires pos < i < |s| && s[i] != '\\' && s[i] != quote
    ensures ScanString(s, pos, i, quote, false, value, line, column)
         == ScanString(s, pos, i + 1, quote, false, value + [s[i]],
                       if s[i] == '\n' then line + 1 else line, if s[i] == '\n' then 1 else column + 2)
  {
  }

  /** A backslash and the quote or backslash after it stand for that second char. */
  lemma EscapeStep(s: string, pos: nat, i: nat, quote: char, value: string, line: nat, column: nat)
    requires pos < i && i + 1 < |s| && s[i] == '\\' && (s[i + 1] == '\\' || s[i + 1] == quote)
    requires quote == '"' || quote == '\''
    ensures ScanString(s, pos, i, quote, false, value, line, column)
         == ScanString(s, pos, i + 2, quote, false, value + [s[i + 1]], line, column + 4)
  {
    assert ScanString(s, pos, i, quote, false, value, line, column)
        == ScanString(s, pos, i + 1, quote, true, value, line, column + 2);
  }

  /** Reading an escaped body followed by the quote yields the text back, and stops after the quote. */
  lemma {:induction false} ScanEscaped(s: string, pos: nat, i: nat, quote: char, value: string, v: string, rest: string)
    requires quote == '"' || quote == '\''
    requires pos < i <= |s| && s[i..] == Escape(v, quote) + [quote] + rest
    ensures forall line: nat, column: nat :: var r := ScanString(s, pos, i, quote, false, value, line, column);
      r.Emit? && r.token.lexeme == value + v && r.next == i + |Escape(v, quote)| + 1
    decreases |v|
  {
    if |v| == 0 {
      assert s[i] == s[i..][0] == quote;
    } else {
      var e' := Escape(v[1..], quote);
      var h := if v[0] == '\\' || v[0] == quote then ['\\', v[0]] else [v[0]];
      var n := |h|;
      assert s[i..] == h + (e' + [quote] + rest);
      assert s[i + n..] == s[i..][n..] == e' + [quote] + rest;
      assert s[i] == s[i..][0] == h[0];
      assert value + [v[0]] + v[1..] == value + v;
      ScanEscaped(s, pos, i + n, quote, value + [v[0]], v[1..], rest);
      if n == 2 {
        assert s[i + 1] == s[i..][1] == v[0];
        forall line: nat, column: nat {
          EscapeStep(s, pos, i, quote, value, line, column);
        }
      } else {
        forall line: nat, column: nat {
          PlainStep(s, pos, i, quote, value, line, column);
        }
      }
    }
  }

  /**
   * A literal opened by `quote`, holding the escaped form of `v` and closed by
   * the same quote, is one `String` token whose lexeme is `v` itself.
   */
  lemma StringLiteralRoundTrip(v: string, quote: char, rest: string, line: nat, column: nat)
    requires quote == '"' || quote == '\''
    ensures var s := [quote] + Escape(v, quote) + [quote] + rest;
      var r := ScanToken(s, 0, line, column);
      && r.Emit?
      && r.token.kind == String
      && r.token.lexeme == v
      && r.next == |Escape(v, quote)| + 2
  {
    var e := Escape(v, quote);
    var s := [quote] + e + [quote] + rest;
    StepAtQuote(s, 0, line, column);
    assert s[1..] == e + [quote] + rest;
    ScanEscaped(s, 0, 1, quote, "", v, rest);
    assert "" + v == v;
  }

  /** Input that holds no `quote` at all never closes a literal: the scan fails. */
  lemma {:induction false} NoClosingQuote(s: string, pos: nat, i: nat, quote: char, escaped: bool, value: string, line: nat, column: nat)
    requires pos < i <= |s|
    requires forall k :: i <= k < |s| ==> s[k] != quote
    ensures ScanString(s, pos, i, quote, escaped, value, line, column).Error?
    decreases |s| - i
  {
    if i < |s| {
      var c := s[i];
      var l' := if c == '\n' then line + 1 else line;
      var c' := if c == '\n' then 1 else column + 2;
      if escaped {
        NoClosingQuote(s, pos, i + 1, quote, false, value + [Unescape(c)], l', c');
      } else if c == '\\' {
        NoClosingQuote(s, pos, i + 1, quote, true, value, l', c');
      } else {
        NoClosingQuote(s, pos, i + 1, quote, false, value + [c], l', c');
      }
    }
  }

  /** What may follow the escaped body of a literal that is never closed. */
  predicate OpenTail(tail: string, quote: char) {
    tail == [] || tail == ['\\'] || tail == ['\\', quote]
  }

  /** The input ends, or ends with a lone backslash, or with a backslash and the quote it escapes. */
  lemma UnclosedTail(s: string, pos: nat, i: nat, quote: char, value: string, line: nat, column: nat)
    requires pos < i <= |s| && OpenTail(s[i..], quote)
    ensures ScanString(s, pos, i, quote, false, value, line, column).Error?
  {
    if i < |s| {
      assert s[i] == '\\';
      if i + 1 < |s| {
        NoClosingQuote(s, pos, i + 2, quote, false, value + [Unescape(s[i + 1])], 0, 0);
      }
    }
  }

  /**
   * An escaped body that ends the input, possibly with a final backslash or a
   * final escaped quote, leaves the literal open: the scan fails.
   */
  lemma {:induction false} UnclosedAfterEscapes(s: string, pos: nat, i: nat, quote: char, value: string, v: string, tail: string, line: nat, column: nat)
    requires quote == '"' || quote == '\''
    requires OpenTail(tail, quote)
    requires pos < i <= |s| && s[i..] == Escape(v, quote) + tail
    ensures ScanString(s, pos, i, quote, false, value, line, column).Error?
    decreases |v|
  {
    if |v| == 0 {
      assert s[i..] == tail;
      UnclosedTail(s, pos, i, quote, value, line, column);
    } else {
      var e' := Escape(v[1..], quote);
      var n := if v[0] == '\\' || v[0] == quote then 2 else 1;
      assert s[i..] == s[i..i + n] + e' + tail;
      assert s[i + n..] == e' + tail;
      var l' := if s[i] == '\n' then line + 1 else line;
      var c' := if s[i] == '\n' then 1 else column + 2;
      if n == 2 {
        var l'' := if s[i + 1] == '\n' then l' + 1 else l';
        var c'' := if s[i + 1] == '\n' then 1 else c' + 2;
        assert ScanString(s, pos, i, quote, false, value, line, column)
            == ScanString(s, pos, i + 1, quote, true, value, l', c')
            == ScanString(s, pos, i + 2, quote, false, value + [Unescape(v[0])], l'', c'');
        UnclosedAfterEscapes(s, pos, i + 2, quote, value + [Unescape(v[0])], v[1..], tail, l'', c'');
      } else {
        assert ScanString(s, pos, i, quote, false, value, line, column)
            == ScanString(s, pos, i + 1, quote, false, value + [v[0]], l', c');
        UnclosedAfterEscapes(s, pos, i + 1, quote, value + [v[0]], v[1..], tail, l', c');
      }
    }
  }

  /** A source that opens a literal and never closes it is rejected. */
  lemma UnterminatedStringFails(quote: char, v: string, tail: string)
    requires quote == '"' || quote == '\''
    requires OpenTail(tail, quote)
    ensures Lex([quote] + Escape(v, quote) + tail).Failure?
  {
    var s := [quote] + Escape(v, quote) + tail;
    StepAtQuote(s, 0, 1, 1);
    assert s[1..] == Escape(v, quote) + tail;
    UnclosedAfterEscapes(s, 0, 1, quote, "", v, tail, 1, 2);
  }

  // ---------------------------------------------------------------------
  // Numbers, words and invalid characters
  // ---------------------------------------------------------------------

  /** The chars from `i` up to `DigitsEnd(s, i)` are all digits. */
  lemma {:induction false} DigitsRun(s: string, i: nat)
    requires i <= |s|
    ensures AllDigits(s[i..DigitsEnd(s, i)])
    decreases |s| - i
  {
    if i < |s| && IsDigit(s[i]) {
      DigitsRun(s, i + 1);
      assert s[i..DigitsEnd(s, i)] == [s[i]] + s[i + 1..DigitsEnd(s, i + 1)];
    }
  }

  /** The chars from `i` up to `WordEnd(s, i)` are all ASCII letters or digits. */
  lemma {:induction false} WordRun(s: string, i: nat)
    requires i <= |s|
    ensures forall k :: i <= k < WordEnd(s, i) ==> IsAlphaNumeric(s[k])
    decreases |s| - i
  {
    if i < |s| && IsAlphaNumeric(s[i]) {
      WordRun(s, i + 1);
    }
  }

  /** Digits from `first` to `j`, then possibly `.` and digits up to `e`: an unsigned numeral. */
  lemma UnsignedNumeralParts(s: string, first: nat, j: nat, e: nat)
    requires first < j <= e <= |s| && AllDigits(s[first..j])
    requires e == j || (s[j] == '.' && j + 1 < e && AllDigits(s[j + 1..e]))
    ensures IsUnsignedNumeral(s[first..e])
  {
    if e != j {
      var b := s[first..e];
      var d := j - first;
      assert b[..d] == s[first..j];
      assert b[d + 1..] == s[j + 1..e];
      assert b[d] == '.';
    }
  }

  /**
   * The lexeme of a number token is a numeral (optional `-`, digits, and
   * optionally `.` with at least one digit), and the token stops before any
   * further digit, and before a `.` that a digit follows unless it already
   * holds a `.`.
   */
  lemma NumberToken(s: string, pos: nat)
    requires pos < |s|
    requires IsDigit(s[pos]) || (s[pos] == '-' && pos + 1 < |s| && IsDigit(s[pos + 1]))
    ensures var e := NumberEnd(s, pos + 1);
      && IsNumeral(s[pos..e])
      && (e == |s| || !IsDigit(s[e]))
      && (e + 1 < |s| && s[e] == '.' && IsDigit(s[e + 1]) ==> '.' in s[pos..e])
  {
    var j := DigitsEnd(s, pos + 1);
    var e := NumberEnd(s, pos + 1);
    var first := if s[pos] == '-' then pos + 1 else pos;
    assert DigitsEnd(s, first) == j;
    DigitsRun(s, first);
    NumberEndAfter(s, pos + 1, j);
    if j + 1 < |s| && s[j] == '.' && IsDigit(s[j + 1]) {
      DigitsRun(s, j + 1);
      assert s[pos..e][j - pos] == '.';
    }
    UnsignedNumeralParts(s, first, j, e);
    if first != pos {
      assert s[pos..e][1..] == s[first..e];
    }
  }

  /** A word token is a letter followed by the longest run of letters and digits. */
  lemma WordToken(s: string, pos: nat, line: nat, column: nat)
    requires pos < |s| && IsAlpha(s[pos])
    ensures var r := ScanToken(s, pos, line, column);
      && r.Emit?
      && r.token.kind == WordKind(r.token.lexeme)
      && r.token.lexeme == s[pos..r.next]
      && (forall k :: pos <= k < r.next ==> IsAlphaNumeric(s[k]))
      && (r.next == |s| || !IsAlphaNumeric(s[r.next]))
  {
    StepAtWord(s, pos, line, column);
    WordRun(s, pos + 1);
  }

  /** The chars a token or a blank can start with; `-` only when a digit follows. */
  predicate StartsToken(s: string, pos: nat)
    requires pos < |s|
  {
    var c := s[pos];
    || c == ' ' || c == '\t' || c == '\r' || c == '\n'
    || IsStructural(c) || c == '"' || c == '\''
    || IsDigit(c) || IsAlpha(c)
    || (c == '-' && pos + 1 < |s| && IsDigit(s[pos + 1]))
  }

  /**
   * A char no token starts with, and a `-` without a digit after it, stop the
   * scan with the invalid-character error; nothing else gives that error.
   */
  lemma InvalidChar(s: string, pos: nat, line: nat, column: nat)
    requires pos < |s|
    ensures !StartsToken(s, pos) <==> ScanToken(s, pos, line, column) == Error(InvalidCharMessage(s[pos], line))
  {
    var c := s[pos];
    if StartsToken(s, pos) && (c == '"' || c == '\'') {
      StepAtQuote(s, pos, line, column);
      var r := ScanToken(s, pos, line, column);
      if r.Error? {
        var l :| r == Error(UnterminatedMessage(l)) by {
          UnterminatedOnly(s, pos, pos + 1, c, false, "", line, column + 1);
        }
        assert UnterminatedMessage(l)[0] == 'U';
        assert InvalidCharMessage(c, line)[0] == 'I';
      }
    }
  }

  /** The only error a literal scan produces is the unterminated-string one. */
  lemma {:induction false} UnterminatedOnly(s: string, pos: nat, i: nat, quote: char, escaped: bool, value: string, line: nat, column: nat)
    requires pos < i <= |s|
    ensures var r := ScanString(s, pos, i, quote, escaped, value, line, column);
      r.Error? ==> exists l :: r == Error(UnterminatedMessage(l))
    decreases |s| - i
  {
    if i < |s| {
      var c := s[i];
      var l' := if c == '\n' then line + 1 else line;
      var c' := if c == '\n' then 1 else column + 2;
      if escaped {
        UnterminatedOnly(s, pos, i + 1, quote, false, value + [Unescape(c)], l', c');
      } else if c == '\\' {
        UnterminatedOnly(s, pos, i + 1, quote, true, value, l', c');
      } else if c != quote {
        UnterminatedOnly(s, pos, i + 1, quote, false, value + [c], l', c');
      }
    }
  }

  /** A `.` is never the start of a token. */
  lemma DotIsError(s: string, pos: nat, line: nat, column: nat)
    requires pos < |s| && s[pos] == '.'
    ensures ScanToken(s, pos, line, column) == Error(InvalidCharMessage('.', line))
  {
    InvalidChar(s, pos, line, column);
  }

  /** A number followed by a `.` that no digit follows leaves the `.`, and the scan fails on it. */
  lemma StrayDotFails(s: string, pos: nat, line: nat, column: nat, lastStart: nat)
    requires pos < |s|
    requires IsDigit(s[pos]) || (s[pos] == '-' && pos + 1 < |s| && IsDigit(s[pos + 1]))
    requires NumberEnd(s, pos + 1) < |s| && s[NumberEnd(s, pos + 1)] == '.'
    ensures LexFrom(s, pos, line, column, lastStart).Failure?
  {
    var e := NumberEnd(s, pos + 1);
    StepAtNumber(s, pos, line, column);
    var column' := column + (e - pos);
    DotIsError(s, e, line, column');
  }

  /** `1.` and `123.456.789` are not numbers: both texts are rejected. */
  lemma StrayDotExamples()
    ensures Lex("1.").Failure?
    ensures Lex("123.456.789").Failure?
  {
    var s := "1.";
    assert DigitsEnd(s, 1) == 1;
    StrayDotFails(s, 0, 1, 1, 0);
    var t := "123.456.789";
    DigitsEndIs(t, 1, 3);
    DigitsEndIs(t, 4, 7);
    assert NumberEnd(t, 1) == 7;
    StrayDotFails(t, 0, 1, 1, 0);
  }
}
