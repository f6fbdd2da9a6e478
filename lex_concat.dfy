/**
 * Whitespace between tokens does not matter to the tree builder: the kinds
 * and lexemes the tokenizer (saffron-data `tokenizer.rs`) produces for a text
 * with an extra blank at a token boundary are those it produces without it.
 * Only line, column and span change, and the tree builder reads none of them.
 */
module LexConcat {
  import opened Wrappers
  import opened Strings
  import opened Tokens
  import opened LexSpec
  import opened LexProps

  predicate IsBlank(c: char) {
    c == ' ' || c == '\t' || c == '\r' || c == '\n'
  }

  /**
   * `a` followed by `c` has a token boundary at the seam: no word or number
   * at the end of `a` can continue into `c`.
   */
  predicate Separated(a: string, c: string) {
    |a| == 0 || |c| == 0 || !IsAlphaNumeric(a[|a| - 1]) || IsBlank(c[0]) || IsStructural(c[0])
  }

  /** What the tree builder sees of a scan: the signatures of the tokens, or nothing on failure. */
  function SigResult(r: Result<seq<Token>, ParseError>): (o: Option<seq<Signature>>)
    ensures o.Some? <==> r.Success?
    ensures r.Success? ==> o.value == Signatures(r.value)
  {
    match r
    case Success(ts) => Some(Signatures(ts))
    case Failure(_) => None
  }

  /** Tokens put in front of a scan put their signatures in front of its signatures. */
  lemma SigResultPrepend(ts: seq<Token>, r: Result<seq<Token>, ParseError>)
    ensures SigResult(Prepend(ts, r)).Some? <==> SigResult(r).Some?
    ensures SigResult(r).Some? ==> SigResult(Prepend(ts, r)).value == Signatures(ts) + SigResult(r).value
  {
    if r.Success? {
      assert Signatures(ts + r.value) == Signatures(ts) + Signatures(r.value);
    }
  }

  // ---------------------------------------------------------------------
  // A scan depends only on the text from its position on
  // ---------------------------------------------------------------------

  lemma {:induction false} DigitsEndSuffix(s1: string, i1: nat, s2: string, i2: nat)
    requires i1 <= |s1| && i2 <= |s2| && s1[i1..] == s2[i2..]
    ensures DigitsEnd(s1, i1) - i1 == DigitsEnd(s2, i2) - i2
    decreases |s1| - i1
  {
    if i1 < |s1| {
      assert s1[i1] == s1[i1..][0] == s2[i2..][0] == s2[i2];
      assert s1[i1 + 1..] == s1[i1..][1..] == s2[i2..][1..] == s2[i2 + 1..];
      DigitsEndSuffix(s1, i1 + 1, s2, i2 + 1);
    }
  }

  lemma {:induction false} WordEndSuffix(s1: string, i1: nat, s2: string, i2: nat)
    requires i1 <= |s1| && i2 <= |s2| && s1[i1..] == s2[i2..]
    ensures WordEnd(s1, i1) - i1 == WordEnd(s2, i2) - i2
    decreases |s1| - i1
  {
    if i1 < |s1| {
      assert s1[i1] == s1[i1..][0] == s2[i2..][0] == s2[i2];
      assert s1[i1 + 1..] == s1[i1..][1..] == s2[i2..][1..] == s2[i2 + 1..];
      WordEndSuffix(s1, i1 + 1, s2, i2 + 1);
    }
  }

  lemma NumberEndSuffix(s1: string, i1: nat, s2: string, i2: nat)
    requires i1 <= |s1| && i2 <= |s2| && s1[i1..] == s2[i2..]
    ensures NumberEnd(s1, i1) - i1 == NumberEnd(s2, i2) - i2
  {
    var j1, j2 := DigitsEnd(s1, i1), DigitsEnd(s2, i2);
    DigitsEndSuffix(s1, i1, s2, i2);
    NumberEndAfter(s1, i1, j1);
    NumberEndAfter(s2, i2, j2);
    if j1 + 1 < |s1| {
      assert s1[j1] == s1[i1..][j1 - i1] == s2[j2];
      assert s1[j1 + 1] == s1[i1..][j1 + 1 - i1] == s2[j2 + 1];
      assert s1[j1 + 1..] == s1[i1..][j1 + 1 - i1..] == s2[j2 + 1..];
      DigitsEndSuffix(s1, j1 + 1, s2, j2 + 1);
    }
  }

  /** Two literal scans agree on their outcome, their decoded text and how far they read. */
  predicate SameScan(r1: ScanStep, i1: nat, r2: ScanStep, i2: nat) {
    && r1.Emit? == r2.Emit?
    && (r1.Emit? ==> r1.token.lexeme == r2.token.lexeme && r1.next - i1 == r2.next - i2)
  }

  /** A literal scan from the same remaining text reads the same value to the same offset. */
  lemma {:induction false} ScanStringSuffix(
    s1: string, pos1: nat, i1: nat, l1: nat, c1: nat,
    s2: string, pos2: nat, i2: nat, l2: nat, c2: nat,
    quote: char, escaped: bool, value: string)
    requires pos1 < i1 <= |s1| && pos2 < i2 <= |s2| && s1[i1..] == s2[i2..]
    ensures SameScan(ScanString(s1, pos1, i1, quote, escaped, value, l1, c1), i1, ScanString(s2, pos2, i2, quote, escaped, value, l2, c2), i2)
    decreases |s1| - i1
  {
    if i1 < |s1| {
      var ch := s1[i1];
      assert ch == s1[i1..][0] == s2[i2..][0] == s2[i2];
      assert s1[i1 + 1..] == s1[i1..][1..] == s2[i2..][1..] == s2[i2 + 1..];
      var l1', c1' := if ch == '\n' then l1 + 1 else l1, if ch == '\n' then 1 else c1 + 2;
      var l2', c2' := if ch == '\n' then l2 + 1 else l2, if ch == '\n' then 1 else c2 + 2;
      if escaped {
        ScanStringSuffix(s1, pos1, i1 + 1, l1', c1', s2, pos2, i2 + 1, l2', c2', quote, false, value + [Unescape(ch)]);
      } else if ch == '\\' {
        ScanStringSuffix(s1, pos1, i1 + 1, l1', c1', s2, pos2, i2 + 1, l2', c2', quote, true, value);
      } else if ch != quote {
        ScanStringSuffix(s1, pos1, i1 + 1, l1', c1', s2, pos2, i2 + 1, l2', c2', quote, false, value + [ch]);
      }
    }
  }

  /** Two steps agree on all the tree builder sees: outcome, kind, lexeme and length. */
  predicate SameShape(r1: ScanStep, p1: nat, r2: ScanStep, p2: nat) {
    && r1.Error? == r2.Error?
    && r1.Skip? == r2.Skip?
    && (r1.Emit? && r2.Emit? ==> SignatureOf(r1.token) == SignatureOf(r2.token) && r1.next - p1 == r2.next - p2)
  }

  /** The lexeme of a token is the same slice of the same remaining text. */
  lemma SliceSuffix(s1: string, p1: nat, e1: nat, s2: string, p2: nat, e2: nat)
    requires p1 <= e1 <= |s1| && p2 <= e2 <= |s2| && s1[p1..] == s2[p2..] && e1 - p1 == e2 - p2
    ensures s1[p1..e1] == s2[p2..e2]
  {
    assert s1[p1..e1] == s1[p1..][..e1 - p1];
    assert s2[p2..e2] == s2[p2..][..e2 - p2];
  }

  lemma {:induction false} StepSuffix(s1: string, p1: nat, l1: nat, c1: nat, s2: string, p2: nat, l2: nat, c2: nat)
    requires p1 < |s1| && p2 < |s2| && s1[p1..] == s2[p2..]
    ensures SameShape(ScanToken(s1, p1, l1, c1), p1, ScanToken(s2, p2, l2, c2), p2)
  {
    var ch := s1[p1];
    assert ch == s1[p1..][0] == s2[p2..][0] == s2[p2];
    assert s1[p1 + 1..] == s1[p1..][1..] == s2[p2..][1..] == s2[p2 + 1..];
    if ch == '"' || ch == '\'' {
      StepAtQuote(s1, p1, l1, c1);
      StepAtQuote(s2, p2, l2, c2);
      ScanStringSuffix(s1, p1, p1 + 1, l1, c1 + 1, s2, p2, p2 + 1, l2, c2 + 1, ch, false, "");
    } else if IsDigit(ch) || (ch == '-' && p1 + 1 < |s1| && IsDigit(s1[p1 + 1])) {
      assert p1 + 1 < |s1| ==> s1[p1 + 1] == s1[p1..][1] == s2[p2 + 1];
      StepAtNumber(s1, p1, l1, c1);
      StepAtNumber(s2, p2, l2, c2);
      NumberEndSuffix(s1, p1 + 1, s2, p2 + 1);
      SliceSuffix(s1, p1, NumberEnd(s1, p1 + 1), s2, p2, NumberEnd(s2, p2 + 1));
    } else if ch == '-' {
      assert p2 + 1 < |s2| ==> s2[p2 + 1] == s2[p2..][1] == s1[p1 + 1];
    } else if IsAlpha(ch) {
      StepAtWord(s1, p1, l1, c1);
      StepAtWord(s2, p2, l2, c2);
      WordEndSuffix(s1, p1 + 1, s2, p2 + 1);
      SliceSuffix(s1, p1, WordEnd(s1, p1 + 1), s2, p2, WordEnd(s2, p2 + 1));
    } else if IsStructural(ch) {
      SliceSuffix(s1, p1, p1 + 1, s2, p2, p2 + 1);
    }
  }

  /** A scan's outcome and signatures depend only on the text still to be read. */
  lemma {:induction false} LexFromSuffix(
    s1: string, p1: nat, l1: nat, c1: nat, ls1: nat,
    s2: string, p2: nat, l2: nat, c2: nat, ls2: nat)
    requires p1 <= |s1| && p2 <= |s2| && s1[p1..] == s2[p2..]
    ensures SigResult(LexFrom(s1, p1, l1, c1, ls1)) == SigResult(LexFrom(s2, p2, l2, c2, ls2))
    decreases |s1| - p1
  {
    if p1 < |s1| {
      StepSuffix(s1, p1, l1, c1, s2, p2, l2, c2);
      var r1, r2 := ScanToken(s1, p1, l1, c1), ScanToken(s2, p2, l2, c2);
      if r1.Skip? {
        assert s1[p1 + 1..] == s1[p1..][1..] == s2[p2..][1..] == s2[p2 + 1..];
        LexFromSuffix(s1, p1 + 1, r1.line, r1.column, p1, s2, p2 + 1, r2.line, r2.column, p2);
      } else if r1.Emit? {
        var n := r1.next - p1;
        assert s1[r1.next..] == s1[p1..][n..] == s2[p2..][n..] == s2[r2.next..];
        LexFromSuffix(s1, r1.next, r1.line, r1.column, p1, s2, r2.next, r2.line, r2.column, p2);
        SigResultPrepend([r1.token], LexFrom(s1, r1.next, r1.line, r1.column, p1));
        SigResultPrepend([r2.token], LexFrom(s2, r2.next, r2.line, r2.column, p2));
        assert Signatures([r1.token]) == [SignatureOf(r1.token)] == [SignatureOf(r2.token)] == Signatures([r2.token]);
      }
    } else {
      assert Signatures(LexFrom(s1, p1, l1, c1, ls1).value) == [Signature(EndOfFile, EofLexeme)];
      assert Signatures(LexFrom(s2, p2, l2, c2, ls2).value) == [Signature(EndOfFile, EofLexeme)];
    }
  }

  // ---------------------------------------------------------------------
  // A scan of a prefix is not disturbed by what follows a token boundary
  // ---------------------------------------------------------------------

  lemma {:induction false} DigitsEndPrefix(a: string, c: string, i: nat)
    requires i <= |a|
    requires DigitsEnd(a, i) < |a| || |c| == 0 || !IsDigit(c[0])
    ensures DigitsEnd(a + c, i) == DigitsEnd(a, i)
    decreases |a| - i
  {
    if i < |a| {
      assert (a + c)[i] == a[i];
      if IsDigit(a[i]) {
        DigitsEndPrefix(a, c, i + 1);
      }
    } else if |c| > 0 {
      assert (a + c)[i] == c[0];
    }
  }

  lemma {:induction false} WordEndPrefix(a: string, c: string, i: nat)
    requires i <= |a|
    requires WordEnd(a, i) < |a| || |c| == 0 || !IsAlphaNumeric(c[0])
    ensures WordEnd(a + c, i) == WordEnd(a, i)
    decreases |a| - i
  {
    if i < |a| {
      assert (a + c)[i] == a[i];
      if IsAlphaNumeric(a[i]) {
        WordEndPrefix(a, c, i + 1);
      }
    } else if |c| > 0 {
      assert (a + c)[i] == c[0];
    }
  }

  /** A literal closed inside `a` reads the same whatever follows `a`. */
  lemma {:induction false} ScanStringPrefix(a: string, c: string, pos: nat, i: nat, quote: char, escaped: bool, value: string, line: nat, column: nat)
    requires pos < i <= |a|
    requires ScanString(a, pos, i, quote, escaped, value, line, column).Emit?
    ensures ScanString(a + c, pos, i, quote, escaped, value, line, column) == ScanString(a, pos, i, quote, escaped, value, line, column)
    decreases |a| - i
  {
    if i < |a| {
      var ch := a[i];
      assert (a + c)[i] == ch;
      var l', c' := if ch == '\n' then line + 1 else line, if ch == '\n' then 1 else column + 2;
      if escaped {
        ScanStringPrefix(a, c, pos, i + 1, quote, false, value + [Unescape(ch)], l', c');
      } else if ch == '\\' {
        ScanStringPrefix(a, c, pos, i + 1, quote, true, value, l', c');
      } else if ch != quote {
        ScanStringPrefix(a, c, pos, i + 1, quote, false, value + [ch], l', c');
      }
    }
  }

  /**
   * A run of digits from `i` in `a` (where `a` ends in a digit if the run
   * starts at its end) is the same run in `a + c`, and if it reaches the end
   * of `a` then `a` ends alphanumeric.
   */
  lemma DigitsPrefixSeparated(a: string, c: string, i: nat)
    requires 0 < i <= |a| && Separated(a, c)
    requires i == |a| ==> IsDigit(a[i - 1])
    ensures DigitsEnd(a + c, i) == DigitsEnd(a, i)
    ensures DigitsEnd(a, i) == |a| ==> IsAlphaNumeric(a[|a| - 1])
  {
    var j := DigitsEnd(a, i);
    if j == |a| && j > i {
      DigitsRun(a, i);
      assert a[j - 1] == a[i..j][j - 1 - i];
    }
    DigitsEndPrefix(a, c, i);
  }

  /** The number read at `p` in `a` is read the same way in `a + c`. */
  lemma NumberPrefix(a: string, c: string, p: nat)
    requires p < |a| && Separated(a, c)
    requires IsDigit(a[p]) || (a[p] == '-' && p + 1 < |a| && IsDigit(a[p + 1]))
    requires NumberEnd(a, p + 1) < |a| ==> a[NumberEnd(a, p + 1)] != '.'
    ensures NumberEnd(a + c, p + 1) == NumberEnd(a, p + 1)
  {
    var s := a + c;
    var j := DigitsEnd(a, p + 1);
    DigitsPrefixSeparated(a, c, p + 1);
    NumberEndAfter(a, p + 1, j);
    NumberEndAfter(s, p + 1, j);
    if j + 1 < |a| {
      assert s[j] == a[j] && s[j + 1] == a[j + 1];
      if a[j] == '.' && IsDigit(a[j + 1]) {
        DigitsPrefixSeparated(a, c, j + 1);
      }
    } else if j < |a| {
      assert s[j] == a[j];
    } else if |c| > 0 {
      assert s[j] == c[0];
    }
  }

  /** The word read at `p` in `a` is read the same way in `a + c`. */
  lemma WordPrefix(a: string, c: string, p: nat)
    requires p < |a| && Separated(a, c) && IsAlpha(a[p])
    ensures WordEnd(a + c, p + 1) == WordEnd(a, p + 1)
  {
    var e := WordEnd(a, p + 1);
    WordRun(a, p + 1);
    if e == |a| && e > p + 1 {
      assert a[e - 1] == a[p + 1..e][e - 2 - p];
    }
    WordEndPrefix(a, c, p + 1);
  }

  lemma NumberStepPrefix(a: string, c: string, p: nat, l: nat, col: nat)
    requires p < |a| && Separated(a, c)
    requires IsDigit(a[p]) || (a[p] == '-' && p + 1 < |a| && IsDigit(a[p + 1]))
    requires NumberEnd(a, p + 1) < |a| ==> a[NumberEnd(a, p + 1)] != '.'
    ensures ScanToken(a + c, p, l, col) == ScanToken(a, p, l, col)
  {
    var s := a + c;
    assert s[p] == a[p];
    assert p + 1 < |a| ==> s[p + 1] == a[p + 1];
    StepAtNumber(a, p, l, col);
    StepAtNumber(s, p, l, col);
    NumberPrefix(a, c, p);
    assert s[p..NumberEnd(a, p + 1)] == a[p..NumberEnd(a, p + 1)];
  }

  lemma WordStepPrefix(a: string, c: string, p: nat, l: nat, col: nat)
    requires p < |a| && Separated(a, c) && IsAlpha(a[p])
    ensures ScanToken(a + c, p, l, col) == ScanToken(a, p, l, col)
  {
    var s := a + c;
    assert s[p] == a[p];
    StepAtWord(a, p, l, col);
    StepAtWord(s, p, l, col);
    WordPrefix(a, c, p);
    assert s[p..WordEnd(a, p + 1)] == a[p..WordEnd(a, p + 1)];
  }

  lemma QuoteStepPrefix(a: string, c: string, p: nat, l: nat, col: nat)
    requires p < |a| && (a[p] == '"' || a[p] == '\'')
    requires ScanToken(a, p, l, col).Emit?
    ensures ScanToken(a + c, p, l, col) == ScanToken(a, p, l, col)
  {
    var s := a + c;
    assert s[p] == a[p];
    StepAtQuote(a, p, l, col);
    StepAtQuote(s, p, l, col);
    ScanStringPrefix(a, c, p, p + 1, a[p], false, "", l, col + 1);
  }

  /**
   * A successful step inside `a` is the same step inside `a + c`, unless the
   * token it reads stops at a `.` (which the next step rejects anyway).
   */
  lemma StepPrefix(a: string, c: string, p: nat, l: nat, col: nat)
    requires p < |a| && Separated(a, c)
    requires !ScanToken(a, p, l, col).Error?
    requires var r := ScanToken(a, p, l, col); r.Emit? && r.next < |a| ==> a[r.next] != '.'
    ensures ScanToken(a + c, p, l, col) == ScanToken(a, p, l, col)
  {
    var ch := a[p];
    if ch == '"' || ch == '\'' {
      ScanTokenBasics(a, p, l, col);
      QuoteStepPrefix(a, c, p, l, col);
    } else if IsDigit(ch) || (ch == '-' && p + 1 < |a| && IsDigit(a[p + 1])) {
      StepAtNumber(a, p, l, col);
      NumberStepPrefix(a, c, p, l, col);
    } else if IsAlpha(ch) {
      WordStepPrefix(a, c, p, l, col);
    } else if IsStructural(ch) || IsBlank(ch) {
      assert (a + c)[p] == ch;
      ScanTokenBasics(a, p, l, col);
      ScanTokenBasics(a + c, p, l, col);
    } else {
      InvalidChar(a, p, l, col);
    }
  }

  /**
   * `whole` is the tokens `ts` of `a` without their end-of-file token, then
   * the scan of `a + c` from the end of `a` in the state that token records.
   */
  predicate Continues(a: string, c: string, ts: seq<Token>, whole: Result<seq<Token>, ParseError>) {
    && |ts| > 0
    && var eof := ts[|ts| - 1];
    whole == Prepend(ts[..|ts| - 1], LexFrom(a + c, |a|, eof.line, eof.column, eof.span.start))
  }

  lemma {:induction false} LexFromPrefix(a: string, c: string, p: nat, l: nat, col: nat, ls: nat)
    requires p <= |a| && Separated(a, c)
    requires LexFrom(a, p, l, col, ls).Success?
    ensures Continues(a, c, LexFrom(a, p, l, col, ls).value, LexFrom(a + c, p, l, col, ls))
    decreases |a| - p
  {
    if p == |a| {
      PrependNone(LexFrom(a + c, p, l, col, ls));
    } else {
      var r := ScanToken(a, p, l, col);
      SuccessfulStep(a, p, l, col, ls);
      StepPrefix(a, c, p, l, col);
      if r.Skip? {
        LexFromPrefix(a, c, p + 1, r.line, r.column, p);
      } else {
        LexFromPrefix(a, c, r.next, r.line, r.column, p);
        EmitContinues(a, c, p, l, col, ls);
      }
    }
  }

  /** One token read the same way in `a` and `a + c` extends a scan that continues into `c`. */
  lemma EmitContinues(a: string, c: string, p: nat, l: nat, col: nat, ls: nat)
    requires p < |a|
    requires var r := ScanToken(a, p, l, col);
      && r.Emit? && ScanToken(a + c, p, l, col) == r
      && LexFrom(a, r.next, r.line, r.column, p).Success?
      && Continues(a, c, LexFrom(a, r.next, r.line, r.column, p).value, LexFrom(a + c, r.next, r.line, r.column, p))
    ensures LexFrom(a, p, l, col, ls).Success?
    ensures Continues(a, c, LexFrom(a, p, l, col, ls).value, LexFrom(a + c, p, l, col, ls))
  {
    var r := ScanToken(a, p, l, col);
    var ts' := LexFrom(a, r.next, r.line, r.column, p).value;
    var eof := ts'[|ts'| - 1];
    PrependTwice(r.token, ts', LexFrom(a + c, |a|, eof.line, eof.column, eof.span.start));
  }

  /** A step of a scan that succeeds is no error, and is not followed by a stray `.`. */
  lemma SuccessfulStep(a: string, p: nat, l: nat, col: nat, ls: nat)
    requires p < |a| && LexFrom(a, p, l, col, ls).Success?
    ensures var r := ScanToken(a, p, l, col);
      && !r.Error?
      && (r.Skip? ==> LexFrom(a, p + 1, r.line, r.column, p).Success?)
      && (r.Emit? ==> LexFrom(a, r.next, r.line, r.column, p).Success?)
      && (r.Emit? && r.next < |a| ==> a[r.next] != '.')
  {
    var r := ScanToken(a, p, l, col);
    if r.Emit? && r.next < |a| && a[r.next] == '.' {
      DotIsError(a, r.next, r.line, r.column);
    }
  }

  lemma PrependNone(r: Result<seq<Token>, ParseError>)
    ensures Prepend([], r) == r
  {
    if r.Success? {
      assert [] + r.value == r.value;
    }
  }

  /** One token in front of the tokens before the end-of-file token. */
  lemma PrependTwice(t: Token, ts: seq<Token>, r: Result<seq<Token>, ParseError>)
    requires |ts| > 0
    ensures var all := [t] + ts;
      Prepend([t], Prepend(ts[..|ts| - 1], r)) == Prepend(all[..|all| - 1], r)
  {
    var all := [t] + ts;
    assert all[..|all| - 1] == [t] + ts[..|ts| - 1];
    if r.Success? {
      assert [t] + (ts[..|ts| - 1] + r.value) == ([t] + ts[..|ts| - 1]) + r.value;
    }
  }

  // ---------------------------------------------------------------------
  // The theorems
  // ---------------------------------------------------------------------

  /**
   * When `a` scans on its own and the seam is a token boundary, `a + c` yields
   * `a`'s tokens (less its end-of-file token) followed by `c`'s tokens, and
   * fails exactly when `c` fails.
   */
  lemma LexConcat(a: string, c: string)
    requires Separated(a, c) && Lex(a).Success?
    ensures var ts := Lex(a).value;
      && |ts| > 0
      && SigResult(Lex(a + c)).Some? == SigResult(Lex(c)).Some?
      && (SigResult(Lex(c)).Some? ==>
            SigResult(Lex(a + c)).value == Signatures(ts[..|ts| - 1]) + SigResult(Lex(c)).value)
  {
    var ts := Lex(a).value;
    LexFromPrefix(a, c, 0, 1, 1, 0);
    var eof := ts[|ts| - 1];
    var rest := LexFrom(a + c, |a|, eof.line, eof.column, eof.span.start);
    assert (a + c)[|a|..] == c[0..];
    LexFromSuffix(a + c, |a|, eof.line, eof.column, eof.span.start, c, 0, 1, 1, 0);
    SigResultPrepend(ts[..|ts| - 1], rest);
  }

  /** A text that starts with a blank scans, as far as signatures go, like the text after it. */
  lemma LeadingBlank(b: char, c: string)
    requires IsBlank(b)
    ensures SigResult(Lex([b] + c)) == SigResult(Lex(c))
  {
    var s := [b] + c;
    var r := ScanToken(s, 0, 1, 1);
    assert r.Skip?;
    assert s[1..] == c[0..];
    LexFromSuffix(s, 1, r.line, r.column, 0, c, 0, 1, 1, 0);
  }

  /**
   * Inserting a blank (space, tab, carriage return or newline) at a token
   * boundary after a text that scans on its own changes neither whether the
   * scan succeeds nor the kinds and lexemes of the tokens.
   */
  lemma BlankInsertion(a: string, b: char, c: string)
    requires IsBlank(b) && Separated(a, c) && Lex(a).Success?
    ensures SigResult(Lex(a + [b] + c)) == SigResult(Lex(a + c))
  {
    assert a + [b] + c == a + ([b] + c);
    LexConcat(a, [b] + c);
    LexConcat(a, c);
    LeadingBlank(b, c);
  }
}
