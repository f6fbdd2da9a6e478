/**
 * Character classes and string helpers shared by the model: the ASCII
 * classes the Rust code tests with `is_ascii_digit` and friends, ASCII case
 * folding, substring search, `trim`, `str::replace`, and decimal rendering
 * of naturals (Rust's `Display` for unsigned integers).
 */
module Strings {
  import opened Wrappers

  predicate IsDigit(c: char) { '0' <= c <= '9' }
  predicate IsAsciiLower(c: char) { 'a' <= c <= 'z' }
  predicate IsAsciiUpper(c: char) { 'A' <= c <= 'Z' }
  predicate IsAlpha(c: char) { IsAsciiLower(c) || IsAsciiUpper(c) }
  predicate IsAlphaNumeric(c: char) { IsDigit(c) || IsAlpha(c) }

  /** `char::to_ascii_lowercase`: only `A`..`Z` change. */
  function ToAsciiLower(c: char): (r: char)
    ensures IsAsciiUpper(c) ==> IsAsciiLower(r) && r as int == c as int + 32
    ensures !IsAsciiUpper(c) ==> r == c
  {
    if IsAsciiUpper(c) then (c as int + 32) as char else c
  }

  /** `char::to_ascii_uppercase`: only `a`..`z` change. */
  function ToAsciiUpper(c: char): (r: char)
    ensures IsAsciiLower(c) ==> IsAsciiUpper(r) && r as int == c as int - 32
    ensures !IsAsciiLower(c) ==> r == c
  {
    if IsAsciiLower(c) then (c as int - 32) as char else c
  }

  /** `str::eq_ignore_ascii_case`. */
  predicate EqIgnoreAsciiCase(a: string, b: string) {
    |a| == |b| && forall i :: 0 <= i < |a| ==> ToAsciiLower(a[i]) == ToAsciiLower(b[i])
  }

  lemma EqIgnoreAsciiCaseReflexive(a: string)
    ensures EqIgnoreAsciiCase(a, a)
  {
  }

  lemma EqIgnoreAsciiCaseSymmetric(a: string, b: string)
    requires EqIgnoreAsciiCase(a, b)
    ensures EqIgnoreAsciiCase(b, a)
  {
  }

  /** `str::contains` with a string pattern: `sub` occurs somewhere in `s`. */
  predicate Contains(s: string, sub: string) {
    exists i :: 0 <= i <= |s| && OccursAt(s, sub, i)
  }

  /** `sub` occurs in `s` starting at index `i`. */
  predicate OccursAt(s: string, sub: string, i: nat) {
    i + |sub| <= |s| && s[i..i + |sub|] == sub
  }

  predicate IsPrefix(p: string, s: string) {
    |p| <= |s| && s[..|p|] == p
  }

  /** `str::find(c)`: the index of the first occurrence of `c`. */
  function IndexOf(s: string, c: char): (r: Option<nat>)
    ensures r.Some? ==> r.value < |s| && s[r.value] == c && c !in s[..r.value]
    ensures r.None? <==> c !in s
  {
    if |s| == 0 then None
    else if s[0] == c then Some(0)
    else
      match IndexOf(s[1..], c)
      case None => None
      case Some(i) =>
        assert s[1..][..i] == s[1..i + 1];
        Some(i + 1)
  }

  /** The first occurrence of `c` is at `i` when `s[i]` is `c` and none comes before. */
  lemma IndexOfFirst(s: string, c: char, i: nat)
    requires i < |s| && s[i] == c && c !in s[..i]
    ensures IndexOf(s, c) == Some(i)
  {
  }

  /** Rust's `char::is_whitespace`: the Unicode White_Space property. */
  predicate IsWhitespace(c: char) {
    ('\U{0009}' <= c <= '\U{000D}') || c == ' ' || c == '\U{0085}' || c == '\U{00A0}' ||
    c == '\U{1680}' || ('\U{2000}' <= c <= '\U{200A}') || c == '\U{2028}' || c == '\U{2029}' ||
    c == '\U{202F}' || c == '\U{205F}' || c == '\U{3000}'
  }

  /** `t` is `s` with some white space cut from its front. */
  predicate CutsLeading(s: string, t: string) {
    |t| <= |s| && t == s[|s| - |t|..] && forall k :: 0 <= k < |s| - |t| ==> IsWhitespace(s[k])
  }

  /** `u` is `t` with some white space cut from its back. */
  predicate CutsTrailing(t: string, u: string) {
    |u| <= |t| && u == t[..|u|] && forall k :: |u| <= k < |t| ==> IsWhitespace(t[k])
  }

  function TrimStart(s: string): (r: string)
    ensures CutsLeading(s, r)
    ensures |r| > 0 ==> !IsWhitespace(r[0])
  {
    if |s| > 0 && IsWhitespace(s[0]) then TrimStart(s[1..]) else s
  }

  function TrimEnd(s: string): (r: string)
    ensures CutsTrailing(s, r)
    ensures |r| > 0 ==> !IsWhitespace(r[|r| - 1])
  {
    if |s| > 0 && IsWhitespace(s[|s| - 1]) then TrimEnd(s[..|s| - 1]) else s
  }

  /** `s[i..j]` is `s` with white space only cut from its front and its back. */
  predicate CutsWhitespace(s: string, i: nat, j: nat) {
    && i <= j <= |s|
    && (forall k :: 0 <= k < i ==> IsWhitespace(s[k]))
    && (forall k :: j <= k < |s| ==> IsWhitespace(s[k]))
  }

  /** `str::trim`: leading and trailing white space removed. */
  function Trim(s: string): (r: string)
    ensures exists i: nat, j: nat :: CutsWhitespace(s, i, j) && r == s[i..j]
    ensures |r| > 0 ==> !IsWhitespace(r[0]) && !IsWhitespace(r[|r| - 1])
  {
    var t := TrimStart(s);
    var u := TrimEnd(t);
    TrimCuts(s, t, u);
    assert CutsWhitespace(s, |s| - |t|, |s| - |t| + |u|);
    u
  }

  lemma TrimCuts(s: string, t: string, u: string)
    requires t == TrimStart(s) && u == TrimEnd(t)
    ensures CutsWhitespace(s, |s| - |t|, |s| - |t| + |u|) && u == s[|s| - |t|..|s| - |t| + |u|]
  {
    CutTwice(s, t, u);
  }

  lemma CutTwice(s: string, t: string, u: string)
    requires CutsLeading(s, t) && CutsTrailing(t, u)
    ensures CutsWhitespace(s, |s| - |t|, |s| - |t| + |u|) && u == s[|s| - |t|..|s| - |t| + |u|]
  {
    var i, j := |s| - |t|, |s| - |t| + |u|;
    assert s[i..][..|u|] == s[i..j];
    forall k | j <= k < |s| ensures IsWhitespace(s[k]) {
      assert s[k] == t[k - i];
    }
  }


  /** Text that neither starts nor ends with white space is its own trim. */
  lemma TrimTrimmed(t: string)
    requires |t| > 0 ==> !IsWhitespace(t[0]) && !IsWhitespace(t[|t| - 1])
    ensures Trim(t) == t
  {
    assert TrimStart(t) == t;
  }

  /** Trimming adds no char. */
  lemma TrimKeepsOut(s: string, c: char)
    requires c !in s
    ensures c !in Trim(s)
  {
    var t := TrimStart(s);
    assert c !in t;
  }

  /** `str::replace(p, v)`: every non-overlapping occurrence of `p`, found left to right, becomes `v`. */
  function Replace(s: string, p: string, v: string): (r: string)
    requires |p| > 0
    ensures !Contains(s, p) ==> r == s
    decreases |s|
  {
    if |s| < |p| then s
    else if s[..|p|] == p then
      assert OccursAt(s, p, 0);
      v + Replace(s[|p|..], p, v)
    else
      var rest := Replace(s[1..], p, v);
      assert !Contains(s, p) ==> !Contains(s[1..], p) by {
        if Contains(s[1..], p) {
          var i :| 0 <= i <= |s[1..]| && OccursAt(s[1..], p, i);
          assert s[i + 1..i + 1 + |p|] == p;
          assert OccursAt(s, p, i + 1);
        }
      }
      [s[0]] + rest
  }

  /** `str::replace` brings in no char that is neither in the text nor in the replacement. */
  lemma {:induction false} ReplaceChars(s: string, p: string, v: string)
    requires |p| > 0
    ensures forall c :: c in Replace(s, p, v) ==> c in s || c in v
    decreases |s|
  {
    if |s| >= |p| {
      if s[..|p|] == p {
        ReplaceChars(s[|p|..], p, v);
        assert forall c :: c in s[|p|..] ==> c in s;
      } else {
        ReplaceChars(s[1..], p, v);
        assert forall c :: c in s[1..] ==> c in s;
      }
    }
  }


  /** Decimal digits of `n`, as Rust's `Display` for unsigned integers writes them. */
  function NatToString(n: nat): (r: string)
    ensures |r| > 0 && forall i :: 0 <= i < |r| ==> IsDigit(r[i])
    decreases n
  {
    if n < 10 then [('0' as int + n) as char]
    else NatToString(n / 10) + [('0' as int + n % 10) as char]
  }

  predicate AllDigits(s: string) {
    forall i :: 0 <= i < |s| ==> IsDigit(s[i])
  }

  /** The value of a run of decimal digits, leading zeros allowed. */
  function DigitsValue(s: string): nat
    requires AllDigits(s)
  {
    if |s| == 0 then 0 else DigitsValue(s[..|s| - 1]) * 10 + (s[|s| - 1] as int - '0' as int)
  }

  lemma {:induction false} NatToStringValue(n: nat)
    ensures DigitsValue(NatToString(n)) == n
    decreases n
  {
    if n >= 10 {
      var r := NatToString(n);
      NatToStringValue(n / 10);
      assert r[..|r| - 1] == NatToString(n / 10);
    }
  }

  function CountChar(s: string, c: char): nat {
    if |s| == 0 then 0 else (if s[0] == c then 1 else 0) + CountChar(s[1..], c)
  }

  lemma {:induction false} CountCharConcat(a: string, b: string, c: char)
    ensures CountChar(a + b, c) == CountChar(a, c) + CountChar(b, c)
  {
    if |a| > 0 {
      assert (a + b)[1..] == a[1..] + b;
      assert (a + b)[0] == a[0];
      CountCharConcat(a[1..], b, c);
    } else {
      assert a + b == b;
    }
  }

  lemma {:induction false} CountCharAbsent(s: string, c: char)
    requires c !in s
    ensures CountChar(s, c) == 0
  {
    if |s| > 0 {
      CountCharAbsent(s[1..], c);
    }
  }

  /** `order` lists each of `keys` exactly once: the iteration order of a map with those keys. */
  predicate Enumerates(order: seq<string>, keys: set<string>) {
    && (forall i, j :: 0 <= i < j < |order| ==> order[i] != order[j])
    && (forall k :: k in keys ==> k in order)
    && (forall i :: 0 <= i < |order| ==> order[i] in keys)
  }

  lemma {:induction false} DistinctCount(order: seq<string>)
    requires forall i, j :: 0 <= i < j < |order| ==> order[i] != order[j]
    ensures |set k | k in order| == |order|
    decreases |order|
  {
    if |order| > 0 {
      var init := order[..|order| - 1];
      DistinctCount(init);
      assert (set k | k in order) == (set k | k in init) + {order[|order| - 1]};
      assert order[|order| - 1] !in init;
    }
  }

  /** A map has as many keys as any enumeration of them has entries. */
  lemma EnumeratesCount(order: seq<string>, keys: set<string>)
    requires Enumerates(order, keys)
    ensures |order| == |keys|
  {
    DistinctCount(order);
    assert (set k | k in order) == keys;
  }

  /**
   * `str::to_uppercase` as a comparison with an ASCII word sees it. `a`..`z`
   * and the non-ASCII chars whose upper case is all ASCII (dotless i, long s,
   * sharp s and the Latin ligatures) are mapped as Unicode maps them; any other
   * char is kept as it is. A kept non-ASCII char stays non-ASCII, as its true
   * upper case does, so equality with an all-ASCII word is decided alike.
   */
  function UpperChar(c: char): (r: string)
    ensures 1 <= |r| <= 3
  {
    if IsAsciiLower(c) then [ToAsciiUpper(c)]
    else if c == '\U{0131}' then "I"
    else if c == '\U{017F}' then "S"
    else if c == '\U{00DF}' then "SS"
    else if c == '\U{FB00}' then "FF"
    else if c == '\U{FB01}' then "FI"
    else if c == '\U{FB02}' then "FL"
    else if c == '\U{FB03}' then "FFI"
    else if c == '\U{FB04}' then "FFL"
    else if c == '\U{FB05}' || c == '\U{FB06}' then "ST"
    else [c]
  }

  function UpperCase(s: string): string {
    if |s| == 0 then "" else UpperChar(s[0]) + UpperCase(s[1..])
  }

  /**
   * `str::to_lowercase` as a search for an ASCII pattern sees it. `A`..`Z`,
   * the Kelvin sign and capital I with dot above (the non-ASCII chars whose
   * lower case holds an ASCII char) are mapped as Unicode maps them; any other
   * char is kept, non-ASCII as its true lower case is, so an ASCII pattern
   * occurs in the result exactly when it occurs in the true lower case.
   */
  function LowerChar(c: char): (r: string)
    ensures 1 <= |r| <= 2
  {
    if IsAsciiUpper(c) then [ToAsciiLower(c)]
    else if c == '\U{212A}' then "k"
    else if c == '\U{0130}' then "i\U{0307}"
    else [c]
  }

  function LowerCase(s: string): string {
    if |s| == 0 then "" else LowerChar(s[0]) + LowerCase(s[1..])
  }

  /** A substring of a substring is a substring. */
  lemma ContainsTransitive(a: string, b: string, c: string)
    requires Contains(a, b) && Contains(b, c)
    ensures Contains(a, c)
  {
    var i :| 0 <= i <= |a| && OccursAt(a, b, i);
    var j :| 0 <= j <= |b| && OccursAt(b, c, j);
    assert forall k :: 0 <= k < |c| ==> c[k] == b[j + k] == a[i + j + k];
    assert a[i + j..i + j + |c|] == c;
    assert OccursAt(a, c, i + j);
  }

  /** A char of `sub` that `s` lacks rules out any occurrence. */
  lemma NotContainsMissing(s: string, sub: string, q: nat)
    requires q < |sub| && sub[q] !in s
    ensures !Contains(s, sub)
  {
  }

  /**
   * When `s` holds the char `sub[q]` only at `p`, an occurrence of `sub` must
   * start at `p - q`; a mismatch at offset `k` there rules it out.
   */
  lemma NotContainsAligned(s: string, sub: string, p: nat, q: nat, k: nat)
    requires p < |s| && q < |sub| && s[p] == sub[q]
    requires forall j :: 0 <= j < |s| && j != p ==> s[j] != sub[q]
    requires k < |sub|
    requires p < q || p - q + |sub| > |s| || s[p - q + k] != sub[k]
    ensures !Contains(s, sub)
  {
  }

  /** A char that `to_lowercase` leaves alone. */
  predicate LowerFixed(c: char) {
    !IsAsciiUpper(c) && c != '\U{212A}' && c != '\U{0130}'
  }

  lemma {:induction false} LowerCaseFixed(s: string)
    requires forall i :: 0 <= i < |s| ==> LowerFixed(s[i])
    ensures LowerCase(s) == s
  {
    if |s| > 0 {
      LowerCaseFixed(s[1..]);
      assert [s[0]] + s[1..] == s;
    }
  }

  /** Texts equal up to ASCII case lower-case alike. */
  lemma {:induction false} LowerCaseIgnoresAsciiCase(a: string, b: string)
    requires EqIgnoreAsciiCase(a, b)
    ensures LowerCase(a) == LowerCase(b)
  {
    if |a| > 0 {
      assert ToAsciiLower(a[0]) == ToAsciiLower(b[0]);
      assert LowerChar(a[0]) == LowerChar(b[0]);
      LowerCaseIgnoresAsciiCase(a[1..], b[1..]);
    }
  }

  /** Upper-case ASCII text is its own upper case. */
  lemma {:induction false} UpperCaseFixed(s: string)
    requires forall i :: 0 <= i < |s| ==> IsAsciiUpper(s[i])
    ensures UpperCase(s) == s
  {
    if |s| > 0 {
      UpperCaseFixed(s[1..]);
      assert [s[0]] + s[1..] == s;
    }
  }

  /** Texts equal up to ASCII case upper-case alike. */
  lemma {:induction false} UpperCaseIgnoresAsciiCase(a: string, b: string)
    requires EqIgnoreAsciiCase(a, b)
    ensures UpperCase(a) == UpperCase(b)
  {
    if |a| > 0 {
      assert ToAsciiLower(a[0]) == ToAsciiLower(b[0]);
      assert UpperChar(a[0]) == UpperChar(b[0]);
      UpperCaseIgnoresAsciiCase(a[1..], b[1..]);
    }
  }

  /** `parts.join(sep)`: the parts in order, `sep` between neighbours. */
  function Join(parts: seq<string>, sep: string): string {
    if |parts| == 0 then ""
    else if |parts| == 1 then parts[0]
    else Join(parts[..|parts| - 1], sep) + sep + parts[|parts| - 1]
  }

  /** `str::rfind(c)`: the index of the last occurrence of `c`. */
  function LastIndexOf(s: string, c: char): (r: Option<nat>)
    ensures r.None? <==> c !in s
    ensures r.Some? ==> r.value < |s| && s[r.value] == c && c !in s[r.value + 1..]
  {
    if |s| == 0 then None
    else if s[|s| - 1] == c then Some(|s| - 1)
    else
      var r := LastIndexOf(s[..|s| - 1], c);
      assert s == s[..|s| - 1] + [s[|s| - 1]];
      if r.Some? then
        assert s[r.value + 1..] == s[..|s| - 1][r.value + 1..] + [s[|s| - 1]];
        r
      else r
  }

  /** `str::split(c)`: the pieces between the occurrences of `c`, always at least one. */
  function SplitOn(s: string, c: char): (r: seq<string>)
    ensures |r| > 0
    decreases |s|
  {
    match LastIndexOf(s, c)
    case None => [s]
    case Some(i) => SplitOn(s[..i], c) + [s[i + 1..]]
  }

  /** Splitting undoes joining, when no part holds the separator. */
  lemma {:induction false} SplitJoin(parts: seq<string>, c: char)
    requires forall i :: 0 <= i < |parts| ==> c !in parts[i]
    ensures |parts| > 0 ==> SplitOn(Join(parts, [c]), c) == parts
  {
    if |parts| == 1 {
      assert SplitOn(parts[0], c) == [parts[0]];
    } else if |parts| > 1 {
      var init, last := parts[..|parts| - 1], parts[|parts| - 1];
      SplitJoin(init, c);
      var j := Join(init, [c]);
      var s := j + [c] + last;
      assert Join(parts, [c]) == s;
      LastAfterJoin(j, c, last);
      assert s[..|j|] == j && s[|j| + 1..] == last;
      assert init + [last] == parts;
    }
  }

  /** The separator put in front of a piece without it is the last occurrence. */
  lemma LastAfterJoin(j: string, c: char, last: string)
    requires c !in last
    ensures LastIndexOf(j + [c] + last, c) == Some(|j|)
  {
    var s := j + [c] + last;
    assert s[|j|] == c;
  }

  /** Joining parts that lack `c` with the one-char separator `c` puts `|parts| - 1` of them in. */
  lemma {:induction false} JoinCount(parts: seq<string>, c: char)
    requires forall i :: 0 <= i < |parts| ==> c !in parts[i]
    ensures CountChar(Join(parts, [c]), c) == if |parts| == 0 then 0 else |parts| - 1
  {
    if |parts| == 1 {
      CountCharAbsent(parts[0], c);
    } else if |parts| > 1 {
      var init := parts[..|parts| - 1];
      JoinCount(init, c);
      CountCharConcat(Join(init, [c]), [c], c);
      CountCharConcat(Join(init, [c]) + [c], parts[|parts| - 1], c);
      CountCharAbsent(parts[|parts| - 1], c);
      assert CountChar([c], c) == 1;
    }
  }

  /** Where `p` does not start at the first char, `Replace` keeps that char and carries on after it. */
  lemma ReplaceNoMatchHere(c: char, rest: string, p: string, v: string)
    requires |p| > 0
    requires !IsPrefix(p, [c] + rest)
    ensures Replace([c] + rest, p, v) == [c] + Replace(rest, p, v)
  {
    assert ([c] + rest)[1..] == rest;
  }

  /** A stretch without the first char of `p` passes through `Replace` untouched. */
  lemma {:induction false} ReplaceSkip(w: string, rest: string, p: string, v: string)
    requires |p| > 0 && p[0] !in w
    ensures Replace(w + rest, p, v) == w + Replace(rest, p, v)
  {
    if |w| > 0 {
      assert w + rest == [w[0]] + (w[1..] + rest);
      ReplaceNoMatchHere(w[0], w[1..] + rest, p, v);
      ReplaceSkip(w[1..], rest, p, v);
      ConsAppend(w, Replace(rest, p, v));
    } else {
      assert w + rest == rest;
    }
  }

  /** An occurrence of `p` at the front is replaced, and the scan goes on after it. */
  lemma ReplaceHere(rest: string, p: string, v: string)
    requires |p| > 0
    ensures Replace(p + rest, p, v) == v + Replace(rest, p, v)
  {
    assert (p + rest)[..|p|] == p && (p + rest)[|p|..] == rest;
  }

  lemma ConsAppend(w: string, x: string)
    requires |w| > 0
    ensures [w[0]] + (w[1..] + x) == w + x
  {
  }
}
