/**
 * A reference grammar for what the tree builder (`json.rs`) accepts, kept
 * apart from the parser: a text as written (`Syntax`, with members in order
 * and repeated keys kept), the tokens it is written as (`Render`), and the
 * tree it stands for (`Meaning`, where a later member overwrites an earlier
 * one with the same key). The parser is proved to accept exactly the
 * rendered texts and to return their meaning.
 */
module JsonGrammar {
  import opened Wrappers
  import opened Tokens
  import opened JsonSpec

  /** A number as written: a lexeme `f64::from_str` accepts. */
  type FloatText = s: string | FloatSyntax(s) witness "0"

  datatype Syntax =
    | NullLiteral
    | BoolLiteral(b: bool)
    | NumberLiteral(lexeme: FloatText)
    | StringLiteral(text: string)
    | ArrayLiteral(items: seq<Syntax>)
    | ObjectLiteral(members: seq<Member>)

  datatype Member = Member(key: string, value: Syntax)

  const OpenBrace := Signature(LeftBrace, "{")
  const CloseBrace := Signature(RightBrace, "}")
  const OpenBracket := Signature(LeftBracket, "[")
  const CloseBracket := Signature(RightBracket, "]")
  const Separator := Signature(Comma, ",")
  const KeyMark := Signature(Colon, ":")

  /** The tokens a text is written as. */
  function Render(x: Syntax): (r: seq<Signature>)
    ensures |r| > 0
    decreases x, 0
  {
    match x
    case NullLiteral => [Signature(TokenKind.Null, "null")]
    case BoolLiteral(b) => [Signature(TokenKind.Boolean, if b then "true" else "false")]
    case NumberLiteral(l) => [Signature(TokenKind.Number, l)]
    case StringLiteral(t) => [Signature(TokenKind.String, t)]
    case ArrayLiteral(items) =>
      if |items| == 0 then [OpenBracket, CloseBracket] else [OpenBracket] + (RenderItems(items) + [CloseBracket])
    case ObjectLiteral(ms) =>
      if |ms| == 0 then [OpenBrace, CloseBrace] else [OpenBrace] + (RenderMembers(ms) + [CloseBrace])
  }

  /** Elements separated by commas. */
  function RenderItems(items: seq<Syntax>): (r: seq<Signature>)
    requires |items| > 0
    ensures |r| > 0
    decreases items, 1
  {
    if |items| == 1 then Render(items[0]) else Render(items[0]) + ([Separator] + RenderItems(items[1..]))
  }

  /** `key : value` members separated by commas. */
  function RenderMembers(ms: seq<Member>): (r: seq<Signature>)
    requires |ms| > 0
    ensures |r| > 0
    decreases ms, 2
  {
    if |ms| == 1 then RenderMember(ms[0]) else RenderMember(ms[0]) + ([Separator] + RenderMembers(ms[1..]))
  }

  /** One member: the key as a string token, a colon, the value. */
  function RenderMember(m: Member): (r: seq<Signature>)
    ensures |r| == 2 + |Render(m.value)|
    decreases m, 1
  {
    [Signature(TokenKind.String, m.key), KeyMark] + Render(m.value)
  }

  /** The tree a text stands for. */
  function Meaning(x: Syntax): JsonElement
    decreases x, 0
  {
    match x
    case NullLiteral => JsonElement.Null
    case BoolLiteral(b) => JsonElement.Boolean(b)
    case NumberLiteral(l) => JsonElement.Number(l)
    case StringLiteral(t) => JsonElement.String(t)
    case ArrayLiteral(items) => Array(Meanings(items))
    case ObjectLiteral(ms) => Object(Collect(map[], ms))
  }

  function Meanings(items: seq<Syntax>): (r: seq<JsonElement>)
    ensures |r| == |items|
    decreases items, 1
  {
    if |items| == 0 then [] else [Meaning(items[0])] + Meanings(items[1..])
  }

  /** Put the members into `acc` in order, a later one overwriting an earlier one with the same key. */
  function Collect(acc: map<string, JsonElement>, ms: seq<Member>): map<string, JsonElement>
    decreases ms, 1
  {
    if |ms| == 0 then acc else Collect(acc[ms[0].key := Meaning(ms[0].value)], ms[1..])
  }

  // ---------------------------------------------------------------------
  // What the meaning of a text is, independently of the recursion
  // ---------------------------------------------------------------------

  /** Elements keep their order. */
  lemma {:induction false} MeaningsInOrder(items: seq<Syntax>)
    ensures forall i :: 0 <= i < |items| ==> Meanings(items)[i] == Meaning(items[i])
  {
    if |items| > 0 {
      MeaningsInOrder(items[1..]);
      assert forall i :: 1 <= i < |items| ==> items[1..][i - 1] == items[i];
    }
  }

  /** An object has exactly one entry per distinct key. */
  lemma {:induction false} CollectKeys(acc: map<string, JsonElement>, ms: seq<Member>)
    ensures Collect(acc, ms).Keys == acc.Keys + set m | m in ms :: m.key
    decreases ms
  {
    if |ms| > 0 {
      CollectKeys(acc[ms[0].key := Meaning(ms[0].value)], ms[1..]);
      assert ms == [ms[0]] + ms[1..];
      assert (set m | m in ms :: m.key) == {ms[0].key} + set m | m in ms[1..] :: m.key;
    }
  }

  /** For each key, the last member that carries it decides its value. */
  lemma {:induction false} CollectLastWins(acc: map<string, JsonElement>, ms: seq<Member>, i: nat)
    requires i < |ms|
    requires forall j :: i < j < |ms| ==> ms[j].key != ms[i].key
    ensures ms[i].key in Collect(acc, ms) && Collect(acc, ms)[ms[i].key] == Meaning(ms[i].value)
    decreases ms
  {
    var acc' := acc[ms[0].key := Meaning(ms[0].value)];
    if i == 0 {
      CollectKeeps(acc', ms[1..], ms[0].key);
    } else {
      CollectLastWins(acc', ms[1..], i - 1);
    }
  }

  /** A key no member carries keeps the value it had in `acc`. */
  lemma {:induction false} CollectKeeps(acc: map<string, JsonElement>, ms: seq<Member>, k: string)
    requires k in acc
    requires forall j :: 0 <= j < |ms| ==> ms[j].key != k
    ensures k in Collect(acc, ms) && Collect(acc, ms)[k] == acc[k]
    decreases ms
  {
    if |ms| > 0 {
      CollectKeeps(acc[ms[0].key := Meaning(ms[0].value)], ms[1..], k);
    }
  }

  // ---------------------------------------------------------------------
  // A token list holding given tokens at a position
  // ---------------------------------------------------------------------

  /** `sigs` holds `w` from `pos` on. */
  predicate HoldsAt(sigs: seq<Signature>, pos: nat, w: seq<Signature>) {
    && pos + |w| <= |sigs|
    && forall i :: 0 <= i < |w| ==> sigs[pos + i] == w[i]
  }

  /** Holding `a + b` is holding `a`, then `b` right after it. */
  lemma HoldsAtJoin(sigs: seq<Signature>, pos: nat, a: seq<Signature>, b: seq<Signature>)
    ensures HoldsAt(sigs, pos, a + b) <==> HoldsAt(sigs, pos, a) && HoldsAt(sigs, pos + |a|, b)
  {
    if HoldsAt(sigs, pos, a) && HoldsAt(sigs, pos + |a|, b) {
      forall i | 0 <= i < |a + b| ensures sigs[pos + i] == (a + b)[i] {
        if i >= |a| {
          assert sigs[pos + |a| + (i - |a|)] == b[i - |a|];
        }
      }
    }
    if HoldsAt(sigs, pos, a + b) {
      forall i | 0 <= i < |a| ensures sigs[pos + i] == a[i] {
        assert sigs[pos + i] == (a + b)[i];
      }
      forall i | 0 <= i < |b| ensures sigs[pos + |a| + i] == b[i] {
        assert sigs[pos + (|a| + i)] == (a + b)[|a| + i];
      }
    }
  }

  lemma HoldsAtSingle(sigs: seq<Signature>, pos: nat, t: Signature)
    ensures HoldsAt(sigs, pos, [t]) <==> At(sigs, pos, t)
  {
    if At(sigs, pos, t) {
      assert forall i :: 0 <= i < 1 ==> sigs[pos + i] == [t][i];
    } else if pos < |sigs| {
      assert sigs[pos + 0] != [t][0];
    }
  }

  /** Two tokens in a row. */
  lemma HoldsAtPair(sigs: seq<Signature>, pos: nat, x: Signature, y: Signature)
    ensures HoldsAt(sigs, pos, [x, y]) <==> At(sigs, pos, x) && At(sigs, pos + 1, y)
  {
    assert [x, y] == [x] + [y];
    HoldsAtJoin(sigs, pos, [x], [y]);
    HoldsAtSingle(sigs, pos, x);
    HoldsAtSingle(sigs, pos + 1, y);
  }

  /** An opening token, a body, a closing token. */
  lemma HoldsAtBracketed(sigs: seq<Signature>, pos: nat, open: Signature, body: seq<Signature>, close: Signature)
    ensures HoldsAt(sigs, pos, [open] + (body + [close])) <==>
      At(sigs, pos, open) && HoldsAt(sigs, pos + 1, body) && At(sigs, pos + 1 + |body|, close)
  {
    HoldsAtJoin(sigs, pos, [open], body + [close]);
    assert HoldsAt(sigs, pos, [open] + (body + [close])) <==> HoldsAt(sigs, pos, [open]) && HoldsAt(sigs, pos + 1, body + [close]);
    HoldsAtJoin(sigs, pos + 1, body, [close]);
    assert HoldsAt(sigs, pos + 1, body + [close]) <==> HoldsAt(sigs, pos + 1, body) && HoldsAt(sigs, pos + 1 + |body|, [close]);
    HoldsAtSingle(sigs, pos, open);
    assert HoldsAt(sigs, pos, [open]) <==> At(sigs, pos, open);
    HoldsAtSingle(sigs, pos + 1 + |body|, close);
    assert HoldsAt(sigs, pos + 1 + |body|, [close]) <==> At(sigs, pos + 1 + |body|, close);
  }

  // ---------------------------------------------------------------------
  // Where a text lies in a token list
  // ---------------------------------------------------------------------

  /** How many tokens a text is written with. */
  function Size(x: Syntax): (n: nat)
    ensures n > 0
    decreases x, 0
  {
    match x
    case ArrayLiteral(items) => if |items| == 0 then 2 else SizeItems(items) + 2
    case ObjectLiteral(ms) => if |ms| == 0 then 2 else SizeMembers(ms) + 2
    case _ => 1
  }

  function SizeItems(items: seq<Syntax>): (n: nat)
    requires |items| > 0
    ensures n >= Size(items[0])
    decreases items, 1
  {
    if |items| == 1 then Size(items[0]) else Size(items[0]) + 1 + SizeItems(items[1..])
  }

  function SizeMembers(ms: seq<Member>): (n: nat)
    requires |ms| > 0
    ensures n >= Size(ms[0].value) + 2
    decreases ms, 1
  {
    if |ms| == 1 then Size(ms[0].value) + 2 else Size(ms[0].value) + 3 + SizeMembers(ms[1..])
  }

  /** The token at `pos` is `t`. */
  predicate At(sigs: seq<Signature>, pos: nat, t: Signature) {
    pos < |sigs| && sigs[pos] == t
  }

  /** The tokens of `x` lie in `sigs` from `pos` on, read token by token along the syntax. */
  predicate Laid(sigs: seq<Signature>, pos: nat, x: Syntax)
    decreases x, 0
  {
    match x
    case ArrayLiteral(items) =>
      && At(sigs, pos, OpenBracket)
      && if |items| == 0 then At(sigs, pos + 1, CloseBracket)
         else LaidItems(sigs, pos + 1, items) && At(sigs, pos + 1 + SizeItems(items), CloseBracket)
    case ObjectLiteral(ms) =>
      && At(sigs, pos, OpenBrace)
      && if |ms| == 0 then At(sigs, pos + 1, CloseBrace)
         else LaidMembers(sigs, pos + 1, ms) && At(sigs, pos + 1 + SizeMembers(ms), CloseBrace)
    case _ => At(sigs, pos, Render(x)[0])
  }

  predicate LaidItems(sigs: seq<Signature>, pos: nat, items: seq<Syntax>)
    requires |items| > 0
    decreases items, 1
  {
    && Laid(sigs, pos, items[0])
    && (|items| == 1 ||
        (At(sigs, pos + Size(items[0]), Separator) && LaidItems(sigs, pos + Size(items[0]) + 1, items[1..])))
  }

  predicate LaidMembers(sigs: seq<Signature>, pos: nat, ms: seq<Member>)
    requires |ms| > 0
    decreases ms, 1
  {
    && At(sigs, pos, Signature(TokenKind.String, ms[0].key))
    && At(sigs, pos + 1, KeyMark)
    && Laid(sigs, pos + 2, ms[0].value)
    && (|ms| == 1 ||
        (At(sigs, pos + Size(ms[0].value) + 2, Separator) && LaidMembers(sigs, pos + Size(ms[0].value) + 3, ms[1..])))
  }

  /** `Size` counts the rendered tokens. */
  lemma {:induction false} RenderSize(x: Syntax)
    ensures |Render(x)| == Size(x)
    decreases x, 0
  {
    match x
    case ArrayLiteral(items) => if |items| > 0 { RenderItemsSize(items); }
    case ObjectLiteral(ms) => if |ms| > 0 { RenderMembersSize(ms); }
    case _ =>
  }

  lemma {:induction false} RenderItemsSize(items: seq<Syntax>)
    requires |items| > 0
    ensures |RenderItems(items)| == SizeItems(items)
    decreases items, 1
  {
    RenderSize(items[0]);
    if |items| > 1 {
      RenderItemsSize(items[1..]);
    }
  }

  lemma {:induction false} RenderMembersSize(ms: seq<Member>)
    requires |ms| > 0
    ensures |RenderMembers(ms)| == SizeMembers(ms)
    decreases ms, 1
  {
    RenderSize(ms[0].value);
    if |ms| > 1 {
      RenderMembersSize(ms[1..]);
    }
  }

  /** A text lies in a token list exactly where its rendering does. */
  lemma {:induction false} LaidIsRendered(sigs: seq<Signature>, pos: nat, x: Syntax)
    ensures HoldsAt(sigs, pos, Render(x)) <==> Laid(sigs, pos, x)
    decreases x, 1
  {
    match x
    case ArrayLiteral(items) => LaidArrayIsRendered(sigs, pos, items);
    case ObjectLiteral(ms) => LaidObjectIsRendered(sigs, pos, ms);
    case _ => HoldsAtSingle(sigs, pos, Render(x)[0]);
  }

  lemma {:induction false} LaidArrayIsRendered(sigs: seq<Signature>, pos: nat, items: seq<Syntax>)
    ensures HoldsAt(sigs, pos, Render(ArrayLiteral(items))) <==> Laid(sigs, pos, ArrayLiteral(items))
    decreases items, 3
  {
    if |items| == 0 {
      HoldsAtPair(sigs, pos, OpenBracket, CloseBracket);
    } else {
      RenderItemsSize(items);
      LaidItemsIsRendered(sigs, pos + 1, items);
      HoldsAtBracketed(sigs, pos, OpenBracket, RenderItems(items), CloseBracket);
    }
  }

  lemma {:induction false} LaidObjectIsRendered(sigs: seq<Signature>, pos: nat, ms: seq<Member>)
    ensures HoldsAt(sigs, pos, Render(ObjectLiteral(ms))) <==> Laid(sigs, pos, ObjectLiteral(ms))
    decreases ms, 3
  {
    if |ms| == 0 {
      HoldsAtPair(sigs, pos, OpenBrace, CloseBrace);
    } else {
      RenderMembersSize(ms);
      LaidMembersIsRendered(sigs, pos + 1, ms);
      HoldsAtBracketed(sigs, pos, OpenBrace, RenderMembers(ms), CloseBrace);
    }
  }

  lemma {:induction false} LaidItemsIsRendered(sigs: seq<Signature>, pos: nat, items: seq<Syntax>)
    requires |items| > 0
    ensures HoldsAt(sigs, pos, RenderItems(items)) <==> LaidItems(sigs, pos, items)
    decreases items, 2
  {
    RenderSize(items[0]);
    LaidIsRendered(sigs, pos, items[0]);
    if |items| > 1 {
      var n := pos + Size(items[0]);
      LaidItemsIsRendered(sigs, n + 1, items[1..]);
      HoldsAtJoin(sigs, pos, Render(items[0]), [Separator] + RenderItems(items[1..]));
      HoldsAtJoin(sigs, n, [Separator], RenderItems(items[1..]));
      HoldsAtSingle(sigs, n, Separator);
    }
  }

  lemma {:induction false} LaidMembersIsRendered(sigs: seq<Signature>, pos: nat, ms: seq<Member>)
    requires |ms| > 0
    ensures HoldsAt(sigs, pos, RenderMembers(ms)) <==> LaidMembers(sigs, pos, ms)
    decreases ms, 2
  {
    LaidMemberIsRendered(sigs, pos, ms[0]);
    if |ms| > 1 {
      var n := pos + Size(ms[0].value) + 2;
      LaidMembersIsRendered(sigs, n + 1, ms[1..]);
      HoldsAtJoin(sigs, pos, RenderMember(ms[0]), [Separator] + RenderMembers(ms[1..]));
      HoldsAtJoin(sigs, n, [Separator], RenderMembers(ms[1..]));
      HoldsAtSingle(sigs, n, Separator);
    }
  }

  lemma {:induction false} LaidMemberIsRendered(sigs: seq<Signature>, pos: nat, m: Member)
    ensures |RenderMember(m)| == Size(m.value) + 2
    ensures HoldsAt(sigs, pos, RenderMember(m)) <==>
      At(sigs, pos, Signature(TokenKind.String, m.key)) && At(sigs, pos + 1, KeyMark) && Laid(sigs, pos + 2, m.value)
    decreases m, 1
  {
    var key := Signature(TokenKind.String, m.key);
    RenderSize(m.value);
    LaidIsRendered(sigs, pos + 2, m.value);
    HoldsAtJoin(sigs, pos, [key, KeyMark], Render(m.value));
    HoldsAtPair(sigs, pos, key, KeyMark);
  }

  // ---------------------------------------------------------------------
  // The parser accepts every rendered text and returns its meaning
  // ---------------------------------------------------------------------

  /** A text's first token opens a value: a scalar, `[` or `{`. */
  lemma LaidStart(sigs: seq<Signature>, pos: nat, x: Syntax)
    requires Laid(sigs, pos, x)
    ensures pos < |sigs|
    ensures sigs[pos].kind in {TokenKind.Null, TokenKind.Boolean, TokenKind.Number, TokenKind.String, LeftBracket, LeftBrace}
  {
  }

  /** `[` followed by `]` is the empty array. */
  lemma ArrayEmpty(sigs: seq<Signature>, pos: nat)
    requires EndsWithEof(sigs) && pos < |sigs|
    requires Peek(sigs, pos) == OpenBracket && Peek(sigs, pos + 1) == CloseBracket
    ensures ParseValue(sigs, pos) == Success(Parsed(Array([]), pos + 2))
  {
  }

  /** `[` followed by anything but `]` starts the element loop. */
  lemma ArrayOpens(sigs: seq<Signature>, pos: nat)
    requires EndsWithEof(sigs) && pos < |sigs|
    requires Peek(sigs, pos) == OpenBracket && Peek(sigs, pos + 1).kind != RightBracket
    ensures ParseValue(sigs, pos) == ParseElements(sigs, pos + 1, [])
  {
  }

  /** `{` followed by `}` is the empty object. */
  lemma ObjectEmpty(sigs: seq<Signature>, pos: nat)
    requires EndsWithEof(sigs) && pos < |sigs|
    requires Peek(sigs, pos) == OpenBrace && Peek(sigs, pos + 1) == CloseBrace
    ensures ParseValue(sigs, pos) == Success(Parsed(Object(map[]), pos + 2))
  {
  }

  /** `{` followed by a string starts the member loop. */
  lemma ObjectOpens(sigs: seq<Signature>, pos: nat)
    requires EndsWithEof(sigs) && pos < |sigs|
    requires Peek(sigs, pos) == OpenBrace && Peek(sigs, pos + 1).kind == TokenKind.String
    ensures ParseValue(sigs, pos) == ParseMembers(sigs, pos + 1, map[])
  {
  }

  /** One turn of the element loop after a value that parsed. */
  lemma ElementsStep(sigs: seq<Signature>, pos: nat, acc: seq<JsonElement>, v: JsonElement, n: nat)
    requires EndsWithEof(sigs) && pos <= |sigs|
    requires ParseValue(sigs, pos) == Success(Parsed(v, n))
    ensures Peek(sigs, n).kind == Comma ==> ParseElements(sigs, pos, acc) == ParseElements(sigs, n + 1, acc + [v])
    ensures Peek(sigs, n).kind == RightBracket ==> ParseElements(sigs, pos, acc) == Success(Parsed(Array(acc + [v]), n + 1))
    ensures ParseElements(sigs, pos, acc).Success? ==> Peek(sigs, n).kind == Comma || Peek(sigs, n).kind == RightBracket
  {
  }

  /** One turn of the member loop after a key, a colon and a value that parsed. */
  lemma MembersStep(sigs: seq<Signature>, pos: nat, acc: map<string, JsonElement>, v: JsonElement, n: nat)
    requires EndsWithEof(sigs) && pos + 2 <= |sigs|
    requires Peek(sigs, pos).kind == TokenKind.String && Peek(sigs, pos + 1).kind == Colon
    requires ParseValue(sigs, pos + 2) == Success(Parsed(v, n))
    ensures var acc' := acc[Peek(sigs, pos).lexeme := v];
      && (Peek(sigs, n).kind == Comma ==> ParseMembers(sigs, pos, acc) == ParseMembers(sigs, n + 1, acc'))
      && (Peek(sigs, n).kind == RightBrace ==> ParseMembers(sigs, pos, acc) == Success(Parsed(Object(acc'), n + 1)))
    ensures ParseMembers(sigs, pos, acc).Success? ==> Peek(sigs, n).kind == Comma || Peek(sigs, n).kind == RightBrace
  {
  }

  /** An element followed by a comma hands over to the next turn of the element loop. */
  lemma ElementsComma(sigs: seq<Signature>, pos: nat, acc: seq<JsonElement>, v: JsonElement, n: nat)
    requires EndsWithEof(sigs) && pos <= |sigs|
    requires ParseValue(sigs, pos) == Success(Parsed(v, n)) && At(sigs, n, Separator)
    ensures ParseElements(sigs, pos, acc) == ParseElements(sigs, n + 1, acc + [v])
  {
    ElementsStep(sigs, pos, acc, v, n);
  }

  /** A member followed by a comma hands over to the next turn of the member loop. */
  lemma MembersComma(sigs: seq<Signature>, pos: nat, acc: map<string, JsonElement>, m: Member, n: nat)
    requires EndsWithEof(sigs) && pos + 2 <= |sigs|
    requires At(sigs, pos, Signature(TokenKind.String, m.key)) && At(sigs, pos + 1, KeyMark)
    requires ParseValue(sigs, pos + 2) == Success(Parsed(Meaning(m.value), n)) && At(sigs, n, Separator)
    ensures ParseMembers(sigs, pos, acc) == ParseMembers(sigs, n + 1, acc[m.key := Meaning(m.value)])
  {
    MembersStep(sigs, pos, acc, Meaning(m.value), n);
  }

  /** A text laid out at `pos` parses to its meaning and is consumed exactly. */
  lemma {:induction false} ParseLaid(sigs: seq<Signature>, pos: nat, x: Syntax)
    requires EndsWithEof(sigs) && Laid(sigs, pos, x) && pos + Size(x) < |sigs|
    ensures ValueAt(sigs, pos, x)
    decreases x, 0
  {
    match x
    case ArrayLiteral(items) => ParseLaidArray(sigs, pos, items);
    case ObjectLiteral(ms) => ParseLaidObject(sigs, pos, ms);
    case _ =>
  }

  lemma {:induction false} ParseLaidArray(sigs: seq<Signature>, pos: nat, items: seq<Syntax>)
    requires EndsWithEof(sigs) && Laid(sigs, pos, ArrayLiteral(items)) && pos + Size(ArrayLiteral(items)) < |sigs|
    ensures ValueAt(sigs, pos, ArrayLiteral(items))
    decreases items, 3
  {
    if |items| == 0 {
      ArrayEmpty(sigs, pos);
    } else {
      LaidStart(sigs, pos + 1, items[0]);
      ParseLaidItems(sigs, pos + 1, items, []);
      ArrayOf(sigs, pos, items);
    }
  }

  lemma {:induction false} ParseLaidObject(sigs: seq<Signature>, pos: nat, ms: seq<Member>)
    requires EndsWithEof(sigs) && Laid(sigs, pos, ObjectLiteral(ms)) && pos + Size(ObjectLiteral(ms)) < |sigs|
    ensures ValueAt(sigs, pos, ObjectLiteral(ms))
    decreases ms, 3
  {
    if |ms| == 0 {
      ObjectEmpty(sigs, pos);
    } else {
      ParseLaidMembers(sigs, pos + 1, ms, map[]);
      ObjectOf(sigs, pos, ms);
    }
  }

  /** Elements laid out at `pos` and closed by `]` finish the array, appended to `acc`. */
  lemma {:induction false} ParseLaidItems(sigs: seq<Signature>, pos: nat, items: seq<Syntax>, acc: seq<JsonElement>)
    requires EndsWithEof(sigs) && |items| > 0 && LaidItems(sigs, pos, items)
    requires At(sigs, pos + SizeItems(items), CloseBracket) && pos + SizeItems(items) + 1 < |sigs|
    ensures ElementsAt(sigs, pos, acc, items)
    decreases items, 2
  {
    LaidItemsSplit(sigs, pos, items);
    if |items| == 1 {
      ParseLaidLastItem(sigs, pos, items, acc);
    } else {
      ParseLaidItems(sigs, pos + Size(items[0]) + 1, items[1..], acc + [Meaning(items[0])]);
      ParseLaidItem(sigs, pos, items, acc);
    }
  }

  lemma {:induction false} ParseLaidLastItem(sigs: seq<Signature>, pos: nat, items: seq<Syntax>, acc: seq<JsonElement>)
    requires EndsWithEof(sigs) && |items| == 1 && Laid(sigs, pos, items[0]) && SizeItems(items) == Size(items[0])
    requires At(sigs, pos + Size(items[0]), CloseBracket) && pos + Size(items[0]) + 1 < |sigs|
    ensures ElementsAt(sigs, pos, acc, items)
    decreases items, 1
  {
    var x := items[0];
    ParseLaid(sigs, pos, x);
    ElementsLast(sigs, pos, acc, x);
    assert items == [x];
  }

  lemma {:induction false} ParseLaidItem(sigs: seq<Signature>, pos: nat, items: seq<Syntax>, acc: seq<JsonElement>)
    requires EndsWithEof(sigs) && |items| > 1 && Laid(sigs, pos, items[0]) && At(sigs, pos + Size(items[0]), Separator)
    requires pos + Size(items[0]) + 1 <= |sigs|
    requires ElementsAt(sigs, pos + Size(items[0]) + 1, acc + [Meaning(items[0])], items[1..])
    ensures ElementsAt(sigs, pos, acc, items)
    decreases items, 1
  {
    var x := items[0];
    var n := pos + Size(x);
    ParseLaid(sigs, pos, x);
    ElementsComma(sigs, pos, acc, Meaning(x), n);
    ElementsMore(sigs, pos, acc, x, n, items[1..]);
    assert items == [x] + items[1..];
  }

  /** The first element of a layout, and the layout of the rest after a comma. */
  lemma LaidItemsSplit(sigs: seq<Signature>, pos: nat, items: seq<Syntax>)
    requires |items| > 0 && LaidItems(sigs, pos, items)
    ensures Laid(sigs, pos, items[0])
    ensures |items| == 1 ==> SizeItems(items) == Size(items[0])
    ensures |items| > 1 ==>
      && At(sigs, pos + Size(items[0]), Separator) && LaidItems(sigs, pos + Size(items[0]) + 1, items[1..])
      && SizeItems(items) == Size(items[0]) + 1 + SizeItems(items[1..])
  {
  }

  /** The first member of a layout, and the layout of the rest after a comma. */
  lemma LaidMembersSplit(sigs: seq<Signature>, pos: nat, ms: seq<Member>)
    requires |ms| > 0 && LaidMembers(sigs, pos, ms)
    ensures At(sigs, pos, Signature(TokenKind.String, ms[0].key)) && At(sigs, pos + 1, KeyMark) && Laid(sigs, pos + 2, ms[0].value)
    ensures |ms| == 1 ==> SizeMembers(ms) == Size(ms[0].value) + 2
    ensures |ms| > 1 ==>
      && At(sigs, pos + Size(ms[0].value) + 2, Separator) && LaidMembers(sigs, pos + Size(ms[0].value) + 3, ms[1..])
      && SizeMembers(ms) == Size(ms[0].value) + 3 + SizeMembers(ms[1..])
  {
  }

  /** Members laid out at `pos` and closed by `}` finish the object, collected into `acc`. */
  lemma {:induction false} ParseLaidMembers(sigs: seq<Signature>, pos: nat, ms: seq<Member>, acc: map<string, JsonElement>)
    requires EndsWithEof(sigs) && |ms| > 0 && LaidMembers(sigs, pos, ms)
    requires At(sigs, pos + SizeMembers(ms), CloseBrace) && pos + SizeMembers(ms) + 1 < |sigs|
    ensures MembersAt(sigs, pos, acc, ms)
    decreases ms, 2
  {
    LaidMembersSplit(sigs, pos, ms);
    if |ms| == 1 {
      ParseLaidLastMember(sigs, pos, ms, acc);
    } else {
      ParseLaidMembers(sigs, pos + Size(ms[0].value) + 3, ms[1..], acc[ms[0].key := Meaning(ms[0].value)]);
      ParseLaidMember(sigs, pos, ms, acc);
    }
  }

  lemma {:induction false} ParseLaidLastMember(sigs: seq<Signature>, pos: nat, ms: seq<Member>, acc: map<string, JsonElement>)
    requires EndsWithEof(sigs) && |ms| == 1 && SizeMembers(ms) == Size(ms[0].value) + 2
    requires At(sigs, pos, Signature(TokenKind.String, ms[0].key)) && At(sigs, pos + 1, KeyMark) && Laid(sigs, pos + 2, ms[0].value)
    requires At(sigs, pos + Size(ms[0].value) + 2, CloseBrace) && pos + Size(ms[0].value) + 3 < |sigs|
    ensures MembersAt(sigs, pos, acc, ms)
    decreases ms, 1
  {
    var m := ms[0];
    ParseLaid(sigs, pos + 2, m.value);
    MembersLastSyntax(sigs, pos, acc, m);
    assert ms == [m];
  }

  lemma {:induction false} ParseLaidMember(sigs: seq<Signature>, pos: nat, ms: seq<Member>, acc: map<string, JsonElement>)
    requires EndsWithEof(sigs) && |ms| > 1
    requires At(sigs, pos, Signature(TokenKind.String, ms[0].key)) && At(sigs, pos + 1, KeyMark) && Laid(sigs, pos + 2, ms[0].value)
    requires At(sigs, pos + Size(ms[0].value) + 2, Separator) && pos + Size(ms[0].value) + 3 <= |sigs|
    requires MembersAt(sigs, pos + Size(ms[0].value) + 3, acc[ms[0].key := Meaning(ms[0].value)], ms[1..])
    ensures MembersAt(sigs, pos, acc, ms)
    decreases ms, 1
  {
    var m := ms[0];
    var n := pos + Size(m.value) + 2;
    ParseLaid(sigs, pos + 2, m.value);
    MembersComma(sigs, pos, acc, m, n);
    MembersMore(sigs, pos, acc, m, n, ms[1..]);
    assert ms == [m] + ms[1..];
  }

  /**
   * Soundness of the grammar for the parser: wherever the tokens of a text
   * appear, followed by at least one more token, `parse_value` consumes
   * exactly them and returns the text's meaning.
   */
  lemma ParseRendered(sigs: seq<Signature>, pos: nat, x: Syntax)
    requires EndsWithEof(sigs)
    requires HoldsAt(sigs, pos, Render(x)) && pos + |Render(x)| < |sigs|
    ensures ParseValue(sigs, pos) == Success(Parsed(Meaning(x), pos + |Render(x)|))
  {
    RenderSize(x);
    LaidIsRendered(sigs, pos, x);
    ParseLaid(sigs, pos, x);
  }

  // ---------------------------------------------------------------------
  // Every value the parser accepts is a rendered text
  // ---------------------------------------------------------------------

  /**
   * The lexemes the tokenizer gives the kinds the parser checks only by
   * kind: the punctuation and `null` are spelt the one way they can be.
   */
  predicate CanonicalToken(t: Signature) {
    match t.kind
    case LeftBrace => t == OpenBrace
    case RightBrace => t == CloseBrace
    case LeftBracket => t == OpenBracket
    case RightBracket => t == CloseBracket
    case Comma => t == Separator
    case Colon => t == KeyMark
    case Null => t.lexeme == "null"
    case _ => true
  }

  predicate Canonical(sigs: seq<Signature>) {
    forall i :: 0 <= i < |sigs| ==> CanonicalToken(sigs[i])
  }

  /** `x` lies at `pos`, and `parse_value` there returns its meaning, just after it. */
  predicate ValueAt(sigs: seq<Signature>, pos: nat, x: Syntax)
    requires EndsWithEof(sigs) && pos <= |sigs|
  {
    Laid(sigs, pos, x) && ParseValue(sigs, pos) == Success(Parsed(Meaning(x), pos + Size(x)))
  }

  /** `items` and a closing `]` lie at `pos`, and the element loop there appends their meanings to `acc`. */
  predicate ElementsAt(sigs: seq<Signature>, pos: nat, acc: seq<JsonElement>, items: seq<Syntax>)
    requires EndsWithEof(sigs) && pos <= |sigs|
  {
    && |items| > 0 && LaidItems(sigs, pos, items) && At(sigs, pos + SizeItems(items), CloseBracket)
    && ParseElements(sigs, pos, acc) == Success(Parsed(Array(acc + Meanings(items)), pos + SizeItems(items) + 1))
  }

  /** `ms` and a closing `}` lie at `pos`, and the member loop there collects them into `acc`. */
  predicate MembersAt(sigs: seq<Signature>, pos: nat, acc: map<string, JsonElement>, ms: seq<Member>)
    requires EndsWithEof(sigs) && pos <= |sigs|
  {
    && |ms| > 0 && LaidMembers(sigs, pos, ms) && At(sigs, pos + SizeMembers(ms), CloseBrace)
    && ParseMembers(sigs, pos, acc) == Success(Parsed(Object(Collect(acc, ms)), pos + SizeMembers(ms) + 1))
  }

  /** The text behind a value the parser accepts at `pos`. */
  lemma {:induction false} ValueSyntax(sigs: seq<Signature>, pos: nat) returns (x: Syntax)
    requires EndsWithEof(sigs) && pos <= |sigs| && Canonical(sigs)
    requires ParseValue(sigs, pos).Success?
    ensures ValueAt(sigs, pos, x)
    decreases |sigs| - pos, 1
  {
    var t := Peek(sigs, pos);
    assert pos < |sigs| && CanonicalToken(sigs[pos]);
    if t.kind == LeftBracket {
      x := ArraySyntax(sigs, pos);
    } else if t.kind == LeftBrace {
      x := ObjectSyntax(sigs, pos);
    } else if t.kind == TokenKind.String {
      x := StringLiteral(t.lexeme);
    } else if t.kind == TokenKind.Number {
      x := NumberLiteral(t.lexeme);
    } else if t.kind == TokenKind.Boolean {
      x := BoolLiteral(t.lexeme == "true");
    } else {
      x := NullLiteral;
    }
  }

  lemma {:induction false} ArraySyntax(sigs: seq<Signature>, pos: nat) returns (x: Syntax)
    requires EndsWithEof(sigs) && pos < |sigs| && Canonical(sigs)
    requires Peek(sigs, pos).kind == LeftBracket && ParseValue(sigs, pos).Success?
    ensures ValueAt(sigs, pos, x)
    decreases |sigs| - pos, 0
  {
    assert CanonicalToken(sigs[pos]) && CanonicalToken(sigs[pos + 1]);
    if Peek(sigs, pos + 1).kind == RightBracket {
      x := ArrayLiteral([]);
      ArrayEmpty(sigs, pos);
    } else {
      var items := ElementsSyntax(sigs, pos + 1, []);
      x := ArrayLiteral(items);
      ArrayOf(sigs, pos, items);
    }
  }

  lemma ArrayOf(sigs: seq<Signature>, pos: nat, items: seq<Syntax>)
    requires EndsWithEof(sigs) && pos < |sigs| && At(sigs, pos, OpenBracket)
    requires Peek(sigs, pos + 1).kind != RightBracket && ElementsAt(sigs, pos + 1, [], items)
    ensures ValueAt(sigs, pos, ArrayLiteral(items))
  {
    assert [] + Meanings(items) == Meanings(items);
  }

  lemma {:induction false} ObjectSyntax(sigs: seq<Signature>, pos: nat) returns (x: Syntax)
    requires EndsWithEof(sigs) && pos < |sigs| && Canonical(sigs)
    requires Peek(sigs, pos).kind == LeftBrace && ParseValue(sigs, pos).Success?
    ensures ValueAt(sigs, pos, x)
    decreases |sigs| - pos, 0
  {
    assert CanonicalToken(sigs[pos]) && CanonicalToken(sigs[pos + 1]);
    if Peek(sigs, pos + 1).kind == RightBrace {
      x := ObjectLiteral([]);
      ObjectEmpty(sigs, pos);
    } else {
      var ms := MembersSyntax(sigs, pos + 1, map[]);
      x := ObjectLiteral(ms);
      ObjectOf(sigs, pos, ms);
    }
  }

  lemma ObjectOf(sigs: seq<Signature>, pos: nat, ms: seq<Member>)
    requires EndsWithEof(sigs) && pos < |sigs| && At(sigs, pos, OpenBrace)
    requires MembersAt(sigs, pos + 1, map[], ms)
    ensures ValueAt(sigs, pos, ObjectLiteral(ms))
  {
    assert LaidMembers(sigs, pos + 1, ms) && At(sigs, pos + 1 + SizeMembers(ms), CloseBrace);
    assert At(sigs, pos + 1, Signature(TokenKind.String, ms[0].key));
    ObjectOpens(sigs, pos);
    assert ParseValue(sigs, pos) == Success(Parsed(Object(Collect(map[], ms)), pos + 1 + SizeMembers(ms) + 1));
  }

  /** The elements behind an element loop that succeeds at `pos`. */
  lemma {:induction false} ElementsSyntax(sigs: seq<Signature>, pos: nat, acc: seq<JsonElement>) returns (items: seq<Syntax>)
    requires EndsWithEof(sigs) && pos <= |sigs| && Canonical(sigs)
    requires ParseElements(sigs, pos, acc).Success?
    ensures ElementsAt(sigs, pos, acc, items)
    decreases |sigs| - pos, 2
  {
    var x := ValueSyntax(sigs, pos);
    var n := pos + Size(x);
    ElementsStep(sigs, pos, acc, Meaning(x), n);
    if Peek(sigs, n).kind == Comma {
      items := ElementsAfterComma(sigs, pos, acc, x, n);
    } else {
      items := [x];
      assert CanonicalToken(Peek(sigs, n));
      ElementsLast(sigs, pos, acc, x);
    }
  }

  /** The elements behind an element loop that goes on after `x` and a comma. */
  lemma {:induction false} ElementsAfterComma(sigs: seq<Signature>, pos: nat, acc: seq<JsonElement>, x: Syntax, n: nat)
    returns (items: seq<Syntax>)
    requires EndsWithEof(sigs) && pos <= |sigs| && Canonical(sigs) && Laid(sigs, pos, x) && n == pos + Size(x)
    requires Peek(sigs, n).kind == Comma
    requires ParseElements(sigs, pos, acc) == ParseElements(sigs, n + 1, acc + [Meaning(x)])
    requires ParseElements(sigs, pos, acc).Success?
    ensures ElementsAt(sigs, pos, acc, items)
    decreases |sigs| - (n + 1), 3
  {
    var rest := ElementsSyntax(sigs, n + 1, acc + [Meaning(x)]);
    items := [x] + rest;
    assert CanonicalToken(sigs[n]);
    ElementsMore(sigs, pos, acc, x, n, rest);
  }

  /** The element loop ends after `x`: the next token can only be `]`. */
  lemma ElementsLast(sigs: seq<Signature>, pos: nat, acc: seq<JsonElement>, x: Syntax)
    requires EndsWithEof(sigs) && pos <= |sigs| && Laid(sigs, pos, x)
    requires ParseValue(sigs, pos) == Success(Parsed(Meaning(x), pos + Size(x)))
    requires Peek(sigs, pos + Size(x)) == CloseBracket
    ensures ElementsAt(sigs, pos, acc, [x])
  {
    ElementsStep(sigs, pos, acc, Meaning(x), pos + Size(x));
    assert Meanings([x]) == [Meaning(x)];
  }

  /** The element loop goes on after `x` and a comma with the elements `rest`. */
  lemma ElementsMore(sigs: seq<Signature>, pos: nat, acc: seq<JsonElement>, x: Syntax, n: nat, rest: seq<Syntax>)
    requires EndsWithEof(sigs) && pos <= |sigs| && Laid(sigs, pos, x) && n == pos + Size(x)
    requires At(sigs, n, Separator)
    requires ParseElements(sigs, pos, acc) == ParseElements(sigs, n + 1, acc + [Meaning(x)])
    requires n + 1 <= |sigs| && ElementsAt(sigs, n + 1, acc + [Meaning(x)], rest)
    ensures ElementsAt(sigs, pos, acc, [x] + rest)
  {
    var acc' := acc + [Meaning(x)];
    assert LaidItems(sigs, n + 1, rest) && At(sigs, n + 1 + SizeItems(rest), CloseBracket);
    assert ParseElements(sigs, n + 1, acc') == Success(Parsed(Array(acc' + Meanings(rest)), n + 1 + SizeItems(rest) + 1));
    ItemsOfCons(sigs, pos, x, n, rest);
    assert acc' + Meanings(rest) == acc + Meanings([x] + rest);
  }

  /** Layout and size of `[x] + rest`. */
  lemma ItemsOfCons(sigs: seq<Signature>, pos: nat, x: Syntax, n: nat, rest: seq<Syntax>)
    requires |rest| > 0 && n == pos + Size(x)
    requires Laid(sigs, pos, x) && At(sigs, n, Separator) && LaidItems(sigs, n + 1, rest)
    ensures LaidItems(sigs, pos, [x] + rest) && pos + SizeItems([x] + rest) == n + 1 + SizeItems(rest)
    ensures Meanings([x] + rest) == [Meaning(x)] + Meanings(rest)
  {
    assert ([x] + rest)[0] == x && ([x] + rest)[1..] == rest;
  }

  /** The members behind a member loop that succeeds at `pos`. */
  lemma {:induction false} MembersSyntax(sigs: seq<Signature>, pos: nat, acc: map<string, JsonElement>) returns (ms: seq<Member>)
    requires EndsWithEof(sigs) && pos <= |sigs| && Canonical(sigs)
    requires ParseMembers(sigs, pos, acc).Success?
    ensures MembersAt(sigs, pos, acc, ms)
    decreases |sigs| - pos, 2
  {
    var key := Peek(sigs, pos);
    assert pos + 1 < |sigs| && CanonicalToken(sigs[pos + 1]);
    var v := ValueSyntax(sigs, pos + 2);
    var m := Member(key.lexeme, v);
    var n := pos + 2 + Size(v);
    MembersStep(sigs, pos, acc, Meaning(v), n);
    if Peek(sigs, n).kind == Comma {
      ms := MembersAfterComma(sigs, pos, acc, m, n);
    } else {
      ms := [m];
      assert CanonicalToken(sigs[pos + 1]) && CanonicalToken(Peek(sigs, n));
      MembersLastSyntax(sigs, pos, acc, m);
    }
  }

  /** The members behind a member loop that goes on after `m` and a comma. */
  lemma {:induction false} MembersAfterComma(sigs: seq<Signature>, pos: nat, acc: map<string, JsonElement>, m: Member, n: nat)
    returns (ms: seq<Member>)
    requires EndsWithEof(sigs) && pos + 2 <= |sigs| && Canonical(sigs) && n == pos + 2 + Size(m.value)
    requires Peek(sigs, pos) == Signature(TokenKind.String, m.key) && Peek(sigs, pos + 1).kind == Colon
    requires Laid(sigs, pos + 2, m.value) && Peek(sigs, n).kind == Comma
    requires ParseMembers(sigs, pos, acc) == ParseMembers(sigs, n + 1, acc[m.key := Meaning(m.value)])
    requires ParseMembers(sigs, pos, acc).Success?
    ensures MembersAt(sigs, pos, acc, ms)
    decreases |sigs| - (n + 1), 3
  {
    var rest := MembersSyntax(sigs, n + 1, acc[m.key := Meaning(m.value)]);
    ms := [m] + rest;
    assert CanonicalToken(sigs[pos + 1]) && CanonicalToken(sigs[n]);
    MembersMore(sigs, pos, acc, m, n, rest);
  }

  /** The member loop ends after `m`: the next token can only be `}`. */
  lemma MembersLastSyntax(sigs: seq<Signature>, pos: nat, acc: map<string, JsonElement>, m: Member)
    requires EndsWithEof(sigs) && pos + 2 <= |sigs|
    requires At(sigs, pos, Signature(TokenKind.String, m.key)) && At(sigs, pos + 1, KeyMark)
    requires Laid(sigs, pos + 2, m.value)
    requires ParseValue(sigs, pos + 2) == Success(Parsed(Meaning(m.value), pos + 2 + Size(m.value)))
    requires Peek(sigs, pos + 2 + Size(m.value)) == CloseBrace
    ensures MembersAt(sigs, pos, acc, [m])
  {
    assert [m][0] == m && [m][1..] == [];
    assert SizeMembers([m]) == Size(m.value) + 2;
    assert LaidMembers(sigs, pos, [m]);
    assert Collect(acc, [m]) == acc[m.key := Meaning(m.value)];
    MembersStep(sigs, pos, acc, Meaning(m.value), pos + 2 + Size(m.value));
  }

  /** The member loop goes on after `m` and a comma with the members `rest`. */
  lemma MembersMore(sigs: seq<Signature>, pos: nat, acc: map<string, JsonElement>, m: Member, n: nat, rest: seq<Member>)
    requires EndsWithEof(sigs) && pos + 2 <= |sigs| && n == pos + 2 + Size(m.value)
    requires At(sigs, pos, Signature(TokenKind.String, m.key)) && At(sigs, pos + 1, KeyMark)
    requires Laid(sigs, pos + 2, m.value) && At(sigs, n, Separator)
    requires ParseMembers(sigs, pos, acc) == ParseMembers(sigs, n + 1, acc[m.key := Meaning(m.value)])
    requires n + 1 <= |sigs| && MembersAt(sigs, n + 1, acc[m.key := Meaning(m.value)], rest)
    ensures MembersAt(sigs, pos, acc, [m] + rest)
  {
    var acc' := acc[m.key := Meaning(m.value)];
    assert LaidMembers(sigs, n + 1, rest) && At(sigs, n + 1 + SizeMembers(rest), CloseBrace);
    assert ParseMembers(sigs, n + 1, acc') == Success(Parsed(Object(Collect(acc', rest)), n + 1 + SizeMembers(rest) + 1));
    MembersOfCons(sigs, pos, m, n, rest, acc);
  }

  /** Layout, size and collected meaning of `[m] + rest`. */
  lemma MembersOfCons(sigs: seq<Signature>, pos: nat, m: Member, n: nat, rest: seq<Member>, acc: map<string, JsonElement>)
    requires |rest| > 0 && n == pos + 2 + Size(m.value)
    requires At(sigs, pos, Signature(TokenKind.String, m.key)) && At(sigs, pos + 1, KeyMark) && Laid(sigs, pos + 2, m.value)
    requires At(sigs, n, Separator) && LaidMembers(sigs, n + 1, rest)
    ensures LaidMembers(sigs, pos, [m] + rest) && pos + SizeMembers([m] + rest) == n + 1 + SizeMembers(rest)
    ensures Collect(acc, [m] + rest) == Collect(acc[m.key := Meaning(m.value)], rest)
  {
    assert ([m] + rest)[0] == m && ([m] + rest)[1..] == rest;
  }

  /**
   * Completeness of the grammar for the parser: on a token list spelt the
   * way the tokenizer spells tokens, every value `parse_value` accepts is the
   * rendering of a text, consumed exactly, with that text's meaning.
   */
  lemma ParseAccepted(sigs: seq<Signature>, pos: nat)
    requires EndsWithEof(sigs) && pos <= |sigs| && Canonical(sigs)
    requires ParseValue(sigs, pos).Success?
    ensures exists x ::
      && HoldsAt(sigs, pos, Render(x))
      && ParseValue(sigs, pos) == Success(Parsed(Meaning(x), pos + |Render(x)|))
  {
    var x := ValueSyntax(sigs, pos);
    RenderSize(x);
    LaidIsRendered(sigs, pos, x);
  }
}
