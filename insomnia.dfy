/**
 * The Insomnia v4 importer (saffron-data `importers/insomnia.rs`): `parse`
 * walks the tree the JSON parser builds, with required and optional string
 * lookups, into a list of resources; `convert` groups the requests under
 * their workspaces. The functions say what the importer computes; the
 * methods loop the way the Rust code does and are proved to compute it.
 */
module Insomnia {
  import opened Wrappers
  import opened Strings
  import Tokens
  import opened JsonSpec
  import Json
  import opened Imported

  datatype ResourceType =
    | Workspace(description: Option<string>)
    | RequestGroup(description: Option<string>)
    | Request(httpMethod: string, url: string, headers: seq<(string, string)>, body: Option<string>, description: Option<string>)
    | Environment(data: map<string, string>)

  datatype Resource = Resource(id: string, name: string, parentId: Option<string>, kind: ResourceType)

  /** `InsomniaExport`. */
  datatype Export = Export(version: string, resources: seq<Resource>)

  type Members = map<string, JsonElement>

  /** `can_import`: the text mentions both the quoted `__export_format` and the quoted `resources`. */
  function CanImport(content: string): (r: bool)
    ensures r <==> (exists i :: 0 <= i <= |content| && OccursAt(content, "\"__export_format\"", i)) &&
                   (exists j :: 0 <= j <= |content| && OccursAt(content, "\"resources\"", j))
  {
    Contains(content, "\"__export_format\"") && Contains(content, "\"resources\"")
  }

  /** The test looks only for the two quoted keys: text around an importable text keeps it importable. */
  lemma CanImportSurrounded(a: string, content: string, b: string)
    requires CanImport(content)
    ensures CanImport(a + content + b)
  {
    var t := a + content + b;
    var i :| 0 <= i <= |content| && OccursAt(content, "\"__export_format\"", i);
    var j :| 0 <= j <= |content| && OccursAt(content, "\"resources\"", j);
    assert t[|a| + i..|a| + i + 17] == content[i..i + 17];
    assert OccursAt(t, "\"__export_format\"", |a| + i);
    assert t[|a| + j..|a| + j + 11] == content[j..j + 11];
    assert OccursAt(t, "\"resources\"", |a| + j);
  }

  // ---------------------------------------------------------------------
  // Field lookups
  // ---------------------------------------------------------------------

  /** `get_optional_string`: the text of a string-valued field; anything else is no value. */
  function GetOptionalString(obj: Members, key: string): (r: Option<string>)
    ensures forall s :: r == Some(s) <==> key in obj && obj[key] == JsonElement.String(s)
  {
    if key !in obj then None
    else
      match obj[key]
      case String(s) => Some(s)
      case _ => None
  }

  /** `get_string`: a required string field; a missing or non-string field is `MissingField(key)`. */
  function GetString(obj: Members, key: string): (r: Result<string, ImportError>)
    ensures r.Success? <==> GetOptionalString(obj, key).Some?
    ensures r.Success? ==> GetOptionalString(obj, key) == Some(r.value)
    ensures r.Failure? ==> r.error == MissingField(key)
  {
    if key in obj && obj[key].String? then Success(obj[key].text) else Failure(MissingField(key))
  }

  // ---------------------------------------------------------------------
  // The version
  // ---------------------------------------------------------------------

  function Power(b: nat, e: nat): nat {
    if e == 0 then 1 else b * Power(b, e - 1)
  }

  /**
   * `n / 10^k` parses to the `f64` 4.0: round to nearest, ties to even, and
   * 4.0 has an even significand. Its neighbours are 4 - 2^-51 below and
   * 4 + 2^-50 above, so the numbers that round to it are those in
   * [4 - 2^-52, 4 + 2^-51], both midpoints included.
   */
  predicate RoundsToFour(n: nat, k: nat) {
    var den := Power(10, k);
    (4 * den - n) * Power(2, 52) <= den && (n - 4 * den) * Power(2, 51) <= den
  }

  /** `u` is digits up to `d`, then either nothing or a point followed by digits. */
  predicate SplitsAt(u: string, d: nat) {
    0 < d <= |u| && AllDigits(u[..d]) && (d == |u| || (u[d] == '.' && AllDigits(u[d + 1..])))
  }

  /** The digits of `u` split at `d`, without the point. */
  function Mantissa(u: string, d: nat): (r: string)
    requires SplitsAt(u, d)
    ensures AllDigits(r) && |r| == (if d == |u| then d else |u| - 1)
  {
    u[..d] + (if d == |u| then "" else u[d + 1..])
  }

  /** How many of those digits follow the point. */
  function Scale(u: string, d: nat): (r: nat)
    requires SplitsAt(u, d)
    ensures r < |u| && (r == 0 <== d == |u|)
  {
    if d == |u| then 0 else |u| - d - 1
  }

  /**
   * A number lexeme whose `f64` value is 4.0: an optional `+`, digits, and
   * an optional point followed by digits, whose decimal value rounds to 4.
   * `f64`'s `Display` writes 4.0, and only 4.0, as `4`.
   */
  predicate DenotesFour(lexeme: string) {
    var u := if |lexeme| > 0 && lexeme[0] == '+' then lexeme[1..] else lexeme;
    exists d :: 0 < d <= |u| && SplitsAt(u, d) && RoundsToFour(DigitsValue(Mantissa(u, d)), Scale(u, d))
  }

  /**
   * The version text of `__export_format`: a string as it is, a number as
   * `n.to_string()` writes it (`4` for a number worth 4, its lexeme
   * otherwise); any other value gives none.
   */
  function VersionText(v: JsonElement): (r: Option<string>)
    ensures r.Some? <==> v.Number? || v.String?
    ensures r == Some("4") <==> v == JsonElement.String("4") || (v.Number? && DenotesFour(v.lexeme))
  {
    FourDenotesFour();
    match v
    case Number(l) => Some(if DenotesFour(l) then "4" else l)
    case String(s) => Some(s)
    case _ => None
  }

  function Version(obj: Members): (r: Result<string, ImportError>)
    ensures r.Failure? <==> "__export_format" !in obj || !(obj["__export_format"].Number? || obj["__export_format"].String?)
    ensures r.Failure? ==> r.error == MissingField("__export_format")
    ensures r.Success? ==> VersionText(obj["__export_format"]) == Some(r.value)
  {
    var text := if "__export_format" in obj then VersionText(obj["__export_format"]) else None;
    match text
    case Some(v) => Success(v)
    case None => Failure(MissingField("__export_format"))
  }

  lemma FourDenotesFour()
    ensures DenotesFour("4")
  {
    assert Mantissa("4", 1) == "4";
    assert DigitsValue("4") == 4;
    ExactFourRounds(0);
    assert 0 < 1 <= |"4"| && SplitsAt("4", 1) && RoundsToFour(DigitsValue(Mantissa("4", 1)), Scale("4", 1));
  }

  /** Four written with `k` decimals is four exactly. */
  lemma ExactFourRounds(k: nat)
    ensures RoundsToFour(4 * Power(10, k), k)
  {
  }

  /** A lexeme that is not exactly 4 but that `f64` reads as 4.0 also passes. */
  lemma NearFourDenotesFour()
    ensures DenotesFour("4.0000000000000001")
  {
    var u := "4.0000000000000001";
    NearFourValue();
    NearFourRounds();
    PointSplit(u);
    assert u[..1] + u[2..] == "4" + "0000000000000001";
    assert 0 < 1 <= |u| && SplitsAt(u, 1) && RoundsToFour(DigitsValue(Mantissa(u, 1)), Scale(u, 1));
  }

  lemma NearFourValue()
    ensures AllDigits("4" + "0000000000000001") && DigitsValue("4" + "0000000000000001") == 40000000000000001
  {
    var zeros := "000000000000000";
    assert "4" + "0000000000000001" == ("4" + zeros) + "1";
    ZerosValue(zeros);
    DigitsValueAppend("4", zeros);
    DigitsValueAppend("4" + zeros, "1");
    PowerAdd(10, 5, 10);
    PowerAdd(10, 5, 5);
    assert Power(10, 5) == 100000;
  }

  lemma NearFourRounds()
    ensures RoundsToFour(40000000000000001, 16)
  {
    RoundingPowers();
  }

  /** The powers the rounding bounds need at 16 decimals. */
  lemma RoundingPowers()
    ensures Power(10, 16) == 10000000000000000
    ensures Power(2, 51) == 2251799813685248 && Power(2, 52) == 4503599627370496
  {
    PowerAdd(10, 8, 8);
    PowerAdd(10, 4, 4);
    assert Power(10, 4) == 10000;
    PowerAdd(2, 3, 3);
    PowerAdd(2, 6, 6);
    PowerAdd(2, 12, 12);
    PowerAdd(2, 24, 24);
    PowerAdd(2, 48, 3);
    PowerAdd(2, 48, 4);
    assert Power(2, 3) == 8;
    assert Power(2, 4) == 16;
  }

  /**
   * `3.9999999999999998` lies 2 * 10^-16 below 4, within the 2^-52 that
   * rounds up to 4.0, so it also passes.
   */
  lemma BelowFourDenotesFour()
    ensures DenotesFour("3.9999999999999998")
  {
    var u := "3.9999999999999998";
    var nines := "999999999999999";
    PointSplit(u);
    assert u[..1] + u[2..] == ("3" + nines) + ['8'];
    ThreeNinesValue(nines, '8');
    RoundingPowers();
    assert 0 < 1 <= |u| && SplitsAt(u, 1) && RoundsToFour(DigitsValue(Mantissa(u, 1)), Scale(u, 1));
  }

  /**
   * `3.9999999999999997` lies 3 * 10^-16 below 4, past the 2^-52 midpoint,
   * so `f64` reads it as 4 - 2^-51 and it does not pass.
   */
  lemma BelowTieNotFour()
    ensures !DenotesFour("3.9999999999999997")
  {
    var u := "3.9999999999999997";
    var nines := "999999999999999";
    PointSplit(u);
    assert u[..1] + u[2..] == ("3" + nines) + ['7'];
    ThreeNinesValue(nines, '7');
    RoundingPowers();
    BelowTieRounds();
    forall d | 0 < d <= |u| && SplitsAt(u, d)
      ensures !RoundsToFour(DigitsValue(Mantissa(u, d)), Scale(u, d))
    {
      PointEndsDigits(u, d);
    }
  }

  lemma BelowTieRounds()
    ensures !RoundsToFour(39999999999999997, 16)
  {
    RoundingPowers();
  }

  /** A digit, a point and digits split only after the first char. */
  lemma PointSplit(u: string)
    requires 2 <= |u| && IsDigit(u[0]) && u[1] == '.' && AllDigits(u[2..])
    ensures SplitsAt(u, 1) && Mantissa(u, 1) == u[..1] + u[2..] && Scale(u, 1) == |u| - 2
  {
  }

  /** In a text whose second char is a point, only the first char can begin a run of digits. */
  lemma PointEndsDigits(u: string, d: nat)
    requires 2 <= |u| && u[1] == '.' && 0 < d <= |u| && AllDigits(u[..d])
    ensures d == 1
  {
  }

  /** The value of `3`, then nines, then one digit: four times a power of ten, less ten, plus that digit. */
  lemma ThreeNinesValue(nines: string, last: char)
    requires forall i :: 0 <= i < |nines| ==> nines[i] == '9'
    requires IsDigit(last)
    ensures AllDigits(("3" + nines) + [last])
    ensures DigitsValue(("3" + nines) + [last]) == 4 * Power(10, |nines| + 1) - 10 + (last as int - '0' as int)
  {
    ThreeNinesPrefix(nines);
    AppendDigitValue("3" + nines, last);
    assert Power(10, |nines| + 1) == 10 * Power(10, |nines|);
  }

  lemma ThreeNinesPrefix(nines: string)
    requires forall i :: 0 <= i < |nines| ==> nines[i] == '9'
    ensures AllDigits("3" + nines) && DigitsValue("3" + nines) + 1 == 4 * Power(10, |nines|)
  {
    NinesValue(nines);
    DigitsValueAppend("3", nines);
    assert DigitsValue("3") == 3;
  }

  /** One more digit multiplies the value by ten and adds the digit. */
  lemma AppendDigitValue(s: string, last: char)
    requires AllDigits(s) && IsDigit(last)
    ensures AllDigits(s + [last]) && DigitsValue(s + [last]) == DigitsValue(s) * 10 + (last as int - '0' as int)
  {
    assert (s + [last])[..|s|] == s;
  }

  lemma {:induction false} NinesValue(s: string)
    requires forall i :: 0 <= i < |s| ==> s[i] == '9'
    ensures AllDigits(s) && DigitsValue(s) + 1 == Power(10, |s|)
  {
    if |s| > 0 {
      NinesValue(s[..|s| - 1]);
    }
  }

  lemma {:induction false} PowerAdd(b: nat, m: nat, n: nat)
    ensures Power(b, m + n) == Power(b, m) * Power(b, n)
  {
    if m > 0 {
      PowerAdd(b, m - 1, n);
      assert Power(b, m + n) == b * Power(b, m - 1 + n);
    }
  }

  lemma {:induction false} ZerosValue(s: string)
    requires forall i :: 0 <= i < |s| ==> s[i] == '0'
    ensures AllDigits(s) && DigitsValue(s) == 0
  {
    if |s| > 0 {
      ZerosValue(s[..|s| - 1]);
    }
  }

  lemma ShiftDigit(a: nat, p: nat, b: nat)
    ensures (a * p + b) * 10 == a * (10 * p) + b * 10
  {
  }

  lemma {:induction false} DigitsValueAppend(s: string, t: string)
    requires AllDigits(s) && AllDigits(t)
    ensures AllDigits(s + t) && DigitsValue(s + t) == DigitsValue(s) * Power(10, |t|) + DigitsValue(t)
  {
    if |t| == 0 {
      assert s + t == s;
    } else {
      var t' := t[..|t| - 1];
      assert (s + t)[..|s + t| - 1] == s + t';
      DigitsValueAppend(s, t');
      ShiftDigit(DigitsValue(s), Power(10, |t'|), DigitsValue(t'));
    }
  }

  /**
   * The version check passes exactly for the string `"4"` and for a number
   * whose `f64` value is 4.0; a version of another type is a missing field.
   */
  lemma VersionIsFour(obj: Members)
    ensures Version(obj) == Success("4") <==>
      && "__export_format" in obj
      && (|| obj["__export_format"] == JsonElement.String("4")
          || (obj["__export_format"].Number? && DenotesFour(obj["__export_format"].lexeme)))
    ensures Version(obj).Failure? <==>
      "__export_format" !in obj || !(obj["__export_format"].Number? || obj["__export_format"].String?)
  {
    FourDenotesFour();
  }

  // ---------------------------------------------------------------------
  // Headers, body and environment data of a resource
  // ---------------------------------------------------------------------

  /** The header an entry of `headers` stands for: an object with a string `name` and a string `value`. */
  function HeaderOf(e: JsonElement): (r: seq<(string, string)>)
    ensures |r| <= 1
    ensures forall n, v :: r == [(n, v)] <==>
      e.Object? && GetOptionalString(e.members, "name") == Some(n) && GetOptionalString(e.members, "value") == Some(v)
  {
    match e
    case Object(h) =>
      (match (GetOptionalString(h, "name"), GetOptionalString(h, "value"))
       case (Some(n), Some(v)) => [(n, v)]
       case _ => [])
    case _ => []
  }

  /** The headers of the entries of `items`, in order. */
  function HeaderPairs(items: seq<JsonElement>): seq<(string, string)> {
    if |items| == 0 then [] else HeaderPairs(items[..|items| - 1]) + HeaderOf(items[|items| - 1])
  }

  /** The headers of a request resource: none unless `headers` is an array. */
  function Headers(obj: Members): seq<(string, string)> {
    if "headers" in obj && obj["headers"].Array? then HeaderPairs(obj["headers"].items) else []
  }

  /** The body of a request resource: `body.text` when `body` is an object holding a string `text`. */
  function BodyText(obj: Members): (r: Option<string>)
    ensures forall t :: r == Some(t) <==>
      "body" in obj && obj["body"].Object? && GetOptionalString(obj["body"].members, "text") == Some(t)
  {
    if "body" in obj then
      match obj["body"]
      case Object(b) => GetOptionalString(b, "text")
      case _ => None
    else None
  }

  /** The string-valued entries of an object. */
  function StringEntries(m: Members): (data: map<string, string>)
    ensures data.Keys <= m.Keys
    ensures forall k :: k in data <==> k in m && m[k].String?
    ensures forall k :: k in data ==> m[k] == JsonElement.String(data[k])
  {
    map k | k in m && m[k].String? :: m[k].text
  }

  /** The variables of an environment resource: none unless `data` is an object. */
  function EnvironmentData(obj: Members): map<string, string> {
    if "data" in obj && obj["data"].Object? then StringEntries(obj["data"].members) else map[]
  }

  /** Splitting the entries splits their headers. */
  lemma {:induction false} HeaderPairsConcat(a: seq<JsonElement>, b: seq<JsonElement>)
    ensures HeaderPairs(a + b) == HeaderPairs(a) + HeaderPairs(b)
    decreases |b|
  {
    if |b| == 0 {
      assert a + b == a;
    } else {
      var b' := b[..|b| - 1];
      assert (a + b)[..|a + b| - 1] == a + b';
      assert (a + b)[|a + b| - 1] == b[|b| - 1];
      HeaderPairsConcat(a, b');
    }
  }

  /**
   * The headers kept are exactly the header entries of `items`: a pair is
   * kept iff some entry is an object with that string `name` and `value`.
   */
  lemma {:induction false} HeaderPairsExactly(items: seq<JsonElement>, n: string, v: string)
    ensures (n, v) in HeaderPairs(items) <==> exists i :: 0 <= i < |items| && HeaderOf(items[i]) == [(n, v)]
    decreases |items|
  {
    if |items| > 0 {
      var init := items[..|items| - 1];
      var last := items[|items| - 1];
      HeaderPairsExactly(init, n, v);
      if (n, v) in HeaderPairs(init) {
        var i :| 0 <= i < |init| && HeaderOf(init[i]) == [(n, v)];
        assert items[i] == init[i];
      }
      if exists i :: 0 <= i < |items| && HeaderOf(items[i]) == [(n, v)] {
        var i :| 0 <= i < |items| && HeaderOf(items[i]) == [(n, v)];
        if i < |init| {
          assert init[i] == items[i];
        } else {
          assert items[i] == last;
        }
      }
    }
  }

  /** There are never more headers than entries. */
  lemma {:induction false} HeaderPairsBound(items: seq<JsonElement>)
    ensures |HeaderPairs(items)| <= |items|
    decreases |items|
  {
    if |items| > 0 {
      HeaderPairsBound(items[..|items| - 1]);
    }
  }

  // ---------------------------------------------------------------------
  // One resource, and the resource list
  // ---------------------------------------------------------------------

  /**
   * The kind-specific part of a resource of type `typ`: `None` for a type
   * the importer does not know, which skips the resource.
   */
  function ResourceKind(obj: Members, typ: string): Result<Option<ResourceType>, ImportError> {
    if typ == "workspace" then Success(Some(Workspace(GetOptionalString(obj, "description"))))
    else if typ == "request_group" then Success(Some(RequestGroup(GetOptionalString(obj, "description"))))
    else if typ == "request" then
      var httpMethod :- GetString(obj, "method");
      var url :- GetString(obj, "url");
      Success(Some(Request(httpMethod, url, Headers(obj), BodyText(obj), GetOptionalString(obj, "description"))))
    else if typ == "environment" then Success(Some(Environment(EnvironmentData(obj))))
    else Success(None)
  }

  /**
   * One entry of `resources`: `None` when it is skipped (not an object, or of
   * an unknown type); an error when a required field is missing.
   */
  function ParseEntry(e: JsonElement): (r: Result<Option<Resource>, ImportError>)
    ensures r.Failure? ==> r.error.MissingField?
  {
    match e
    case Object(obj) =>
      var id :- GetString(obj, "_id");
      var name :- GetString(obj, "name");
      var parentId := GetOptionalString(obj, "parentId");
      var typ :- GetString(obj, "_type");
      var kind :- ResourceKind(obj, typ);
      Success(if kind.Some? then Some(Resource(id, name, parentId, kind.value)) else None)
    case _ => Success(None)
  }

  /** The entries' resources in order, or the error of the first entry that fails. */
  function ParseEntries(items: seq<JsonElement>): (r: Result<seq<Resource>, ImportError>)
    ensures r.Failure? ==> r.error.MissingField?
  {
    if |items| == 0 then Success([])
    else
      var first :- ParseEntry(items[0]);
      var rest :- ParseEntries(items[1..]);
      Success((if first.Some? then [first.value] else []) + rest)
  }

  /** `parse`: the text parsed as JSON, checked to be an Insomnia v4 export, and its resources. */
  function ParseExport(content: string): (r: Result<Export, ImportError>)
    ensures ParseText(content).Failure? ==> r == Failure(ImportError.ParseError(Tokens.ErrorText(ParseText(content).error)))
    ensures r.Success? ==> ParseText(content).Success? && ParseText(content).value.Object? && r.value.version == "4"
  {
    match ParseText(content)
    case Failure(e) => Failure(ImportError.ParseError(Tokens.ErrorText(e)))
    case Success(root) =>
      match root
      case Object(obj) =>
        var version :- Version(obj);
        if version != "4" then Failure(UnsupportedVersion("Insomnia v" + version + " (only v4 supported)"))
        else if "resources" !in obj then Failure(MissingField("resources"))
        else
          (match obj["resources"]
           case Array(items) =>
             var resources :- ParseEntries(items);
             Success(Export(version, resources))
           case _ => Failure(InvalidFormat("resources must be an array")))
      case _ => Failure(InvalidFormat("Root must be an object"))
  }

  /**
   * What an entry yields: a non-object is skipped; an object needs string
   * `_id`, `name` and `_type` fields, checked in that order; a resource
   * carries them, and its kind follows `_type`; an unknown `_type` is skipped.
   */
  lemma EntryOutcome(e: JsonElement)
    ensures !e.Object? ==> ParseEntry(e) == Success(None)
    ensures e.Object? && GetOptionalString(e.members, "_id").None? ==> ParseEntry(e) == Failure(MissingField("_id"))
    ensures e.Object? && GetOptionalString(e.members, "_id").Some? && GetOptionalString(e.members, "name").None? ==>
      ParseEntry(e) == Failure(MissingField("name"))
    ensures (e.Object? && GetOptionalString(e.members, "_id").Some? && GetOptionalString(e.members, "name").Some?
             && GetOptionalString(e.members, "_type").None?) ==> ParseEntry(e) == Failure(MissingField("_type"))
    ensures ParseEntry(e).Success? && ParseEntry(e).value.Some? ==>
      var r := ParseEntry(e).value.value;
      && e.Object?
      && GetOptionalString(e.members, "_id") == Some(r.id)
      && GetOptionalString(e.members, "name") == Some(r.name)
      && r.parentId == GetOptionalString(e.members, "parentId")
      && GetOptionalString(e.members, "_type") == Some(
        match r.kind
        case Workspace(_) => "workspace"
        case RequestGroup(_) => "request_group"
        case Request(_, _, _, _, _) => "request"
        case Environment(_) => "environment")
  {
  }

  /** A request entry also needs string `method` and `url` fields, and keeps its headers and body. */
  lemma RequestEntry(obj: Members)
    requires GetOptionalString(obj, "_id").Some? && GetOptionalString(obj, "name").Some?
    requires GetOptionalString(obj, "_type") == Some("request")
    ensures GetOptionalString(obj, "method").None? ==> ParseEntry(Object(obj)) == Failure(MissingField("method"))
    ensures GetOptionalString(obj, "method").Some? && GetOptionalString(obj, "url").None? ==>
      ParseEntry(Object(obj)) == Failure(MissingField("url"))
    ensures ParseEntry(Object(obj)).Success? ==>
      && ParseEntry(Object(obj)).value.Some?
      && var k := ParseEntry(Object(obj)).value.value.kind;
      && k.Request?
      && Some(k.httpMethod) == GetOptionalString(obj, "method")
      && Some(k.url) == GetOptionalString(obj, "url")
      && k.headers == Headers(obj)
      && k.body == BodyText(obj)
  {
  }

  /** A result list that `pre` is put in front of; an error stays as it is. */
  function Prefixed(pre: seq<Resource>, r: Result<seq<Resource>, ImportError>): Result<seq<Resource>, ImportError> {
    match r
    case Success(rest) => Success(pre + rest)
    case Failure(e) => Failure(e)
  }

  lemma PrefixedTwice(a: seq<Resource>, b: seq<Resource>, r: Result<seq<Resource>, ImportError>)
    ensures Prefixed([], r) == r
    ensures Prefixed(a, Prefixed(b, r)) == Prefixed(a + b, r)
  {
    if r.Success? {
      assert [] + r.value == r.value;
      assert a + (b + r.value) == (a + b) + r.value;
    }
  }

  /** The list fails exactly when some entry fails, and then with the error of the first one. */
  lemma {:induction false} EntriesFailure(items: seq<JsonElement>)
    ensures ParseEntries(items).Failure? <==> exists i :: 0 <= i < |items| && ParseEntry(items[i]).Failure?
    ensures ParseEntries(items).Failure? ==>
      exists i :: && 0 <= i < |items|
                  && (forall j :: 0 <= j < i ==> ParseEntry(items[j]).Success?)
                  && ParseEntry(items[i]) == Failure(ParseEntries(items).error)
  {
    if |items| > 0 {
      EntriesFailure(items[1..]);
      assert forall j :: 1 <= j < |items| ==> items[1..][j - 1] == items[j];
      if ParseEntry(items[0]).Success? && ParseEntries(items[1..]).Failure? {
        var i :| && 0 <= i < |items[1..]|
                 && (forall j :: 0 <= j < i ==> ParseEntry(items[1..][j]).Success?)
                 && ParseEntry(items[1..][i]) == Failure(ParseEntries(items[1..]).error);
        assert forall j :: 0 <= j < i + 1 ==> ParseEntry(items[j]).Success?;
      }
    }
  }

  /** On success, a resource is listed iff some entry yields it. */
  lemma {:induction false} EntriesKept(items: seq<JsonElement>, r: Resource)
    requires ParseEntries(items).Success?
    ensures r in ParseEntries(items).value <==> exists i :: 0 <= i < |items| && ParseEntry(items[i]) == Success(Some(r))
  {
    if |items| > 0 {
      EntriesKept(items[1..], r);
      assert forall j :: 1 <= j < |items| ==> items[1..][j - 1] == items[j];
      if exists i :: 0 <= i < |items| && ParseEntry(items[i]) == Success(Some(r)) {
        var i :| 0 <= i < |items| && ParseEntry(items[i]) == Success(Some(r));
        if i > 0 {
          assert ParseEntry(items[1..][i - 1]) == Success(Some(r));
        }
      }
    }
  }

  /**
   * The outcomes of `parse`: JSON the parser rejects is a `ParseError`, and
   * no other failure is; a root that is not an object, a missing or
   * mistyped version, a version other than 4, and a missing or non-array
   * `resources` each have their own error; otherwise the resources are
   * those of the entries.
   */
  lemma ExportOutcome(content: string)
    ensures ParseExport(content).Failure? && ParseExport(content).error.ParseError? <==> ParseText(content).Failure?
    ensures ParseText(content).Success? && !ParseText(content).value.Object? ==>
      ParseExport(content) == Failure(InvalidFormat("Root must be an object"))
    ensures ParseText(content).Success? && ParseText(content).value.Object? ==>
      var obj := ParseText(content).value.members;
      && (Version(obj).Failure? ==> ParseExport(content) == Failure(MissingField("__export_format")))
      && (Version(obj).Success? && Version(obj).value != "4" ==> ParseExport(content).error.UnsupportedVersion?)
      && (Version(obj) == Success("4") && "resources" !in obj ==> ParseExport(content) == Failure(MissingField("resources")))
      && (Version(obj) == Success("4") && "resources" in obj && !obj["resources"].Array? ==>
            ParseExport(content) == Failure(InvalidFormat("resources must be an array")))
    ensures ParseExport(content).Success? <==>
      && ParseText(content).Success? && ParseText(content).value.Object?
      && var obj := ParseText(content).value.members;
      && Version(obj) == Success("4") && "resources" in obj && obj["resources"].Array?
      && ParseEntries(obj["resources"].items).Success?
    ensures ParseExport(content).Success? ==>
      && ParseExport(content).value.version == "4"
      && ParseExport(content).value.resources == ParseEntries(ParseText(content).value.members["resources"].items).value
  {
  }

  // ---------------------------------------------------------------------
  // The loops of `parse`
  // ---------------------------------------------------------------------

  /** The `headers` loop: push each entry with a string `name` and `value`. */
  method CollectHeaders(items: seq<JsonElement>) returns (headers: seq<(string, string)>)
    ensures headers == HeaderPairs(items)
  {
    headers := [];
    for i := 0 to |items|
      invariant headers == HeaderPairs(items[..i])
    {
      assert items[..i + 1][..i] == items[..i];
      match items[i]
      case Object(h) =>
        var name := GetOptionalString(h, "name");
        var value := GetOptionalString(h, "value");
        if name.Some? && value.Some? {
          headers := headers + [(name.value, value.value)];
        }
      case _ =>
    }
    assert items[..|items|] == items;
  }

  /** The `data` loop: insert each string-valued entry. */
  method CollectStrings(m: Members) returns (data: map<string, string>)
    ensures data == StringEntries(m)
  {
    data := map[];
    var todo := m.Keys;
    while todo != {}
      invariant todo <= m.Keys
      invariant data == map k | k in m.Keys - todo && m[k].String? :: m[k].text
      decreases todo
    {
      var key :| key in todo;
      match m[key] {
        case String(s) => data := data[key := s];
        case _ =>
      }
      todo := todo - {key};
    }
  }

  /** The body of the resource loop of `parse`, for one entry. */
  method ParseResource(e: JsonElement) returns (r: Result<Option<Resource>, ImportError>)
    ensures r == ParseEntry(e)
  {
    if !e.Object? {
      return Success(None);
    }
    var obj := e.members;
    var id :- GetString(obj, "_id");
    var name :- GetString(obj, "name");
    var parentId := GetOptionalString(obj, "parentId");
    var typ :- GetString(obj, "_type");
    var kind: ResourceType;
    if typ == "workspace" {
      kind := Workspace(GetOptionalString(obj, "description"));
    } else if typ == "request_group" {
      kind := RequestGroup(GetOptionalString(obj, "description"));
    } else if typ == "request" {
      var httpMethod :- GetString(obj, "method");
      var url :- GetString(obj, "url");
      var description := GetOptionalString(obj, "description");
      var headers := [];
      if "headers" in obj && obj["headers"].Array? {
        headers := CollectHeaders(obj["headers"].items);
      }
      kind := Request(httpMethod, url, headers, BodyText(obj), description);
    } else if typ == "environment" {
      var data := map[];
      if "data" in obj && obj["data"].Object? {
        data := CollectStrings(obj["data"].members);
      }
      kind := Environment(data);
    } else {
      return Success(None);
    }
    return Success(Some(Resource(id, name, parentId, kind)));
  }

  lemma EntriesFrom(items: seq<JsonElement>, i: nat)
    requires i < |items|
    ensures ParseEntries(items[i..]) ==
      match ParseEntry(items[i])
      case Failure(e) => Failure(e)
      case Success(o) => Prefixed(if o.Some? then [o.value] else [], ParseEntries(items[i + 1..]))
  {
    assert items[i..][0] == items[i];
    assert items[i..][1..] == items[i + 1..];
  }

  /** The resource loop of `parse`: stop at the first entry that fails. */
  method ParseResources(items: seq<JsonElement>) returns (r: Result<seq<Resource>, ImportError>)
    ensures r == ParseEntries(items)
  {
    var resources := [];
    assert items[0..] == items;
    PrefixedTwice([], [], ParseEntries(items));
    for i := 0 to |items|
      invariant ParseEntries(items) == Prefixed(resources, ParseEntries(items[i..]))
    {
      var entry := ParseResource(items[i]);
      EntriesFrom(items, i);
      match entry
      case Failure(e) =>
        return Failure(e);
      case Success(o) =>
        var found := if o.Some? then [o.value] else [];
        PrefixedTwice(resources, found, ParseEntries(items[i + 1..]));
        if o.Some? {
          resources := resources + [o.value];
        }
    }
    assert items[|items|..] == [];
    assert ParseEntries(items[|items|..]) == Success([]);
    assert resources + [] == resources;
    return Success(resources);
  }

  /** `parse`. */
  method Parse(content: string) returns (r: Result<Export, ImportError>)
    ensures r == ParseExport(content)
  {
    var json := Json.Parse(content);
    if json.Failure? {
      return Failure(ImportError.ParseError(Tokens.ErrorText(json.error)));
    }
    if !json.value.Object? {
      return Failure(InvalidFormat("Root must be an object"));
    }
    var obj := json.value.members;
    var version :- Version(obj);
    if version != "4" {
      return Failure(UnsupportedVersion("Insomnia v" + version + " (only v4 supported)"));
    }
    if "resources" !in obj {
      return Failure(MissingField("resources"));
    }
    var resourcesJson := obj["resources"];
    if !resourcesJson.Array? {
      return Failure(InvalidFormat("resources must be an array"));
    }
    var resources :- ParseResources(resourcesJson.items);
    return Success(Export(version, resources));
  }

  // ---------------------------------------------------------------------
  // `convert`
  // ---------------------------------------------------------------------

  /** The key a request or group is filed under: its parent, or the empty string without one. */
  function ParentKey(r: Resource): string {
    r.parentId.GetOr("")
  }

  /** The first pass's `workspaces`: id to name and description, a later workspace with the same id replacing an earlier one. */
  function WorkspaceMap(rs: seq<Resource>): map<string, (string, Option<string>)> {
    if |rs| == 0 then map[]
    else
      var w := WorkspaceMap(rs[..|rs| - 1]);
      var r := rs[|rs| - 1];
      match r.kind
      case Workspace(d) => w[r.id := (r.name, d)]
      case _ => w
  }

  /** The first pass's `requests_by_parent`: requests and groups filed under their parent key, in order. */
  function ByParent(rs: seq<Resource>): map<string, seq<Resource>> {
    if |rs| == 0 then map[]
    else
      var m := ByParent(rs[..|rs| - 1]);
      var r := rs[|rs| - 1];
      if r.kind.Request? || r.kind.RequestGroup? then
        var k := ParentKey(r);
        m[k := (if k in m then m[k] else []) + [r]]
      else m
  }

  /** A request resource as an imported request; any other resource gives none. */
  function AsImported(r: Resource): (q: seq<ImportedRequest>)
    ensures |q| == (if r.kind.Request? then 1 else 0)
  {
    match r.kind
    case Request(httpMethod, url, headers, body, description) =>
      [ImportedRequest(r.id, r.name, description, httpMethod, url, headers, body)]
    case _ => []
  }

  /** The imported requests of a filed list, in order. */
  function ImportedFrom(group: seq<Resource>): seq<ImportedRequest> {
    if |group| == 0 then [] else ImportedFrom(group[..|group| - 1]) + AsImported(group[|group| - 1])
  }

  /** The request resources of `rs` whose parent key is `id`, in order. */
  function RequestsUnder(rs: seq<Resource>, id: string): seq<ImportedRequest> {
    if |rs| == 0 then []
    else
      var r := rs[|rs| - 1];
      RequestsUnder(rs[..|rs| - 1], id) + (if r.kind.Request? && ParentKey(r) == id then AsImported(r) else [])
  }

  /** What is filed under `id`. */
  function Filed(rs: seq<Resource>, id: string): seq<Resource> {
    var m := ByParent(rs);
    if id in m then m[id] else []
  }

  /** The requests filed under a workspace id are the request resources whose parent is that id, in order. */
  lemma {:induction false} FiledRequests(rs: seq<Resource>, id: string)
    ensures ImportedFrom(Filed(rs, id)) == RequestsUnder(rs, id)
    decreases |rs|
  {
    if |rs| > 0 {
      var init := rs[..|rs| - 1];
      var r := rs[|rs| - 1];
      FiledRequests(init, id);
      if (r.kind.Request? || r.kind.RequestGroup?) && ParentKey(r) == id {
        var g := Filed(init, id);
        assert Filed(rs, id) == g + [r];
        assert (g + [r])[..|g + [r]| - 1] == g;
      }
    }
  }

  /**
   * A request lands in a workspace's collection iff it is a request
   * resource whose parent is that workspace: groups, their children and
   * environments never do.
   */
  lemma {:induction false} RequestsUnderExactly(rs: seq<Resource>, id: string, q: ImportedRequest)
    ensures q in RequestsUnder(rs, id) <==>
      exists i :: 0 <= i < |rs| && rs[i].kind.Request? && ParentKey(rs[i]) == id && AsImported(rs[i]) == [q]
    decreases |rs|
  {
    if |rs| > 0 {
      var init := rs[..|rs| - 1];
      RequestsUnderExactly(init, id, q);
      if q in RequestsUnder(init, id) {
        var i :| 0 <= i < |init| && init[i].kind.Request? && ParentKey(init[i]) == id && AsImported(init[i]) == [q];
        assert rs[i] == init[i];
      }
      if exists i :: 0 <= i < |rs| && rs[i].kind.Request? && ParentKey(rs[i]) == id && AsImported(rs[i]) == [q] {
        var i :| 0 <= i < |rs| && rs[i].kind.Request? && ParentKey(rs[i]) == id && AsImported(rs[i]) == [q];
        if i < |init| {
          assert init[i] == rs[i];
        }
      }
    }
  }

  /** A workspace id is a key iff some workspace resource carries it. */
  lemma {:induction false} WorkspaceKeys(rs: seq<Resource>, id: string)
    ensures id in WorkspaceMap(rs) <==> exists i :: 0 <= i < |rs| && rs[i].kind.Workspace? && rs[i].id == id
    decreases |rs|
  {
    if |rs| > 0 {
      var init := rs[..|rs| - 1];
      WorkspaceKeys(init, id);
      if id in WorkspaceMap(init) {
        var i :| 0 <= i < |init| && init[i].kind.Workspace? && init[i].id == id;
        assert rs[i] == init[i];
      }
      if exists i :: 0 <= i < |rs| && rs[i].kind.Workspace? && rs[i].id == id {
        var i :| 0 <= i < |rs| && rs[i].kind.Workspace? && rs[i].id == id;
        if i < |init| {
          assert init[i] == rs[i];
        }
      }
    }
  }

  /** The collection of workspace `id`: its name and description, and the requests under it. */
  function CollectionFor(rs: seq<Resource>, id: string): ImportedCollection
    requires id in WorkspaceMap(rs)
  {
    var (name, description) := WorkspaceMap(rs)[id];
    ImportedCollection(name, description, RequestsUnder(rs, id))
  }

  /**
   * `convert`, with the workspaces visited in `order` (the iteration order
   * of the `workspaces` map, which Rust leaves unspecified).
   */
  function Converted(source: Export, order: seq<string>): (r: seq<ImportedCollection>)
    requires Enumerates(order, WorkspaceMap(source.resources).Keys)
    ensures |r| == |order|
    ensures forall i :: 0 <= i < |order| ==>
      && r[i].requests == RequestsUnder(source.resources, order[i])
      && (r[i].name, r[i].description) == WorkspaceMap(source.resources)[order[i]]
  {
    seq(|order|, i requires 0 <= i < |order| => CollectionFor(source.resources, order[i]))
  }

  /**
   * `convert` makes exactly one collection per distinct workspace id, and the
   * collection of each id holds the requests under it.
   */
  lemma OnePerWorkspace(source: Export, order: seq<string>)
    requires Enumerates(order, WorkspaceMap(source.resources).Keys)
    ensures |Converted(source, order)| == |WorkspaceMap(source.resources).Keys|
    ensures forall id :: id in WorkspaceMap(source.resources) ==>
      exists i :: 0 <= i < |order| && Converted(source, order)[i].requests == RequestsUnder(source.resources, id)
                  && Converted(source, order)[i].name == WorkspaceMap(source.resources)[id].0
  {
    DistinctCount(order);
    assert (set k | k in order) == WorkspaceMap(source.resources).Keys;
    forall id | id in WorkspaceMap(source.resources)
      ensures exists i :: 0 <= i < |order| && Converted(source, order)[i].requests == RequestsUnder(source.resources, id)
                          && Converted(source, order)[i].name == WorkspaceMap(source.resources)[id].0
    {
      var i :| 0 <= i < |order| && order[i] == id;
      assert Converted(source, order)[i] == CollectionFor(source.resources, id);
    }
  }

  /** `convert`: file the resources, then build one collection per workspace. */
  method Convert(source: Export, order: seq<string>) returns (collections: seq<ImportedCollection>)
    requires Enumerates(order, WorkspaceMap(source.resources).Keys)
    ensures collections == Converted(source, order)
  {
    var rs := source.resources;
    var workspaces: map<string, (string, Option<string>)> := map[];
    var byParent: map<string, seq<Resource>> := map[];
    for i := 0 to |rs|
      invariant workspaces == WorkspaceMap(rs[..i])
      invariant byParent == ByParent(rs[..i])
    {
      var r := rs[i];
      assert rs[..i + 1][..i] == rs[..i];
      match r.kind
      case Workspace(description) =>
        workspaces := workspaces[r.id := (r.name, description)];
      case Environment(_) =>
      case _ =>
        var parent := r.parentId.GetOr("");
        var filed := if parent in byParent then byParent[parent] else [];
        byParent := byParent[parent := filed + [r]];
    }
    assert rs[..|rs|] == rs;
    collections := [];
    for j := 0 to |order|
      invariant collections == Converted(source, order)[..j]
    {
      var id := order[j];
      var (name, description) := workspaces[id];
      var requests := [];
      if id in byParent {
        var group := byParent[id];
        for k := 0 to |group|
          invariant requests == ImportedFrom(group[..k])
        {
          assert group[..k + 1][..k] == group[..k];
          match group[k].kind
          case Request(httpMethod, url, headers, body, reqDescription) =>
            requests := requests + [ImportedRequest(group[k].id, group[k].name, reqDescription, httpMethod, url, headers, body)];
          case _ =>
        }
        assert group[..|group|] == group;
      }
      FiledRequests(rs, id);
      collections := collections + [ImportedCollection(name, description, requests)];
      assert Converted(source, order)[..j + 1] == Converted(source, order)[..j] + [Converted(source, order)[j]];
    }
  }
}
