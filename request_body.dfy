/**
 * Body helpers of saffron-core (`domain/request_body.rs`): the MIME type of
 * each content type and its recognition from a header value, and the
 * `application/x-www-form-urlencoded` encoding of a form.
 */
module RequestBodies {
  import opened Strings

  datatype ContentType = Json | Xml | Text | FormUrlEncoded | FormData | Binary | Custom(mime: string) {
    /** `as_mime_type` (and `Display`): a fixed MIME type per variant; a custom one is given back as it is. */
    function AsMimeType(): (r: string)
      ensures Custom? ==> r == mime
      ensures !Custom? ==> |r| > 0
    {
      match this
      case Json => "application/json"
      case Xml => "application/xml"
      case Text => "text/plain"
      case FormUrlEncoded => "application/x-www-form-urlencoded"
      case FormData => "multipart/form-data"
      case Binary => "application/octet-stream"
      case Custom(m) => m
    }
  }

  /**
   * `from_mime_type`: the first of json, xml (`application/xml` or
   * `text/xml`), plain text, url-encoded form, multipart form and octet
   * stream that the lower-cased text mentions; otherwise the text itself, as
   * given, as a custom type.
   */
  function FromMimeType(mime: string): (r: ContentType)
    ensures r.Custom? ==> r.mime == mime
    ensures r.Json? <==> Contains(LowerCase(mime), "application/json")
  {
    var s := LowerCase(mime);
    if Contains(s, "application/json") then Json
    else if Contains(s, "application/xml") || Contains(s, "text/xml") then Xml
    else if Contains(s, "text/plain") then Text
    else if Contains(s, "application/x-www-form-urlencoded") then FormUrlEncoded
    else if Contains(s, "multipart/form-data") then FormData
    else if Contains(s, "application/octet-stream") then Binary
    else Custom(mime)
  }

  /** Recognition ignores ASCII case: only a custom type's text keeps the spelling it was given. */
  lemma FromMimeTypeIgnoresCase(a: string, b: string)
    requires EqIgnoreAsciiCase(a, b)
    ensures FromMimeType(a).Custom? == FromMimeType(b).Custom?
    ensures !FromMimeType(a).Custom? ==> FromMimeType(a) == FromMimeType(b)
  {
    LowerCaseIgnoresAsciiCase(a, b);
  }

  /**
   * Every fixed MIME type is recognised as the variant that names it. (The
   * proofs keep the MIME text behind `AsMimeType()`, so that the verifier
   * does not evaluate `LowerCase` on a literal char by char.)
   */
  lemma MimeTypeRoundTrip(c: ContentType)
    requires !c.Custom?
    ensures FromMimeType(c.AsMimeType()) == c
  {
    match c
    case Json => JsonRecognised(c);
    case Xml => XmlRecognised(c);
    case Text => TextRecognised(c);
    case FormUrlEncoded => FormUrlEncodedRecognised(c);
    case FormData => FormDataRecognised(c);
    case Binary => BinaryRecognised(c);
  }

  /** The MIME text of a fixed content type is its own lower case, and holds itself. */
  lemma Lowered(c: ContentType)
    requires !c.Custom?
    requires forall i :: 0 <= i < |c.AsMimeType()| ==> LowerFixed(c.AsMimeType()[i])
    ensures LowerCase(c.AsMimeType()) == c.AsMimeType() && Contains(c.AsMimeType(), c.AsMimeType())
  {
    LowerCaseFixed(c.AsMimeType());
    assert OccursAt(c.AsMimeType(), c.AsMimeType(), 0);
  }

  lemma JsonRecognised(c: ContentType)
    requires c.Json?
    ensures FromMimeType(c.AsMimeType()) == c
  {
    var m := c.AsMimeType();
    assert forall i :: 0 <= i < |m| ==> LowerFixed(m[i]);
    Lowered(c);
  }

  lemma XmlRecognised(c: ContentType)
    requires c.Xml?
    ensures FromMimeType(c.AsMimeType()) == c
  {
    var m := c.AsMimeType();
    assert forall i :: 0 <= i < |m| ==> LowerFixed(m[i]);
    Lowered(c);
    XmlNotEarlier();
  }

  lemma TextRecognised(c: ContentType)
    requires c.Text?
    ensures FromMimeType(c.AsMimeType()) == c
  {
    var m := c.AsMimeType();
    assert forall i :: 0 <= i < |m| ==> LowerFixed(m[i]);
    Lowered(c);
    TextNotEarlier();
  }

  lemma FormUrlEncodedRecognised(c: ContentType)
    requires c.FormUrlEncoded?
    ensures FromMimeType(c.AsMimeType()) == c
  {
    var m := c.AsMimeType();
    assert forall i :: 0 <= i < |m| ==> LowerFixed(m[i]);
    Lowered(c);
    FormUrlEncodedNotEarlier();
  }

  lemma FormDataRecognised(c: ContentType)
    requires c.FormData?
    ensures FromMimeType(c.AsMimeType()) == c
  {
    var m := c.AsMimeType();
    assert forall i :: 0 <= i < |m| ==> LowerFixed(m[i]);
    Lowered(c);
    FormDataNotEarlier();
  }

  lemma BinaryRecognised(c: ContentType)
    requires c.Binary?
    ensures FromMimeType(c.AsMimeType()) == c
  {
    var m := c.AsMimeType();
    assert forall i :: 0 <= i < |m| ==> LowerFixed(m[i]);
    Lowered(c);
    BinaryNotEarlier();
  }

  lemma XmlNotEarlier()
    ensures !Contains("application/xml", "application/json")
  {
  }

  lemma TextNotEarlier()
    ensures !Contains("text/plain", "application/json")
    ensures !Contains("text/plain", "application/xml") && !Contains("text/plain", "text/xml")
  {
    NotContainsMissing("text/plain", "application/xml", 13);
    NotContainsMissing("text/plain", "text/xml", 6);
  }

  lemma FormUrlEncodedNotEarlier()
    ensures !Contains("application/x-www-form-urlencoded", "application/json")
    ensures !Contains("application/x-www-form-urlencoded", "application/xml")
    ensures !Contains("application/x-www-form-urlencoded", "text/xml")
    ensures !Contains("application/x-www-form-urlencoded", "text/plain")
  {
    NotContainsMissing("application/x-www-form-urlencoded", "application/json", 12);
    FormUrlEncodedNotXml();
    FormUrlEncodedNotPlain();
  }

  lemma FormUrlEncodedNotXml()
    ensures !Contains("application/x-www-form-urlencoded", "application/xml")
    ensures !Contains("application/x-www-form-urlencoded", "text/xml")
  {
    var s := "application/x-www-form-urlencoded";
    assert forall j :: 0 <= j < |s| && j != 11 ==> s[j] != '/';
    NotContainsAligned(s, "application/xml", 11, 11, 13);
    NotContainsAligned(s, "text/xml", 11, 4, 1);
  }

  lemma FormUrlEncodedNotPlain()
    ensures !Contains("application/x-www-form-urlencoded", "text/plain")
  {
    var s := "application/x-www-form-urlencoded";
    assert forall j :: 0 <= j < |s| && j != 11 ==> s[j] != '/';
    NotContainsAligned(s, "text/plain", 11, 4, 1);
  }

  lemma FormDataNotEarlier()
    ensures !Contains("multipart/form-data", "application/json")
    ensures !Contains("multipart/form-data", "application/xml") && !Contains("multipart/form-data", "text/xml")
    ensures !Contains("multipart/form-data", "text/plain")
    ensures !Contains("multipart/form-data", "application/x-www-form-urlencoded")
  {
    var s := "multipart/form-data";
    NotContainsMissing(s, "application/json", 12);
    NotContainsMissing(s, "application/xml", 12);
    NotContainsMissing(s, "text/xml", 5);
    FormDataNotPlain();
  }

  lemma FormDataNotPlain()
    ensures !Contains("multipart/form-data", "text/plain")
  {
    var s := "multipart/form-data";
    assert forall j :: 0 <= j < |s| && j != 9 ==> s[j] != '/';
    NotContainsAligned(s, "text/plain", 9, 4, 0);
  }

  lemma BinaryNotEarlier()
    ensures !Contains("application/octet-stream", "application/json")
    ensures !Contains("application/octet-stream", "application/xml") && !Contains("application/octet-stream", "text/xml")
    ensures !Contains("application/octet-stream", "text/plain")
    ensures !Contains("application/octet-stream", "application/x-www-form-urlencoded")
    ensures !Contains("application/octet-stream", "multipart/form-data")
  {
    BinaryNotJsonOrXml();
    BinaryNotPlain();
    NotContainsMissing("application/octet-stream", "application/x-www-form-urlencoded", 12);
    NotContainsMissing("application/octet-stream", "multipart/form-data", 1);
  }

  lemma BinaryNotJsonOrXml()
    ensures !Contains("application/octet-stream", "application/json")
    ensures !Contains("application/octet-stream", "application/xml") && !Contains("application/octet-stream", "text/xml")
  {
    var s := "application/octet-stream";
    NotContainsMissing(s, "application/json", 12);
    NotContainsMissing(s, "application/xml", 12);
    NotContainsMissing(s, "text/xml", 5);
  }

  lemma BinaryNotPlain()
    ensures !Contains("application/octet-stream", "text/plain")
  {
    var s := "application/octet-stream";
    assert forall j :: 0 <= j < |s| && j != 11 ==> s[j] != '/';
    NotContainsAligned(s, "text/plain", 11, 4, 1);
  }

  /** The unreserved chars of section 2.3 of RFC 3986: ASCII letters and digits, `-`, `_`, `.` and `~`. */
  predicate IsUnreserved(c: char) {
    IsAlphaNumeric(c) || c == '-' || c == '_' || c == '.' || c == '~'
  }

  /** A hexadecimal digit as `{:02X}` writes it: `0`..`9` or `A`..`F`. */
  predicate IsHexUpper(c: char) {
    IsDigit(c) || 'A' <= c <= 'F'
  }

  function HexDigit(d: nat): (r: char)
    requires d < 16
    ensures IsHexUpper(r)
  {
    if d < 10 then ('0' as int + d) as char else ('A' as int + d - 10) as char
  }

  function HexValue(c: char): (d: nat)
    requires IsHexUpper(c)
    ensures d < 16 && HexDigit(d) == c
  {
    if IsDigit(c) then c as int - '0' as int else c as int - 'A' as int + 10
  }

  /**
   * `urlencoding::encode` for one char: an unreserved char stays, a space
   * becomes `+`, and any other char becomes `%` and two upper-case hex
   * digits of `c as u8`, the low eight bits of its code point.
   */
  function EscapeChar(c: char): (r: string)
    ensures |r| == 1 <==> IsUnreserved(c) || c == ' '
    ensures |r| == 1 || |r| == 3
    ensures |r| == 3 ==> r[0] == '%' && IsHexUpper(r[1]) && IsHexUpper(r[2])
    ensures forall i :: 0 <= i < |r| ==> IsUnreserved(r[i]) || r[i] == '+' || r[i] == '%'
  {
    if IsUnreserved(c) then [c]
    else if c == ' ' then "+"
    else
      var b := c as int % 256;
      ['%', HexDigit(b / 16), HexDigit(b % 16)]
  }

  /** `urlencoding::encode`: each char escaped on its own, in order. */
  function Escape(s: string): (r: string)
    ensures |s| <= |r| <= 3 * |s|
    ensures forall i :: 0 <= i < |r| ==> IsUnreserved(r[i]) || r[i] == '+' || r[i] == '%'
  {
    if |s| == 0 then ""
    else
      var head, tail := EscapeChar(s[0]), Escape(s[1..]);
      assert forall i :: |head| <= i < |head + tail| ==> (head + tail)[i] == tail[i - |head|];
      head + tail
  }

  /** The char `c as u8` denotes: the low eight bits of the code point, read as Latin-1. */
  function LowByte(c: char): char {
    (c as int % 256) as char
  }

  function LowBytes(s: string): (r: string)
    ensures |r| == |s|
  {
    if |s| == 0 then "" else [LowByte(s[0])] + LowBytes(s[1..])
  }

  /** Form decoding: `+` is a space, `%XX` the char with that code, anything else itself. */
  function Unescape(t: string): string
    decreases |t|
  {
    if |t| == 0 then ""
    else if t[0] == '+' then " " + Unescape(t[1..])
    else if t[0] == '%' && |t| >= 3 && IsHexUpper(t[1]) && IsHexUpper(t[2]) then
      [(HexValue(t[1]) * 16 + HexValue(t[2])) as char] + Unescape(t[3..])
    else [t[0]] + Unescape(t[1..])
  }

  lemma UnescapeEscapeChar(c: char, rest: string)
    ensures Unescape(EscapeChar(c) + rest) == [LowByte(c)] + Unescape(rest)
  {
    var e := EscapeChar(c);
    if |e| == 1 {
      assert (e + rest)[1..] == rest;
    } else {
      var b := c as int % 256;
      assert (e + rest)[3..] == rest;
      assert HexValue(e[1]) == b / 16 && HexValue(e[2]) == b % 16;
    }
  }

  /**
   * Decoding an encoding gives back every char's low eight bits: the text
   * itself when all its chars are below U+0100, and for any other char only
   * what `c as u8` kept of it.
   */
  lemma {:induction false} UnescapeEscape(s: string)
    ensures Unescape(Escape(s)) == LowBytes(s)
  {
    if |s| > 0 {
      UnescapeEscapeChar(s[0], Escape(s[1..]));
      UnescapeEscape(s[1..]);
    }
  }

  lemma {:induction false} LowBytesLatin1(s: string)
    requires forall i :: 0 <= i < |s| ==> s[i] as int < 256
    ensures LowBytes(s) == s
  {
    if |s| > 0 {
      LowBytesLatin1(s[1..]);
      assert [s[0]] + s[1..] == s;
    }
  }

  /** Escaped chars that agree in their low eight bits encode alike: `!` and U+0121 both become `%21`. */
  lemma EscapeKeepsLowByte(c: char, d: char)
    requires c as int % 256 == d as int % 256 && !IsUnreserved(c) && !IsUnreserved(d) && c != ' ' && d != ' '
    ensures EscapeChar(c) == EscapeChar(d)
  {
  }

  /** One `key=value` pair of the form, both sides escaped. */
  function FormPair(key: string, value: string): (r: string)
    ensures '&' !in r
  {
    var r := Escape(key) + "=" + Escape(value);
    assert forall i :: 0 <= i < |r| ==> r[i] != '&';
    r
  }

  /**
   * `encode_form_urlencoded`: the escaped pairs in the map's iteration
   * order `order`, joined with `&`.
   */
  function EncodeFormUrlencoded(data: map<string, string>, order: seq<string>): (r: string)
    requires Enumerates(order, data.Keys)
    ensures |data| == 0 ==> r == ""
    ensures |data| > 0 ==> CountChar(r, '&') == |data| - 1
    ensures |data| > 0 ==> SplitOn(r, '&') == seq(|order|, i requires 0 <= i < |order| => FormPair(order[i], data[order[i]]))
  {
    EnumeratesCount(order, data.Keys);
    var pairs := seq(|order|, i requires 0 <= i < |order| => FormPair(order[i], data[order[i]]));
    JoinCount(pairs, '&');
    SplitJoin(pairs, '&');
    Join(pairs, "&")
  }

  /**
   * A form field read back: cut at its first `=`, the two sides decode to
   * the key and the value, each char reduced to its low byte.
   */
  lemma FormPairFields(key: string, value: string)
    ensures var p := FormPair(key, value);
      && IndexOf(p, '=').Some?
      && Unescape(p[..IndexOf(p, '=').value]) == LowBytes(key)
      && Unescape(p[IndexOf(p, '=').value + 1..]) == LowBytes(value)
  {
    var k, v := Escape(key), Escape(value);
    var p := k + "=" + v;
    assert '=' !in k by {
      forall i | 0 <= i < |k| ensures k[i] != '=' {
        assert IsUnreserved(k[i]) || k[i] == '+' || k[i] == '%';
      }
    }
    assert p[|k|] == '=' && p[..|k|] == k && p[|k| + 1..] == v;
    IndexOfFirst(p, '=', |k|);
    UnescapeEscape(key);
    UnescapeEscape(value);
  }
}
