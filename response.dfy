/**
 * The HTTP response of saffron-core (`domain/response.rs`): status classes,
 * header queries that ignore ASCII case, the content-type tests, the
 * `Content-Length` number, and the body read as UTF-8 text.
 */
module Response {
  import opened Wrappers
  import opened Strings
  import opened Machine
  import opened Utf8

  /** No key occurs twice: the entries of a `HashMap`. */
  predicate DistinctKeys(entries: seq<(string, string)>) {
    forall i, j :: 0 <= i < j < |entries| ==> entries[i].0 != entries[j].0
  }

  /** A `HashMap<String, String>`, as its entries in the map's iteration order. */
  type HeaderMap = entries: seq<(string, string)> | DistinctKeys(entries) witness []

  /** The value of the first entry whose key is `name` ignoring ASCII case. */
  function FindEntry(entries: seq<(string, string)>, name: string): (r: Option<string>)
    ensures r.None? <==> forall i :: 0 <= i < |entries| ==> !EqIgnoreAsciiCase(entries[i].0, name)
    ensures r.Some? ==> exists i :: 0 <= i < |entries| && EqIgnoreAsciiCase(entries[i].0, name) &&
                          entries[i].1 == r.value && forall j :: 0 <= j < i ==> !EqIgnoreAsciiCase(entries[j].0, name)
  {
    if |entries| == 0 then None
    else if EqIgnoreAsciiCase(entries[0].0, name) then Some(entries[0].1)
    else
      var r := FindEntry(entries[1..], name);
      assert forall i :: 1 <= i < |entries| ==> entries[i] == entries[1..][i - 1];
      if r.Some? then
        var i :| 0 <= i < |entries[1..]| && EqIgnoreAsciiCase(entries[1..][i].0, name) && entries[1..][i].1 == r.value &&
                 forall j :: 0 <= j < i ==> !EqIgnoreAsciiCase(entries[1..][j].0, name);
        assert forall j :: 0 <= j < i + 1 ==> !EqIgnoreAsciiCase(entries[j].0, name) by {
          forall j | 0 <= j < i + 1 ensures !EqIgnoreAsciiCase(entries[j].0, name) {
            if j > 0 {
              assert entries[j] == entries[1..][j - 1];
            }
          }
        }
        r
      else
        r
  }

  /**
   * `usize::from_str`: an optional `+`, then one or more decimal digits whose
   * value fits in 64 bits.
   */
  function ParseUsize(s: string): (r: Option<nat>)
    ensures r.Some? ==> r.value <= USIZE_MAX && |s| > 0
  {
    var digits := if |s| >= 2 && s[0] == '+' then s[1..] else s;
    if |digits| > 0 && AllDigits(digits) && DigitsValue(digits) <= USIZE_MAX then Some(DigitsValue(digits))
    else None
  }

  /** Every `usize`, written in decimal, reads back as itself; so does it with a leading `+`. */
  lemma ParseUsizeDecimal(n: nat)
    requires n <= USIZE_MAX
    ensures ParseUsize(NatToString(n)) == Some(n)
    ensures ParseUsize("+" + NatToString(n)) == Some(n)
  {
    NatToStringValue(n);
    assert ("+" + NatToString(n))[1..] == NatToString(n);
  }

  /** A text that is not all digits (after an optional `+`) is no number. */
  lemma ParseUsizeRejects(s: string)
    requires exists i :: 0 <= i < |s| && !IsDigit(s[i]) && !(i == 0 && s[i] == '+' && |s| >= 2)
    ensures ParseUsize(s) == None
  {
    var i :| 0 <= i < |s| && !IsDigit(s[i]) && !(i == 0 && s[i] == '+' && |s| >= 2);
    if |s| >= 2 && s[0] == '+' {
      assert s[1..][i - 1] == s[i];
    }
  }

  datatype HttpResponse = HttpResponse(
    status: uint16,
    statusText: string,
    headers: HeaderMap,
    body: seq<uint8>,
    elapsedNanos: nat,
    url: string)
  {
    /** `new`: every field stored as given. */
    static function New(status: uint16, statusText: string, headers: HeaderMap, body: seq<uint8>,
                        elapsedNanos: nat, url: string): (r: HttpResponse)
      ensures r.status == status && r.statusText == statusText && r.headers == headers
      ensures r.body == body && r.elapsedNanos == elapsedNanos && r.url == url
    {
      HttpResponse(status, statusText, headers, body, elapsedNanos, url)
    }

    /** `is_success`: a 2xx status. */
    function IsSuccess(): (r: bool)
      ensures r <==> status / 100 == 2
    {
      200 <= status < 300
    }

    /** `is_redirect`: a 3xx status. */
    function IsRedirect(): (r: bool)
      ensures r <==> status / 100 == 3
    {
      300 <= status < 400
    }

    /** `is_client_error`: a 4xx status. */
    function IsClientError(): (r: bool)
      ensures r <==> status / 100 == 4
    {
      400 <= status < 500
    }

    /** `is_server_error`: a 5xx status. */
    function IsServerError(): (r: bool)
      ensures r <==> status / 100 == 5
    {
      500 <= status < 600
    }

    /** `get_header`: the value under `name` ignoring ASCII case, the first such key in iteration order. */
    function GetHeader(name: string): (r: Option<string>)
      ensures r.None? <==> forall i :: 0 <= i < |headers| ==> !EqIgnoreAsciiCase(headers[i].0, name)
      ensures r.Some? ==> exists i :: 0 <= i < |headers| && EqIgnoreAsciiCase(headers[i].0, name) && headers[i].1 == r.value
    {
      FindEntry(headers, name)
    }

    /** `content_type`: the value under `content-type`, ignoring ASCII case. */
    function ContentType(): (r: Option<string>)
      ensures r.None? <==> forall i :: 0 <= i < |headers| ==> !EqIgnoreAsciiCase(headers[i].0, "content-type")
      ensures forall spelled :: EqIgnoreAsciiCase(spelled, "content-type") ==> r == GetHeader(spelled)
    {
      forall spelled | EqIgnoreAsciiCase(spelled, "content-type") {
        FindEntrySpelling(headers, "content-type", spelled);
      }
      FindEntry(headers, "content-type")
    }

    /** `is_json`: the content type mentions `application/json`; false without one. */
    function IsJson(): (r: bool)
      ensures r <==> ContentType().Some? && Contains(ContentType().value, "application/json")
    {
      match ContentType()
      case Some(ct) => Contains(ct, "application/json")
      case None => false
    }

    /** `is_html`: the content type mentions `text/html`; false without one. */
    function IsHtml(): (r: bool)
      ensures r <==> ContentType().Some? && Contains(ContentType().value, "text/html")
    {
      match ContentType()
      case Some(ct) => Contains(ct, "text/html")
      case None => false
    }

    /** `is_xml`: the content type mentions `xml` anywhere; false without one. */
    function IsXml(): (r: bool)
      ensures r <==> ContentType().Some? && Contains(ContentType().value, "xml")
    {
      match ContentType()
      case Some(ct) => Contains(ct, "xml")
      case None => false
    }

    /** `content_length`: the `Content-Length` value read as a `usize`, `None` when absent or not a number. */
    function ContentLength(): (r: Option<nat>)
      ensures r.Some? ==> GetHeader("content-length").Some? && r == ParseUsize(GetHeader("content-length").value)
      ensures GetHeader("content-length").Some? ==> r == ParseUsize(GetHeader("content-length").value)
      ensures GetHeader("content-length").None? ==> r.None?
      ensures r.Some? ==> r.value <= USIZE_MAX
    {
      match GetHeader("content-length")
      case Some(v) => ParseUsize(v)
      case None => None
    }

    /** `body_as_str`: the body as text when it is valid UTF-8. */
    function BodyAsStr(): (r: Option<string>)
      ensures r.Some? ==> Encode(r.value) == body
      ensures forall s :: Encode(s) == body ==> r == Some(s)
    {
      assert Decode(body).Some? ==> Encode(Decode(body).value) == body by {
        if Decode(body).Some? {
          EncodeDecode(body);
        }
      }
      forall s | Encode(s) == body {
        DecodeEncode(s);
      }
      Decode(body)
    }

    /** `body_as_string`: the same test, the bytes handed back in the error when it fails. */
    function BodyAsString(): (r: Result<string, seq<uint8>>)
      ensures r.Success? <==> BodyAsStr().Some?
      ensures r.Success? ==> r.value == BodyAsStr().value
      ensures r.Failure? ==> r.error == body
    {
      match BodyAsStr()
      case Some(s) => Success(s)
      case None => Failure(body)
    }
  }

  /** Names that differ only in ASCII case find the same entry. */
  lemma {:induction false} FindEntrySpelling(entries: seq<(string, string)>, a: string, b: string)
    requires EqIgnoreAsciiCase(a, b)
    ensures FindEntry(entries, a) == FindEntry(entries, b)
  {
    if |entries| > 0 {
      assert EqIgnoreAsciiCase(entries[0].0, a) <==> EqIgnoreAsciiCase(entries[0].0, b);
      FindEntrySpelling(entries[1..], a, b);
    }
  }

  /**
   * The status classes are the ranges [200,300), [300,400), [400,500) and
   * [500,600): at most one holds, and none holds outside [200,600).
   */
  lemma StatusClasses(r: HttpResponse)
    ensures (if r.IsSuccess() then 1 else 0) + (if r.IsRedirect() then 1 else 0) +
            (if r.IsClientError() then 1 else 0) + (if r.IsServerError() then 1 else 0) ==
            (if 200 <= r.status < 600 then 1 else 0)
  {
  }

  /** Both XML media types, `application/xml` and `text/xml`, count as XML. */
  lemma XmlMediaTypes(r: HttpResponse)
    requires r.ContentType().Some?
    requires Contains(r.ContentType().value, "application/xml") || Contains(r.ContentType().value, "text/xml")
    ensures r.IsXml()
  {
    var ct := r.ContentType().value;
    XmlInXmlTypes();
    if Contains(ct, "application/xml") {
      ContainsTransitive(ct, "application/xml", "xml");
    } else {
      ContainsTransitive(ct, "text/xml", "xml");
    }
  }

  lemma XmlInXmlTypes()
    ensures Contains("application/xml", "xml") && Contains("text/xml", "xml")
  {
    var m, t := "application/xml", "text/xml";
    assert m[12] == 'x' && m[13] == 'm' && m[14] == 'l';
    assert m[12..15] == "xml";
    assert OccursAt(m, "xml", 12);
    assert t[5] == 'x' && t[6] == 'm' && t[7] == 'l';
    assert t[5..8] == "xml";
    assert OccursAt(t, "xml", 5);
  }
}
