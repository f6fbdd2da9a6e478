/**
 * The HTTP request of saffron-core (`domain/request.rs`): the method, the
 * header list, the body variants, and the builder that takes a request by
 * value and hands back the updated one.
 */
module Request {
  import opened Wrappers
  import opened Strings
  import opened Machine

  datatype HttpMethod = Get | Post | Put | Patch | Delete | Head | Options {
    /** `as_str`: the method's name, in upper case. */
    function AsStr(): (r: string)
      ensures |r| >= 3 && forall i :: 0 <= i < |r| ==> IsAsciiUpper(r[i])
    {
      match this
      case Get => "GET"
      case Post => "POST"
      case Put => "PUT"
      case Patch => "PATCH"
      case Delete => "DELETE"
      case Head => "HEAD"
      case Options => "OPTIONS"
    }
  }

  /** No two methods share a name. */
  lemma AsStrInjective(m1: HttpMethod, m2: HttpMethod)
    requires m1.AsStr() == m2.AsStr()
    ensures m1 == m2
  {
    var s := m1.AsStr();
    assert s[0] == m2.AsStr()[0] && |s| == |m2.AsStr()|;
    if s[0] == 'P' && |s| == 4 {
      assert s[1] == m2.AsStr()[1];
    }
  }

  datatype HttpHeader = HttpHeader(name: string, value: string)

  /** `FormDataContent`: a text field or a file with its bytes. */
  datatype FormDataContent =
    | Text(text: string)
    | File(filename: string, data: seq<uint8>, contentType: Option<string>)

  datatype FormDataPart = FormDataPart(name: string, content: FormDataContent)

  /** `RequestBody`; its `None` variant is `NoBody` here. */
  datatype RequestBody =
    | NoBody
    | Text(text: string)
    | Json(json: string)
    | FormUrlEncoded(fields: map<string, string>)
    | FormData(parts: seq<FormDataPart>)
    | Binary(bytes: seq<uint8>)

  /** `h` is a header called `name`, ignoring ASCII case. */
  predicate Names(h: HttpHeader, name: string) {
    EqIgnoreAsciiCase(h.name, name)
  }

  /** The value of the first header of `hs` called `name`, ignoring ASCII case. */
  function FindHeader(hs: seq<HttpHeader>, name: string): (r: Option<string>)
    ensures r.None? <==> forall i :: 0 <= i < |hs| ==> !Names(hs[i], name)
    ensures r.Some? ==> exists i :: 0 <= i < |hs| && Names(hs[i], name) && hs[i].value == r.value &&
                          forall j :: 0 <= j < i ==> !Names(hs[j], name)
  {
    if |hs| == 0 then None
    else if Names(hs[0], name) then Some(hs[0].value)
    else
      var r := FindHeader(hs[1..], name);
      assert forall i :: 1 <= i < |hs| ==> hs[i] == hs[1..][i - 1];
      if r.Some? then
        var i :| 0 <= i < |hs[1..]| && Names(hs[1..][i], name) && hs[1..][i].value == r.value &&
                 forall j :: 0 <= j < i ==> !Names(hs[1..][j], name);
        assert forall j :: 0 <= j < i + 1 ==> !Names(hs[j], name) by {
          forall j | 0 <= j < i + 1 ensures !Names(hs[j], name) {
            if j > 0 {
              assert hs[j] == hs[1..][j - 1];
            }
          }
        }
        r
      else
        r
  }

  datatype HttpRequest = HttpRequest(
    httpMethod: HttpMethod,
    url: string,
    headers: seq<HttpHeader>,
    body: RequestBody,
    timeoutSeconds: Option<uint64>,
    followRedirects: bool)
  {
    /** `new`: no headers, no body, a 30 second timeout, redirects followed. */
    static function New(m: HttpMethod, url: string): (r: HttpRequest)
      ensures r.httpMethod == m && r.url == url
      ensures r.headers == [] && r.body == NoBody && r.timeoutSeconds == Some(30) && r.followRedirects
    {
      HttpRequest(m, url, [], NoBody, Some(30), true)
    }

    static function Get(url: string): (r: HttpRequest)
      ensures r == New(HttpMethod.Get, url)
    {
      New(HttpMethod.Get, url)
    }

    static function Post(url: string): (r: HttpRequest)
      ensures r == New(HttpMethod.Post, url)
    {
      New(HttpMethod.Post, url)
    }

    static function Put(url: string): (r: HttpRequest)
      ensures r == New(HttpMethod.Put, url)
    {
      New(HttpMethod.Put, url)
    }

    static function Patch(url: string): (r: HttpRequest)
      ensures r == New(HttpMethod.Patch, url)
    {
      New(HttpMethod.Patch, url)
    }

    static function Delete(url: string): (r: HttpRequest)
      ensures r == New(HttpMethod.Delete, url)
    {
      New(HttpMethod.Delete, url)
    }

    /** `Default`: a GET request with an empty URL. */
    static function Default(): (r: HttpRequest)
      ensures r.httpMethod == HttpMethod.Get && r.url == "" && r.headers == [] && r.body == NoBody
      ensures r.timeoutSeconds == Some(30) && r.followRedirects
    {
      Get("")
    }

    /**
     * `with_header`, and `add_header`, which pushes the same header onto the
     * list in place: one header appended after the others, nothing else changed.
     */
    function WithHeader(name: string, value: string): (r: HttpRequest)
      ensures r.headers == headers + [HttpHeader(name, value)]
      ensures r.(headers := headers) == this
    {
      this.(headers := headers + [HttpHeader(name, value)])
    }

    /** `with_headers`: the given headers appended in order. */
    function WithHeaders(hs: seq<HttpHeader>): (r: HttpRequest)
      ensures r.headers == headers + hs && r.(headers := headers) == this
    {
      this.(headers := headers + hs)
    }

    /** `with_body`: only the body is replaced. */
    function WithBody(b: RequestBody): (r: HttpRequest)
      ensures r.body == b && r.(body := body) == this
    {
      this.(body := b)
    }

    function WithJsonBody(json: string): (r: HttpRequest)
      ensures r == WithBody(Json(json))
    {
      this.(body := Json(json))
    }

    function WithTextBody(text: string): (r: HttpRequest)
      ensures r == WithBody(RequestBody.Text(text))
    {
      this.(body := RequestBody.Text(text))
    }

    /** `with_timeout`: only the timeout is replaced. */
    function WithTimeout(seconds: uint64): (r: HttpRequest)
      ensures r.timeoutSeconds == Some(seconds) && r.(timeoutSeconds := timeoutSeconds) == this
    {
      this.(timeoutSeconds := Some(seconds))
    }

    function WithoutTimeout(): (r: HttpRequest)
      ensures r.timeoutSeconds == None && r.(timeoutSeconds := timeoutSeconds) == this
    {
      this.(timeoutSeconds := None)
    }

    /** The builder `follow_redirects`: only the flag is replaced. */
    function FollowRedirects(follow: bool): (r: HttpRequest)
      ensures r.followRedirects == follow && r.(followRedirects := followRedirects) == this
    {
      this.(followRedirects := follow)
    }

    /** `get_header`: the value of the first header called `name`, ignoring ASCII case. */
    function GetHeader(name: string): (r: Option<string>)
      ensures r.None? <==> forall i :: 0 <= i < |headers| ==> !Names(headers[i], name)
      ensures r.Some? ==> exists i :: 0 <= i < |headers| && Names(headers[i], name) && headers[i].value == r.value &&
                            forall j :: 0 <= j < i ==> !Names(headers[j], name)
    {
      FindHeader(headers, name)
    }

    /** `content_type`: the `Content-Type` header, looked up under any spelling of its name. */
    function ContentType(): (r: Option<string>)
      ensures forall spelled :: EqIgnoreAsciiCase(spelled, "content-type") ==> r == GetHeader(spelled)
    {
      forall spelled | EqIgnoreAsciiCase(spelled, "content-type") {
        FindHeaderSpelling(headers, "Content-Type", spelled);
      }
      GetHeader("Content-Type")
    }
  }

  /** Names that differ only in ASCII case find the same header. */
  lemma {:induction false} FindHeaderSpelling(hs: seq<HttpHeader>, a: string, b: string)
    requires EqIgnoreAsciiCase(a, b)
    ensures FindHeader(hs, a) == FindHeader(hs, b)
  {
    if |hs| > 0 {
      assert Names(hs[0], a) <==> Names(hs[0], b);
      FindHeaderSpelling(hs[1..], a, b);
    }
  }

  /**
   * A header appended after the others is found only when no earlier header
   * has its name: the first match wins.
   */
  lemma {:induction false} FindHeaderAppend(hs: seq<HttpHeader>, h: HttpHeader, name: string)
    ensures FindHeader(hs + [h], name) ==
              if FindHeader(hs, name).Some? then FindHeader(hs, name)
              else if Names(h, name) then Some(h.value)
              else None
  {
    if |hs| > 0 {
      assert (hs + [h])[1..] == hs[1..] + [h];
      FindHeaderAppend(hs[1..], h, name);
    }
  }
}
