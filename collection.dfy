/**
 * Collections of saffron-core (`domain/collection.rs`): saved requests in
 * their serialisable form, folders nesting requests and further folders,
 * and the collection that owns them; a request is found by id in the order
 * the collection lists its own requests and then its folders, depth first.
 */
module Collections {
  import opened Wrappers
  import opened Strings
  import opened Machine
  import opened Request

  /** `SerializableRequest`: a request as it is stored, the method kept as text. */
  datatype SerializableRequest = SerializableRequest(
    httpMethod: string,
    url: string,
    headers: seq<(string, string)>,
    body: Option<string>,
    timeoutSeconds: Option<uint64>)
  {
    /**
     * `from_request`: the method's name, the headers as pairs, a text or JSON
     * body as its text (any other body is dropped), the timeout as it is.
     */
    static function FromRequest(req: HttpRequest): (r: SerializableRequest)
      ensures r.httpMethod == req.httpMethod.AsStr() && r.url == req.url
      ensures HeadersOf(r.headers) == req.headers
      ensures r.body.Some? <==> req.body.Text? || req.body.Json?
      ensures req.body.Text? ==> r.body == Some(req.body.text)
      ensures req.body.Json? ==> r.body == Some(req.body.json)
      ensures r.timeoutSeconds == req.timeoutSeconds
    {
      HeadersPairs(req.headers);
      SerializableRequest(
        req.httpMethod.AsStr(),
        req.url,
        PairsOf(req.headers),
        match req.body
        case Text(t) => Some(t)
        case Json(j) => Some(j)
        case _ => None,
        req.timeoutSeconds)
    }

    /**
     * `to_http_request`: a new request for the parsed method and the url,
     * each stored header added in order, the body (if any) as text and the
     * timeout (if any) over the default one.
     */
    method ToHttpRequest() returns (r: HttpRequest)
      ensures r == Restored(this)
    {
      var start := HttpRequest.New(MethodFromName(httpMethod), url);
      r := start;
      for i := 0 to |headers|
        invariant r == start.WithHeaders(HeadersOf(headers[..i]))
      {
        assert headers[..i + 1] == headers[..i] + [headers[i]];
        HeadersOfAppend(headers[..i], headers[i]);
        r := r.WithHeader(headers[i].0, headers[i].1);
      }
      assert headers[..|headers|] == headers;
      if body.Some? {
        r := r.(body := RequestBody.Text(body.value));
      }
      if timeoutSeconds.Some? {
        r := r.(timeoutSeconds := timeoutSeconds);
      }
    }
  }

  /** The pairs as headers, in order. */
  function HeadersOf(pairs: seq<(string, string)>): (r: seq<HttpHeader>)
    ensures |r| == |pairs|
    ensures forall i :: 0 <= i < |pairs| ==> r[i].name == pairs[i].0 && r[i].value == pairs[i].1
  {
    if |pairs| == 0 then [] else [HttpHeader(pairs[0].0, pairs[0].1)] + HeadersOf(pairs[1..])
  }

  /** The headers as pairs, in order. */
  function PairsOf(hs: seq<HttpHeader>): (r: seq<(string, string)>)
    ensures |r| == |hs|
    ensures forall i :: 0 <= i < |hs| ==> r[i] == (hs[i].name, hs[i].value)
  {
    if |hs| == 0 then [] else [(hs[0].name, hs[0].value)] + PairsOf(hs[1..])
  }

  /** Headers and pairs convert into each other without loss. */
  lemma HeadersPairs(hs: seq<HttpHeader>)
    ensures HeadersOf(PairsOf(hs)) == hs
  {
    assert forall i :: 0 <= i < |hs| ==> HeadersOf(PairsOf(hs))[i] == hs[i];
  }

  lemma PairsHeaders(pairs: seq<(string, string)>)
    ensures PairsOf(HeadersOf(pairs)) == pairs
  {
    assert forall i :: 0 <= i < |pairs| ==> PairsOf(HeadersOf(pairs))[i] == pairs[i];
  }

  lemma HeadersOfAppend(pairs: seq<(string, string)>, p: (string, string))
    ensures HeadersOf(pairs + [p]) == HeadersOf(pairs) + [HttpHeader(p.0, p.1)]
  {
    assert forall i :: 0 <= i < |pairs| + 1 ==> HeadersOf(pairs + [p])[i] == (HeadersOf(pairs) + [HttpHeader(p.0, p.1)])[i];
  }

  /**
   * The method a stored name stands for: its upper case compared with the
   * seven names, anything else read as `GET`.
   */
  function MethodFromName(name: string): (r: HttpMethod)
    ensures forall m: HttpMethod :: UpperCase(name) == m.AsStr() ==> r == m
    ensures r != HttpMethod.Get ==> UpperCase(name) == r.AsStr()
  {
    var u := UpperCase(name);
    var r :=
      if u == HttpMethod.Post.AsStr() then HttpMethod.Post
      else if u == HttpMethod.Put.AsStr() then HttpMethod.Put
      else if u == HttpMethod.Patch.AsStr() then HttpMethod.Patch
      else if u == HttpMethod.Delete.AsStr() then HttpMethod.Delete
      else if u == HttpMethod.Head.AsStr() then HttpMethod.Head
      else if u == HttpMethod.Options.AsStr() then HttpMethod.Options
      else HttpMethod.Get;
    assert forall m: HttpMethod :: u == m.AsStr() ==> r == m by {
      forall m: HttpMethod | u == m.AsStr() ensures r == m {
        if r != HttpMethod.Get {
          AsStrInjective(r, m);
        }
      }
    }
    r
  }

  /** A method's name, spelled in any ASCII case, reads back as that method. */
  lemma MethodFromNameIgnoresCase(name: string, m: HttpMethod)
    requires EqIgnoreAsciiCase(name, m.AsStr())
    ensures MethodFromName(name) == m
  {
    UpperCaseIgnoresAsciiCase(name, m.AsStr());
    UpperCaseFixed(m.AsStr());
  }

  /** The request `to_http_request` builds from a stored one. */
  function Restored(s: SerializableRequest): (r: HttpRequest)
    ensures r.httpMethod == MethodFromName(s.httpMethod) && r.url == s.url && r.headers == HeadersOf(s.headers)
    ensures r.body == (if s.body.Some? then RequestBody.Text(s.body.value) else NoBody)
    ensures r.timeoutSeconds == (if s.timeoutSeconds.Some? then s.timeoutSeconds else Some(30))
    ensures r.followRedirects
  {
    var built := HttpRequest.New(MethodFromName(s.httpMethod), s.url).WithHeaders(HeadersOf(s.headers));
    var withBody := if s.body.Some? then built.(body := RequestBody.Text(s.body.value)) else built;
    if s.timeoutSeconds.Some? then withBody.(timeoutSeconds := s.timeoutSeconds) else withBody
  }

  /** What storing keeps of a body: text, JSON read back as text, nothing of any other. */
  function StoredBody(b: RequestBody): (r: RequestBody)
    ensures r.NoBody? || r.Text?
  {
    match b
    case Text(t) => RequestBody.Text(t)
    case Json(j) => RequestBody.Text(j)
    case _ => NoBody
  }

  /**
   * Storing and restoring a request gives it back, except that a JSON body
   * comes back as text, a form or binary body is lost, a missing timeout
   * becomes the 30 second default and redirects are followed again.
   */
  lemma StoreRestore(req: HttpRequest)
    ensures Restored(SerializableRequest.FromRequest(req)) ==
      req.(body := StoredBody(req.body),
           timeoutSeconds := if req.timeoutSeconds.None? then Some(30) else req.timeoutSeconds,
           followRedirects := true)
  {
    EqIgnoreAsciiCaseReflexive(req.httpMethod.AsStr());
    MethodFromNameIgnoresCase(req.httpMethod.AsStr(), req.httpMethod);
  }

  /**
   * Restoring and storing again gives back the stored request, except that
   * the method's name is normalised and a missing timeout becomes 30 seconds.
   */
  lemma RestoreStore(s: SerializableRequest)
    ensures SerializableRequest.FromRequest(Restored(s)) ==
      s.(httpMethod := MethodFromName(s.httpMethod).AsStr(),
         timeoutSeconds := if s.timeoutSeconds.None? then Some(30) else s.timeoutSeconds)
  {
    PairsHeaders(s.headers);
  }

  /** `SavedRequest`: a stored request with its id, name and optional description. */
  datatype SavedRequest = SavedRequest(id: string, name: string, description: Option<string>, request: SerializableRequest)
  {
    /** `SavedRequest::new`: the request in stored form, no description. */
    static function New(id: string, name: string, req: HttpRequest): (r: SavedRequest)
      ensures r.id == id && r.name == name && r.description == None
      ensures r.request == SerializableRequest.FromRequest(req)
    {
      SavedRequest(id, name, None, SerializableRequest.FromRequest(req))
    }

    function WithDescription(d: string): (r: SavedRequest)
      ensures r.description == Some(d) && r.(description := description) == this
    {
      this.(description := Some(d))
    }

    /** `to_http_request`: the stored request restored. */
    method ToHttpRequest() returns (r: HttpRequest)
      ensures r == Restored(request)
    {
      r := request.ToHttpRequest();
    }
  }

  /** The first request in `rs` with the given id, as `iter().find` returns it. */
  function FindIn(rs: seq<SavedRequest>, id: string): (r: Option<SavedRequest>)
    ensures r.None? <==> forall i :: 0 <= i < |rs| ==> rs[i].id != id
    ensures r.Some? ==> exists i :: 0 <= i < |rs| && rs[i] == r.value && r.value.id == id &&
                                    (forall j :: 0 <= j < i ==> rs[j].id != id)
  {
    if |rs| == 0 then None
    else if rs[0].id == id then Some(rs[0])
    else
      var r := FindIn(rs[1..], id);
      assert r.Some? ==> exists i :: 0 <= i < |rs| && rs[i] == r.value && r.value.id == id &&
                                       (forall j :: 0 <= j < i ==> rs[j].id != id) by {
        if r.Some? {
          var i :| 0 <= i < |rs[1..]| && rs[1..][i] == r.value && r.value.id == id &&
            (forall j :: 0 <= j < i ==> rs[1..][j].id != id);
          assert forall j :: 0 <= j < i + 1 ==> rs[j].id != id by {
            forall j | 0 <= j < i + 1 ensures rs[j].id != id {
              if j > 0 { assert rs[j] == rs[1..][j - 1]; }
            }
          }
        }
      }
      r
  }

  /** Searching two lists one after the other is searching their concatenation. */
  lemma {:induction false} FindInAppend(a: seq<SavedRequest>, b: seq<SavedRequest>, id: string)
    ensures FindIn(a + b, id) == if FindIn(a, id).Some? then FindIn(a, id) else FindIn(b, id)
  {
    if |a| > 0 {
      assert (a + b)[0] == a[0];
      assert (a + b)[1..] == a[1..] + b;
      FindInAppend(a[1..], b, id);
    } else {
      assert a + b == b;
    }
  }

  /** `Folder`: a name, an optional description, requests and nested folders. */
  datatype Folder = Folder(name: string, description: Option<string>, requests: seq<SavedRequest>, folders: seq<Folder>)
  {
    /** `Folder::new`: empty, no description. */
    static function New(name: string): (r: Folder)
      ensures r.name == name && r.description == None && r.requests == [] && r.folders == []
    {
      Folder(name, None, [], [])
    }

    function WithDescription(d: string): (r: Folder)
      ensures r.description == Some(d) && r.(description := description) == this
    {
      this.(description := Some(d))
    }

    /** `add_request`: the request goes last; nothing else changes. */
    function AddRequest(req: SavedRequest): (r: Folder)
      ensures r.requests == requests + [req] && r.(requests := requests) == this
    {
      this.(requests := requests + [req])
    }

    /** `add_folder`: the folder goes last; nothing else changes. */
    function AddFolder(f: Folder): (r: Folder)
      ensures r.folders == folders + [f] && r.(folders := folders) == this
    {
      this.(folders := folders + [f])
    }

    /** Every request of the folder, depth first: its own, then each sub-folder's. */
    function AllRequests(): seq<SavedRequest>
      decreases this, 1
    {
      requests + AllIn(folders)
    }

    /** `find_request`: the first request with the id, depth first. */
    function FindRequest(id: string): (r: Option<SavedRequest>)
      ensures r == FindIn(AllRequests(), id)
      decreases this, 1
    {
      FindInAppend(requests, AllIn(folders), id);
      match FindIn(requests, id)
      case Some(found) => Some(found)
      case None => FindInFolders(folders, id)
    }
  }

  /** The requests of the folders, each folder's depth first, in order. */
  function AllIn(fs: seq<Folder>): seq<SavedRequest>
    decreases fs, 0
  {
    if |fs| == 0 then [] else fs[0].AllRequests() + AllIn(fs[1..])
  }

  /** `iter().find_map(|f| f.find_request(id))`: the first folder's match. */
  function FindInFolders(fs: seq<Folder>, id: string): (r: Option<SavedRequest>)
    ensures r == FindIn(AllIn(fs), id)
    decreases fs, 0
  {
    if |fs| == 0 then None
    else
      FindInAppend(fs[0].AllRequests(), AllIn(fs[1..]), id);
      match fs[0].FindRequest(id)
      case Some(found) => Some(found)
      case None => FindInFolders(fs[1..], id)
  }

  /** `Collection`: a name, an optional description, folders and requests, updated in place. */
  class Collection {
    var name: string
    var description: Option<string>
    var folders: seq<Folder>
    var requests: seq<SavedRequest>

    /** `Collection::new`: empty, no description. */
    constructor(name: string)
      ensures this.name == name && description == None && folders == [] && requests == []
    {
      this.name := name;
      description := None;
      folders := [];
      requests := [];
    }

    /** `with_description`: sets the description and keeps everything else. */
    method WithDescription(d: string)
      modifies this
      ensures description == Some(d)
      ensures name == old(name) && folders == old(folders) && requests == old(requests)
    {
      description := Some(d);
    }

    /** `add_request`: the request goes last. */
    method AddRequest(req: SavedRequest)
      modifies this
      ensures requests == old(requests) + [req]
      ensures name == old(name) && description == old(description) && folders == old(folders)
    {
      requests := requests + [req];
    }

    /** `add_folder`: the folder goes last. */
    method AddFolder(f: Folder)
      modifies this
      ensures folders == old(folders) + [f]
      ensures name == old(name) && description == old(description) && requests == old(requests)
    {
      folders := folders + [f];
    }

    /** Every request of the collection: its own, then each folder's, depth first. */
    function AllRequests(): seq<SavedRequest>
      reads this
    {
      requests + AllIn(folders)
    }

    /** `find_request`: the first request with the id among `AllRequests`. */
    function FindRequest(id: string): (r: Option<SavedRequest>)
      reads this
      ensures r == FindIn(AllRequests(), id)
    {
      FindInAppend(requests, AllIn(folders), id);
      match FindIn(requests, id)
      case Some(found) => Some(found)
      case None => FindInFolders(folders, id)
    }
  }

  /**
   * Adding a request never changes what an id already found finds, and
   * makes an id that found nothing find the new request when it matches.
   */
  lemma FindAfterAdd(before: seq<SavedRequest>, fs: seq<Folder>, req: SavedRequest, id: string)
    ensures FindIn((before + [req]) + AllIn(fs), id) ==
      if FindIn(before, id).Some? then FindIn(before, id)
      else if req.id == id then Some(req)
      else FindIn(AllIn(fs), id)
  {
    FindInAppend(before + [req], AllIn(fs), id);
    FindInAppend(before, [req], id);
  }
}
