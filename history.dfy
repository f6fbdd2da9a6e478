/**
 * The history records of the command line (saffron-cli `history.rs`), and
 * how a response is summarised for the history: status, status text, the
 * header pairs and a preview of the body, cut to 500 bytes.
 */
module History {
  import opened Wrappers
  import opened Strings
  import opened Machine
  import opened Utf8
  import opened Response

  datatype HistoryRequest = HistoryRequest(httpMethod: string, url: string, headers: seq<(string, string)>, body: Option<string>)

  datatype HistoryResponse = HistoryResponse(status: uint16, statusText: string, headers: seq<(string, string)>, bodyPreview: string)

  /** `HistoryEntry`; its id and timestamp come from outside (a UUID and the clock). */
  datatype HistoryEntry = HistoryEntry(id: string, timestamp: uint64, request: HistoryRequest, response: HistoryResponse, durationMs: uint64)

  const PreviewLimit := 500

  /** `<binary data, N bytes>`, the preview of a body that is not UTF-8. */
  function BinaryPreview(n: nat): (r: string)
    ensures |r| > 21 && r[|r| - 7..] == " bytes>"
  {
    "<binary data, " + NatToString(n) + " bytes>"
  }

  /**
   * The preview as `from_response` computes it: the text of a UTF-8 body,
   * `&text[..500]` and `...` when the body is longer than 500 bytes, the
   * binary notice otherwise. `None` stands for the panic of that slice when
   * byte 500 falls inside a char.
   */
  function BodyPreviewAsWritten(body: seq<uint8>): (r: Option<string>)
    ensures Decode(body).None? ==> r == Some(BinaryPreview(|body|))
    ensures Decode(body).Some? && |body| <= PreviewLimit ==> r == Decode(body)
    ensures r.None? <==> Decode(body).Some? && |body| > PreviewLimit && IsContinuation(body[PreviewLimit])
    ensures r.Some? && Decode(body).Some? && |body| > PreviewLimit ==>
      exists head :: IsPrefix(head, Decode(body).value) && Encode(head) == body[..PreviewLimit] && r.value == head + "..."
  {
    match Decode(body)
    case None => Some(BinaryPreview(|body|))
    case Some(text) =>
      EncodeDecode(body);
      if |body| > PreviewLimit then
        SliceToBoundary(text, PreviewLimit);
        match SliceTo(text, PreviewLimit)
        case None => None
        case Some(head) =>
          SliceIsHead(text, head, body);
          Some(head + "...")
      else Some(text)
  }

  /** A slice that does not panic is a prefix of the text and encodes to the first bytes of the body. */
  lemma SliceIsHead(text: string, head: string, body: seq<uint8>)
    requires Encode(text) == body && |body| > PreviewLimit && SliceTo(text, PreviewLimit) == Some(head)
    ensures IsPrefix(head, text) && Encode(head) == body[..PreviewLimit]
  {
    EncodeConcat(head, text[|head|..]);
    assert head + text[|head|..] == text;
  }

  /**
   * The preview as intended: a UTF-8 body longer than 500 bytes is cut at
   * the last char boundary within its first 500 bytes, and `...` follows.
   */
  function BodyPreview(body: seq<uint8>): (r: string)
    ensures Decode(body).None? ==> r == BinaryPreview(|body|)
    ensures Decode(body).Some? && |body| <= PreviewLimit ==> r == Decode(body).value
    ensures Decode(body).Some? && |body| > PreviewLimit ==>
      r == PrefixWithin(Decode(body).value, PreviewLimit) + "..."
    ensures Decode(body).Some? && |body| > PreviewLimit ==>
      exists head :: r == head + "..." && IsPrefix(head, Decode(body).value) && PreviewLimit - 3 <= |Encode(head)| <= PreviewLimit &&
                     (|head| < |Decode(body).value| ==> |Encode(Decode(body).value[..|head| + 1])| > PreviewLimit)
  {
    match Decode(body)
    case None => BinaryPreview(|body|)
    case Some(text) =>
      if |body| > PreviewLimit then
        var head := PrefixWithin(text, PreviewLimit);
        EncodeDecode(body);
        PrefixNearlyFull(text, PreviewLimit);
        head + "..."
      else text
  }

  /** Where the slice does not panic, the written preview is the intended one. */
  lemma PreviewAgrees(body: seq<uint8>)
    requires BodyPreviewAsWritten(body).Some?
    ensures BodyPreviewAsWritten(body).value == BodyPreview(body)
  {
    if Decode(body).Some? && |body| > PreviewLimit {
      SliceToWithin(Decode(body).value, PreviewLimit);
    }
  }

  /** 499 `a`s. */
  function Run(k: nat): (r: string)
    ensures |r| == k && forall i :: 0 <= i < k ==> r[i] == 'a'
  {
    if k == 0 then "" else ['a'] + Run(k - 1)
  }

  /**
   * The written preview panics on a UTF-8 body of 501 bytes: 499 `a`s and
   * then `é`, whose second byte is byte 500.
   */
  lemma PreviewPanics()
    ensures var body := Encode(Run(499) + ['\U{00E9}']);
      Decode(body).Some? && |body| == 501 && BodyPreviewAsWritten(body).None?
  {
    var text := Run(499) + ['\U{00E9}'];
    DecodeEncode(text);
    EncodeConcat(Run(499), ['\U{00E9}']);
    EncodeRun(499);
    assert Encode(['\U{00E9}']) == [0xC3, 0xA9];
    assert Encode(text)[500] == 0xA9;
  }

  lemma {:induction false} EncodeRun(k: nat)
    ensures |Encode(Run(k))| == k
  {
    if k > 0 {
      EncodeRun(k - 1);
      assert Run(k)[1..] == Run(k - 1);
      EncodeAscii('a');
    }
  }

  /**
   * `&s[..i]` panics exactly when byte `i` of the text is a continuation
   * byte, that is, when it is not a char boundary.
   */
  lemma {:induction false} SliceToBoundary(s: string, i: nat)
    requires i <= |Encode(s)|
    ensures SliceTo(s, i).None? <==> i < |Encode(s)| && IsContinuation(Encode(s)[i])
  {
    if i > 0 {
      var m := |EncodeChar(s[0])|;
      assert Encode(s) == EncodeChar(s[0]) + Encode(s[1..]);
      if i >= m {
        SliceToBoundary(s[1..], i - m);
        assert i < |Encode(s)| ==> Encode(s)[i] == Encode(s[1..])[i - m];
      }
    } else if |s| > 0 {
      assert Encode(s)[0] == EncodeChar(s[0])[0];
    }
  }

  /** The longest prefix within `n` bytes leaves fewer than four of them unused, unless it is all of `s`. */
  lemma PrefixNearlyFull(s: string, n: nat)
    requires |Encode(s)| > n
    ensures n - 3 <= |Encode(PrefixWithin(s, n))|
  {
    var p := PrefixWithin(s, n);
    if |p| == |s| {
      assert p == s;
    } else {
      assert s[..|p| + 1] == p + [s[|p|]];
      EncodeConcat(p, [s[|p|]]);
      assert Encode([s[|p|]]) == EncodeChar(s[|p|]) + Encode([]) by {
        assert [s[|p|]][1..] == [];
      }
    }
  }

  /**
   * `HistoryResponse::from_response`: status and status text copied, one
   * pair per header entry in the map's order, and the intended preview.
   */
  function FromResponse(response: HttpResponse): (r: HistoryResponse)
    ensures r.status == response.status && r.statusText == response.statusText
    ensures r.headers == response.headers && |r.headers| == |response.headers|
    ensures r.bodyPreview == BodyPreview(response.body)
  {
    HistoryResponse(response.status, response.statusText, response.headers, BodyPreview(response.body))
  }
}
