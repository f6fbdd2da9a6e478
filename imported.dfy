/**
 * The format-agnostic result of an import and its error type
 * (saffron-data `importers/mod.rs`).
 */
module Imported {
  import opened Wrappers

  /** `ImportError`; an `io::Error` is carried as its message. */
  datatype ImportError =
    | InvalidFormat(message: string)
    | UnsupportedVersion(message: string)
    | ParseError(message: string)
    | IoError(message: string)
    | MissingField(message: string)

  /** The fixed text `Display` writes before the payload of each variant. */
  function Prefix(e: ImportError): (p: string)
    ensures |p| >= 2
  {
    match e
    case InvalidFormat(_) => "Invalid format: "
    case UnsupportedVersion(_) => "Unsupported version: "
    case ParseError(_) => "Parse error: "
    case IoError(_) => "IO error: "
    case MissingField(_) => "Missing required field: "
  }

  /** `Display` for `ImportError`: the variant's prefix, then its payload. */
  function Display(e: ImportError): (r: string)
    ensures |r| == |Prefix(e)| + |e.message|
    ensures r[..|Prefix(e)|] == Prefix(e) && r[|Prefix(e)|..] == e.message
  {
    Prefix(e) + e.message
  }

  /**
   * Two errors that display alike are the same error: the first two chars
   * of the text tell the variant, the rest is the payload.
   */
  lemma DisplayInjective(e1: ImportError, e2: ImportError)
    requires Display(e1) == Display(e2)
    ensures e1 == e2
  {
    var p1, p2 := Prefix(e1), Prefix(e2);
    assert p1[0] == Display(e1)[0] == p2[0];
    assert p1[1] == Display(e1)[1] == p2[1];
    match e1
    case InvalidFormat(_) => assert e2.InvalidFormat?;
    case UnsupportedVersion(_) => assert e2.UnsupportedVersion?;
    case ParseError(_) => assert e2.ParseError?;
    case IoError(_) => assert e2.IoError?;
    case MissingField(_) => assert e2.MissingField?;
  }

  datatype ImportedRequest = ImportedRequest(
    id: string,
    name: string,
    description: Option<string>,
    httpMethod: string,
    url: string,
    headers: seq<(string, string)>,
    body: Option<string>)

  datatype ImportedCollection = ImportedCollection(name: string, description: Option<string>, requests: seq<ImportedRequest>)
}
