/** The loader's error taxonomy (orbital_common's `DocsError` and `CommonError`) and the
    tagged wire form serde gives them when they cross to the frontend. */
module Errors {
  import opened Wrappers

  /** Paths are carried as text; a `PathBuf` that is not valid UTF-8 is not modelled. */
  datatype DocsError =
    | UnknownLocale(locale: string)
    | FailedRead(path: string, reason: string)
    | InvalidFormat(reason: string)

  datatype CommonError = Docs(error: DocsError)

  /** `DocsError::unknown_locale`: keeps the requested locale verbatim. */
  function UnknownLocaleError(locale: string): (e: DocsError)
    ensures e.UnknownLocale? && e.locale == locale
  {
    UnknownLocale(locale)
  }

  /** `DocsError::failed_read`: keeps the path and the I/O error's display text. */
  function FailedReadError(path: string, ioErrorText: string): (e: DocsError)
    ensures e.FailedRead? && e.path == path && e.reason == ioErrorText
  {
    FailedRead(path, ioErrorText)
  }

  /** `DocsError::invalid_format`: keeps the reason verbatim. */
  function InvalidFormatError(reason: string): (e: DocsError)
    ensures e.InvalidFormat? && e.reason == reason
  {
    InvalidFormat(reason)
  }

  /** `From<DocsError> for CommonError`: wraps the error unchanged. */
  function FromDocs(e: DocsError): (c: CommonError)
    ensures c.Docs? && c.error == e
  {
    Docs(e)
  }

  /** The variant name under `rename_all = "snake_case"`. */
  function KindTag(e: DocsError): string {
    match e
    case UnknownLocale(_) => "unknown_locale"
    case FailedRead(_, _) => "failed_read"
    case InvalidFormat(_) => "invalid_format"
  }

  /** `#[serde(tag = "kind")]`: the variant's fields beside a `kind` member. */
  function SerializeDocs(e: DocsError): (m: map<string, string>)
    ensures "kind" in m && m["kind"] == KindTag(e)
    ensures "category" !in m && "state" !in m && "source" !in m
  {
    match e
    case UnknownLocale(l) => map["kind" := "unknown_locale", "locale" := l]
    case FailedRead(p, r) => map["kind" := "failed_read", "path" := p, "reason" := r]
    case InvalidFormat(r) => map["kind" := "invalid_format", "reason" := r]
  }

  /** `#[serde(tag = "category")]` with the inner error flattened beside it. */
  function Serialize(c: CommonError): map<string, string> {
    map["category" := "docs"] + SerializeDocs(c.error)
  }

  /** serde's reading of the internally tagged form: the tag picks the variant, its
      fields must be present, other members are ignored. */
  function DeserializeDocs(m: map<string, string>): Option<DocsError> {
    if "kind" !in m then None
    else if m["kind"] == "unknown_locale" then
      if "locale" in m then Some(UnknownLocale(m["locale"])) else None
    else if m["kind"] == "failed_read" then
      if "path" in m && "reason" in m then Some(FailedRead(m["path"], m["reason"])) else None
    else if m["kind"] == "invalid_format" then
      if "reason" in m then Some(InvalidFormat(m["reason"])) else None
    else None
  }

  function Deserialize(m: map<string, string>): Option<CommonError> {
    if "category" in m && m["category"] == "docs" then
      match DeserializeDocs(m)
      case Some(e) => Some(Docs(e))
      case None => None
    else None
  }

  /** The wire form loses nothing: reading back a serialized error gives the error. */
  lemma SerializeRoundTrip(c: CommonError)
    ensures Deserialize(Serialize(c)) == Some(c)
  {
    var m := Serialize(c);
    assert m["category"] == "docs";
    assert forall k | k in SerializeDocs(c.error) :: m[k] == SerializeDocs(c.error)[k];
  }

  /** Converting into `CommonError` adds exactly the `category` member and keeps every
      member of the docs error's own wire form. */
  lemma FromDocsFlattens(e: DocsError)
    ensures Serialize(FromDocs(e)).Keys == {"category"} + SerializeDocs(e).Keys
    ensures Serialize(FromDocs(e))["category"] == "docs"
    ensures forall k | k in SerializeDocs(e) :: Serialize(FromDocs(e))[k] == SerializeDocs(e)[k]
  {
  }

  /** The constructors' results are told apart on the wire by `kind` and carry their
      arguments verbatim. */
  lemma ConstructorsOnTheWire(locale: string, path: string, ioErrorText: string, reason: string)
    ensures Serialize(FromDocs(UnknownLocaleError(locale)))
      == map["category" := "docs", "kind" := "unknown_locale", "locale" := locale]
    ensures Serialize(FromDocs(FailedReadError(path, ioErrorText)))
      == map["category" := "docs", "kind" := "failed_read", "path" := path, "reason" := ioErrorText]
    ensures Serialize(FromDocs(InvalidFormatError(reason)))
      == map["category" := "docs", "kind" := "invalid_format", "reason" := reason]
  {
  }
}
