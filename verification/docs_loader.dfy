/** The docs loader's decode path (`parse_docs_json`): locate `<folder>/<locale>.json`,
    read it, require an even byte count, pair bytes into little-endian code units, decode
    UTF-16, strip one byte order mark, and hand the text to a JSON parser. The file
    system enters as the `fileExists` flag and the `FileRead` outcome; the JSON parser is
    the parameter `parser`, which yields the tree or the parser's diagnostic text. */
module DocsLoader {
  import opened Wrappers
  import opened Strings
  import opened Utf16
  import opened Errors
  import Json

  /** The outcome of `File::open` followed by `read_to_end`: the bytes, or the display
      text of the I/O error either step raised. */
  datatype FileRead = Bytes(data: seq<Byte>) | ReadError(reason: string)

  /** `base.join(name)` for Unix paths: an absolute `name` replaces `base`; otherwise a
      separator is inserted when `base` is non-empty and does not already end in one. */
  function JoinPath(base: string, name: string): (r: string)
    ensures |name| > 0 && name[0] == '/' ==> r == name
    ensures !(|name| > 0 && name[0] == '/') ==>
      && |base| <= |r| && r[..|base|] == base
      && EndsWith(r, name)
      && (|r| == |base| + |name| + 1 <==> |base| > 0 && base[|base| - 1] != '/')
    ensures !(|name| > 0 && name[0] == '/') && |base| > 0 && base[|base| - 1] != '/' ==>
      |base| < |r| && r[|base|] == '/'
    ensures !(|name| > 0 && name[0] == '/') && !(|base| > 0 && base[|base| - 1] != '/') ==>
      |r| == |base| + |name|
  {
    if |name| > 0 && name[0] == '/' then name
    else if |base| > 0 && base[|base| - 1] != '/' then
      var r := base + "/" + name;
      assert r[|r| - |name|..] == name;
      r
    else
      var r := base + name;
      assert r[|r| - |name|..] == name;
      r
  }

  /** The file a locale is read from. */
  function DocsPath(folder: string, locale: string): string {
    JoinPath(folder, locale + ".json")
  }

  const ODD_LENGTH_REASON: string := "File is not UTF-16 encoded/is missing bytes."

  /** The reason carried for a bad code unit: `format!("Bad UTF-16 encoding: {:?}", e)`
      of `DecodeUtf16Error { code }`. */
  function Utf16ErrorReason(code: CodeUnit): string {
    "Bad UTF-16 encoding: DecodeUtf16Error { code: " + Decimal(code) + " }"
  }

  /** The reason carried for a JSON syntax error, from the parser's diagnostic. */
  function JsonErrorReason(diagnostic: string): string {
    "Bad JSON data: " + diagnostic
  }

  /** Everything `parse_docs_json` does before the JSON parser runs. */
  function DecodeDocsText(folder: string, locale: string, fileExists: bool, read: FileRead)
    : (r: Result<string, CommonError>)
    ensures !fileExists ==> r == Err(Docs(UnknownLocale(locale)))
    ensures fileExists && read.ReadError? ==>
      r == Err(Docs(FailedRead(DocsPath(folder, locale), read.reason)))
    ensures fileExists && read.Bytes? && |read.data| % 2 == 1 ==>
      r == Err(Docs(InvalidFormat(ODD_LENGTH_REASON)))
    ensures fileExists && read.Bytes? && |read.data| % 2 == 0 ==>
      (r.Ok? <==> Paired(PairBytes(read.data)))
    ensures fileExists && read.Bytes? && |read.data| % 2 == 0 && r.Err? ==>
      exists i | FirstUnpaired(PairBytes(read.data), i) ::
        r == Err(Docs(InvalidFormat(Utf16ErrorReason(PairBytes(read.data)[i]))))
    ensures r.Ok? ==>
      && fileExists && read.Bytes? && |read.data| % 2 == 0
      && DecodeUtf16(PairBytes(read.data)).Ok?
      && r.value == StripBom(DecodeUtf16(PairBytes(read.data)).value)
  {
    if !fileExists then Err(FromDocs(UnknownLocaleError(locale)))
    else
      match read
      case ReadError(reason) => Err(FromDocs(FailedReadError(DocsPath(folder, locale), reason)))
      case Bytes(data) =>
        if |data| % 2 != 0 then Err(FromDocs(InvalidFormatError(ODD_LENGTH_REASON)))
        else
          var units := PairBytes(data);
          DecodeFailsIffUnpaired(units);
          match DecodeUtf16(units)
          case Err(code) => Err(FromDocs(InvalidFormatError(Utf16ErrorReason(code))))
          case Ok(text) => Ok(StripBom(text))
  }

  /** `parse_docs_json`: the decoded text through the JSON parser, whose diagnostic is
      kept in an `InvalidFormat` error. */
  function ParseDocsJson(folder: string, locale: string, fileExists: bool, read: FileRead,
                         parser: string -> Result<Json.Value, string>)
    : (r: Result<Json.Value, CommonError>)
    ensures DecodeDocsText(folder, locale, fileExists, read).Err? ==>
      r == Err(DecodeDocsText(folder, locale, fileExists, read).error)
    ensures DecodeDocsText(folder, locale, fileExists, read).Ok? ==>
      var text := DecodeDocsText(folder, locale, fileExists, read).value;
      && (parser(text).Ok? ==> r == Ok(parser(text).value))
      && (parser(text).Err? ==> r == Err(Docs(InvalidFormat(JsonErrorReason(parser(text).error)))))
  {
    match DecodeDocsText(folder, locale, fileExists, read)
    case Err(e) => Err(e)
    case Ok(text) =>
      match parser(text)
      case Ok(value) => Ok(value)
      case Err(diagnostic) => Err(FromDocs(InvalidFormatError(JsonErrorReason(diagnostic))))
  }

  /** A file holding the little-endian UTF-16 encoding of some text decodes to that
      text, net of one leading byte order mark. */
  lemma DecodeRoundTrip(folder: string, locale: string, s: string)
    ensures DecodeDocsText(folder, locale, true, Bytes(UnpairUnits(EncodeUtf16(s)))) == Ok(StripBom(s))
  {
    var units := EncodeUtf16(s);
    PairUnpair(units);
    DecodeEncode(s);
  }

  /** Writing a byte order mark in front of the text does not change what is decoded. */
  lemma MarkedFileDecodesToText(folder: string, locale: string, s: string)
    ensures DecodeDocsText(folder, locale, true, Bytes(UnpairUnits(EncodeUtf16([BOM] + s)))) == Ok(s)
  {
    DecodeRoundTrip(folder, locale, [BOM] + s);
    StripBomUndoesMark(s);
  }

  /** The failure a missing file gives depends on nothing but the requested locale:
      no other locale is tried and no read is looked at. */
  lemma MissingLocaleIsolated(folder: string, folder': string, locale: string, read: FileRead, read': FileRead)
    ensures DecodeDocsText(folder, locale, false, read) == DecodeDocsText(folder', locale, false, read')
    ensures DecodeDocsText(folder, locale, false, read).error.error.locale == locale
  {
  }
}
