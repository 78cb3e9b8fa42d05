/** The four string normalizers the export's fields go through: icon paths, class
    references, Pascal-cased names and typed asset references. Each is total: an input
    of an unexpected shape degrades to a fixed fallback. Pascal casing comes from
    a foreign library and is the parameter `pascal`. */
module Normalizers {
  import opened Wrappers
  import opened Strings

  // ---------------------------------------------------------------- IconPath

  /** An icon id of the shape `<base>_256`, or nothing. */
  datatype IconPath = IconPath(id: Option<string>)

  /** A raw icon value with no path separator that already ends in `256`. */
  predicate AlreadyNormal(raw: string) {
    '/' !in raw && EndsWith(raw, "256")
  }

  /** Decoding of an icon path: an already-normal value is kept; otherwise trailing
      `_` are trimmed, the extension-like part after the last `.` is taken, trailing
      `_` are trimmed again, and the text before its last `_` gets `_256` appended.
      When either split finds no separator there is no icon. */
  function DecodeIconPath(raw: string): (r: IconPath)
    ensures AlreadyNormal(raw) ==> r.id == Some(raw)
    ensures r.id.Some? ==> EndsWith(r.id.value, "256")
    ensures !AlreadyNormal(raw) && r.id.Some? ==>
      |r.id.value| >= 4 && EndsWith(r.id.value, "_256") && '.' !in r.id.value
    ensures !AlreadyNormal(raw) && '.' !in TrimEnd(raw, '_') ==> r.id.None?
    ensures r.id.Some? <==>
      || AlreadyNormal(raw)
      || (var t := TrimEnd(raw, '_'); '.' in t && '_' in TrimEnd(AfterLast(t, '.'), '_'))
  {
    if AlreadyNormal(raw) then IconPath(Some(raw))
    else
      var trimmed := TrimEnd(raw, '_');
      var outer := RSplitOnce(trimmed, '.');
      if outer.None? then IconPath(None)
      else
        var name := outer.value.1;
        assert name == AfterLast(trimmed, '.');
        var inner := RSplitOnce(TrimEnd(name, '_'), '_');
        if inner.None? then IconPath(None)
        else
          var unsize := inner.value.0;
          assert unsize <= TrimEnd(name, '_') <= name;
          assert '.' !in unsize;
          IconPath(Some(Resized(unsize)))
  }

  /** `<base>_256`. */
  function Resized(base: string): (id: string)
    ensures |id| == |base| + 4 && id[..|base|] == base
    ensures EndsWith(id, "_256") && EndsWith(id, "256")
    ensures '.' !in base ==> '.' !in id
  {
    var id := base + "_256";
    assert id[|id| - 4..] == "_256";
    assert id[|id| - 3..] == "256";
    id
  }

  /** `Into<String>` and `AsRef<str>`: the id, or the empty string. */
  function IconText(p: IconPath): (r: string)
    ensures p.id.Some? ==> r == p.id.value
    ensures p.id.None? ==> r == ""
  {
    p.id.GetOr("")
  }

  /** A raw path `<dir>.<base>_<size>` followed by any run of `_`, whose base and size
      hold no `.` and whose size is a non-empty run without `_`, normalizes to
      `<base>_256`. */
  lemma IconPathCanonical(dir: string, base: string, size: string, pad: string)
    requires '.' !in base && '.' !in size && '_' !in size && |size| > 0
    requires forall i | 0 <= i < |pad| :: pad[i] == '_'
    requires !AlreadyNormal(dir + "." + base + "_" + size + pad)
    ensures DecodeIconPath(dir + "." + base + "_" + size + pad).id == Some(base + "_256")
  {
    var raw := dir + "." + base + "_" + size + pad;
    var body := dir + "." + base + "_" + size;
    assert raw == body + pad;
    assert body[|body| - 1] == size[|size| - 1];
    TrimEndPadded(body, pad, '_');
    var name := base + "_" + size;
    assert body == dir + ['.'] + name;
    RSplitOnceUnique(body, '.', dir, name);
    TrimEndPadded(name, [], '_');
    assert name + [] == name;
    assert name == base + ['_'] + size;
    RSplitOnceUnique(name, '_', base, size);
  }

  /** Normalizing a normalized id without `/` changes nothing. */
  lemma IconPathIdempotent(raw: string)
    ensures var p := DecodeIconPath(raw);
      p.id.Some? && '/' !in p.id.value ==> DecodeIconPath(p.id.value) == p
  {
  }

  /** The text view of a decoded icon is empty exactly when there is no icon. */
  lemma IconTextEmptyIffAbsent(raw: string)
    ensures IconText(DecodeIconPath(raw)) == "" <==> DecodeIconPath(raw).id.None?
  {
  }

  // ---------------------------------------------------------------- ClassReference

  /** A bare class name. */
  datatype ClassReference = ClassReference(name: string)

  predicate IsQuote(c: char) {
    c == '\'' || c == '"'
  }

  /** Decoding of a class reference: a raw value holding both `/` and `.` is reduced to
      the Pascal-cased text after its last `.`, with trailing `'` and then trailing `"`
      trimmed; any other raw value is kept unchanged. */
  function DecodeClassReference(raw: string, pascal: string -> string): (r: ClassReference)
    ensures !('/' in raw && '.' in raw) ==> r.name == raw
    ensures '/' in raw && '.' in raw ==>
      var cased := pascal(AfterLast(raw, '.'));
      && r.name <= cased
      && (|r.name| == 0 || r.name[|r.name| - 1] != '"')
      && (forall i | |r.name| <= i < |cased| :: IsQuote(cased[i]))
      && r.name == TrimEnd(TrimEnd(cased, '\''), '"')
  {
    if '/' in raw then
      match RSplitOnce(raw, '.')
      case Some((_, name)) =>
        var cased := pascal(name);
        var noApostrophe := TrimEnd(cased, '\'');
        var r := TrimEnd(noApostrophe, '"');
        assert r <= cased;
        ClassReference(r)
      case None => ClassReference(raw)
    else ClassReference(raw)
  }

  /** When the cased segment ends in no quote, the stored name is exactly the cased
      segment. */
  lemma ClassReferenceUnquoted(raw: string, pascal: string -> string)
    requires '/' in raw && '.' in raw
    requires var cased := pascal(AfterLast(raw, '.')); |cased| == 0 || !IsQuote(cased[|cased| - 1])
    ensures DecodeClassReference(raw, pascal).name == pascal(AfterLast(raw, '.'))
  {
  }

  /** Re-decoding an extracted name that holds no `/` keeps it. */
  lemma ClassReferenceStable(raw: string, pascal: string -> string)
    requires '/' !in DecodeClassReference(raw, pascal).name
    ensures DecodeClassReference(DecodeClassReference(raw, pascal).name, pascal)
      == DecodeClassReference(raw, pascal)
  {
  }

  // ---------------------------------------------------------------- NormalizedString

  /** A name in Pascal case. */
  datatype NormalizedString = NormalizedString(text: string)

  function DecodeNormalized(raw: string, pascal: string -> string): (r: NormalizedString)
    ensures r.text == pascal(raw)
  {
    NormalizedString(pascal(raw))
  }

  /** Two raw names normalize to the same value exactly when their Pascal forms agree,
      and a casing that is idempotent makes normalization idempotent. */
  lemma NormalizedComparable(a: string, b: string, pascal: string -> string)
    ensures DecodeNormalized(a, pascal) == DecodeNormalized(b, pascal) <==> pascal(a) == pascal(b)
    ensures pascal(pascal(a)) == pascal(a) ==>
      DecodeNormalized(DecodeNormalized(a, pascal).text, pascal) == DecodeNormalized(a, pascal)
  {
  }

  // ---------------------------------------------------------------- AssetReference

  datatype AssetReference = AssetReference(assetType: string, assetPath: string)

  /** Decoding of an asset reference `TYPE PATH`: split at the first space; without a
      space the type is `UNKNOWN` and the path is the whole raw text. */
  function DecodeAssetReference(raw: string): (r: AssetReference)
    ensures ' ' in raw ==> r.assetType + " " + r.assetPath == raw && ' ' !in r.assetType
    ensures ' ' !in raw ==> r == AssetReference("UNKNOWN", raw)
  {
    match SplitOnce(raw, ' ')
    case Some((kind, path)) => AssetReference(kind, path)
    case None => AssetReference("UNKNOWN", raw)
  }

  /** Writing a reference back as `TYPE PATH` and decoding it gives it back, for any
      type without a space. */
  lemma AssetReferenceRoundTrip(a: AssetReference)
    requires ' ' !in a.assetType
    ensures DecodeAssetReference(a.assetType + " " + a.assetPath) == a
  {
    SplitOnceUnique(a.assetType + " " + a.assetPath, ' ', a.assetType, a.assetPath);
  }
}
