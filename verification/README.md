# Orbital export decoding, modelled in Dafny

Orbital is a planner for the factory game Satisfactory. It reads the game's "docs"
export, a UTF-16 JSON file with a locale in its name, and turns it into a typed catalog.
This project models the decoding layer of that pipeline as pure functions, and proves
properties about them:

- `ScalarCoercion` (`coercion.dfy`) decodes a JSON scalar into the four-way `Coercion`
  union. A string scalar is checked for the keywords `True`, `False` and `None`, then
  parsed as a float, then kept as text. The module also has the total `Into` conversions,
  which fall back to defaults.
- `Normalizers` (`normalizers.dfy`) holds the string normalizers `IconPath`,
  `ClassReference`, `NormalizedString` and `AssetReference`.
- `Utf16` (`utf16.dfy`) has little-endian byte pairing, a UTF-16 decoder that behaves like
  Rust's `char::decode_utf16` (section 2.2 of RFC 2781), the matching encoder, and removal
  of a byte order mark (section 3.2 of RFC 2781).
- `DocsLoader` (`docs_loader.dfy`) is `parse_docs_json`. It checks the locale, rejects an
  odd byte count, decodes, strips the byte order mark and calls the JSON parser.
- `Errors` (`errors.dfy`) holds `DocsError` and `CommonError`, their constructors, and the
  serde-tagged wire form in which they reach the frontend.
- `Catalog` (`catalog.dfy`) is `OrbitalData::get_id`, a lookup over four maps in a fixed
  precedence.
- `AssetRequest` (`asset_request.dfy`) is `generate_asset_request`. Texture icon
  references are folded into an id -> request map in which the first reference for an id
  wins. Four map-slice entries are added, and one `id::request` line is written per entry.
- `LoadingState` (`loading.dfy`) is the frontend's `Loading<T>` wrapper. It covers the
  `auto` classifier, the getters, `result`, the `Ready`/`Waiting`/`Failed` constructors
  and `resolveLoading`, over a small universe of JavaScript runtime values.
- `Strings`, `Json` and `Wrappers` are helpers: character-level string operations
  (`trim_end_matches`, `rsplit_once`, ...), serde_json's `Value`, and `Option`/`Result`.

Foreign code becomes a function parameter:
- Pascal casing from `convert_case` is `pascal`.
- `str::parse::<f32>` is `parseF32`.
- The `f64 as f32` narrowing is `narrow`.
- `serde_json::from_str` is `parser`.
- The file system is a `fileExists` flag plus a `FileRead` outcome.
- The iteration order of a `HashMap` is an `order` sequence that lists every key once.

An `unwrap` that panics is modelled as the outcome `None`. A JavaScript `TypeError` is
modelled as the outcome `TypeError`.

The model follows the code in these details:
- `ClassReference`: a raw value that has a `/` but no `.` is stored unchanged, `/`
  included. Only trailing `'` and then trailing `"` are trimmed, so a stored name can still
  end in `'` (for example when the cased text ends in `'"`).
- `IconPath`: the "already normal" branch keeps any raw value that has no `/` and ends in
  `256`, even one with a `.` in it. Trailing `_` are trimmed twice: once from the whole
  value and once from the name after the last `.`.
- `Coercion`: numbers written as strings go through a float-to-int `as i32`, which rounds
  toward zero and saturates. Native JSON integers go through an integer-to-integer
  `as i32`, which keeps the low 32 bits (wrap-around). The `Value::String` arm at
  orbital_common/src/types/satisfactory/utility.rs:54 can never be reached, because
  `as_str()` has already taken every string.
- `parse_docs_json` appears twice, identically, in utility.rs:215-249 and sf_docs.rs:8-42.
  It is modelled once.
- `Loading.auto`: anything whose `state` reads as one of the three tags has its `data`
  member copied, including a plain object, whose `data` may be missing (then
  `undefined`). `auto(undefined)` throws.

## Model

| member | source | states |
|---|---|---|
| ScalarCoercion.DecodeString | orbital_common/src/types/satisfactory/utility.rs:25-41 | `True`/`False` give a Boolean and `None` gives `String(None)`, with an exact, case-sensitive match. Any other text is Integer exactly when it parses to a whole float, and then holds the saturating `as i32` of it. It is Float exactly when it parses to a non-whole float. It is kept verbatim as `String(Some(raw))` exactly when it does not parse. |
| ScalarCoercion.Decode | orbital_common/src/types/satisfactory/utility.rs:20-59 | Decoding never fails. It is Boolean exactly for native booleans and the two boolean keywords. It is `String(None)` exactly for null, arrays, objects and `"None"`. Native integers wrap to 32 bits and native floats are narrowed to f32. |
| ScalarCoercion.IsWholeMeaning | orbital_common/src/types/satisfactory/utility.rs:32 | `ceil(v) == v` holds for a finite value exactly when it has no fractional part. It holds for both infinities and never for NaN. |
| ScalarCoercion.SaturatingToI32 | orbital_common/src/types/satisfactory/utility.rs:33 | The float-to-int `as i32` rounds toward zero inside the i32 range. It clamps to the range bounds outside it and to them for the infinities, and gives 0 for NaN. |
| ScalarCoercion.WrapToI32 | orbital_common/src/types/satisfactory/utility.rs:48-52 | The integer `as i32` is congruent to its input modulo 2^32. It is the identity on values that already fit. |
| ScalarCoercion.IntoF32 | orbital_common/src/types/satisfactory/utility.rs:62-70 | Gives the payload of a Float and 0.0 for every other kind. |
| ScalarCoercion.IntoI32 | orbital_common/src/types/satisfactory/utility.rs:72-80 | Gives the payload of an Integer and 0 for every other kind. |
| ScalarCoercion.IntoBool | orbital_common/src/types/satisfactory/utility.rs:82-90 | Gives the payload of a Boolean and false for every other kind. |
| ScalarCoercion.IntoOptionString | orbital_common/src/types/satisfactory/utility.rs:92-100 | Gives the payload of a String and None for every other kind. |
| ScalarCoercion.IntoString | orbital_common/src/types/satisfactory/utility.rs:102-110 | Gives the text of `String(Some(s))` and "" otherwise, which is `Into<Option<String>>` with "" as the default. |
| ScalarCoercion.IntoRecoversDecoded | orbital_common/src/types/satisfactory/utility.rs:25-110 | Converting a decoded value back to the native type it came from gives back the boolean, the unparsable text, the null, or an integer that fits in 32 bits. |
| ScalarCoercion.MismatchedKindsDefault | orbital_common/src/types/satisfactory/utility.rs:62-110 | Only the matching kind's conversion gives a non-default value. |
| ScalarCoercion.DecodeExamples | orbital_common/src/types/satisfactory/utility.rs:26-39 | For any parser that reads "42" and "4.5" as those numbers: the three keywords decode to their fixed values, "42" gives Integer(42), "4.5" gives Float(4.5) and "hello" gives `String(Some("hello"))`. |
| Normalizers.DecodeIconPath | orbital_common/src/types/satisfactory/utility.rs:120-133 | An already-normal value (no `/`, ends in `256`) is kept. Any result ends in `256`. A rewritten result ends in `_256` and has no `.`. There is an icon exactly when the value is already normal, or when the `_`-trimmed value has a `.` and the `_`-trimmed name after its last `.` has a `_`: so there is none when either split fails. |
| Normalizers.Resized | orbital_common/src/types/satisfactory/utility.rs:126 | `<base>_256` is the base followed by exactly four characters, ends in `_256`, and adds no `.`. |
| Normalizers.IconPathCanonical | orbital_common/src/types/satisfactory/utility.rs:124-126 | A raw path `<dir>.<base>_<size>` followed by any run of `_` normalizes to `<base>_256`, when it is not already normal, neither `base` nor `size` holds a `.`, and `size` is non-empty with no `_`. |
| Normalizers.IconPathIdempotent | orbital_common/src/types/satisfactory/utility.rs:121-133 | Normalizing a normalized icon id that has no `/` again changes nothing. |
| Normalizers.IconText | orbital_common/src/types/satisfactory/utility.rs:137-150 | The text view is the id, or "" when there is none. |
| Normalizers.IconTextEmptyIffAbsent | orbital_common/src/types/satisfactory/utility.rs:124-150 | The text view of a decoded icon is empty exactly when there is no icon. |
| Normalizers.DecodeClassReference | orbital_common/src/types/satisfactory/utility.rs:185-199 | A raw value without both `/` and `.` is kept unchanged. Otherwise the name is the Pascal-cased segment after the last `.` with trailing `'` and then trailing `"` trimmed: a prefix of it, only quote characters removed, not ending in `"`. |
| Normalizers.ClassReferenceUnquoted | orbital_common/src/types/satisfactory/utility.rs:187-193 | When the cased segment does not end in a quote, the stored name is exactly that segment. |
| Normalizers.ClassReferenceStable | orbital_common/src/types/satisfactory/utility.rs:186-198 | Decoding an extracted name that has no `/` again gives the same reference. |
| Normalizers.DecodeNormalized | orbital_common/src/types/satisfactory/utility.rs:160-161 | The stored text is the Pascal form of the raw text. |
| Normalizers.NormalizedComparable | orbital_common/src/types/satisfactory/utility.rs:160-161 | Two names normalize equally exactly when their Pascal forms agree. When casing is idempotent, so is normalization. |
| Normalizers.DecodeAssetReference | orbital_common/src/types/satisfactory/utility.rs:262-267 | With a space, `type + " " + path` rebuilds the raw text and the type has no space. Without a space the result is `UNKNOWN` with the whole raw text as the path. |
| Normalizers.AssetReferenceRoundTrip | orbital_common/src/types/satisfactory/utility.rs:263-264 | Writing a reference as `TYPE PATH` and decoding it gives it back, for every type that has no space. |
| Utf16.PairBytes | orbital_common/src/types/sf_docs.rs:29-30 | `n` bytes give `n/2` units, and unit i is `bytes[2i] + 256*bytes[2i+1]`. |
| Utf16.UnpairUnits | orbital_common/src/types/sf_docs.rs:29-30 | The inverse of `PairBytes`, a reference the byte round trip is stated against rather than code of the loader: each unit becomes its low byte followed by its high byte. |
| Utf16.PairUnpair | orbital_common/src/types/sf_docs.rs:29-30 | Pairing the bytes of any unit sequence gives the units back. |
| Utf16.UnpairPair | orbital_common/src/types/sf_docs.rs:29-30 | Splitting the paired units of any even byte sequence gives the bytes back. |
| Utf16.CombinePair | orbital_common/src/types/sf_docs.rs:32-33 | A high and low surrogate stand for `0x10000 + (hi-0xD800)*0x400 + (lo-0xDC00)`. |
| Utf16.DecodeUtf16 | orbital_common/src/types/sf_docs.rs:32-38 | A failure names the first unpaired unit: every unit before it is correctly paired, and it is a low surrogate or a high surrogate not followed by a low one. |
| Utf16.FirstUnpairedUnique | orbital_common/src/types/sf_docs.rs:32-38 | There is at most one first unpaired unit, so the reported unit is determined by the input. |
| Utf16.EncodeChar | orbital_common/src/types/sf_docs.rs:32-33 | The reference encoder of section 2.1 of RFC 2781, against which the decoder is proved; the loader itself only decodes. A BMP character is one unit, equal to its value. A character above U+FFFF is a high/low surrogate pair. |
| Utf16.CombineEncoded | orbital_common/src/types/sf_docs.rs:32-33 | Combining the surrogate pair of a supplementary character gives that character back. |
| Utf16.EncodeCombined | orbital_common/src/types/sf_docs.rs:32-33 | Encoding the character of a surrogate pair gives that pair back. |
| Utf16.DecodeEncode | orbital_common/src/types/sf_docs.rs:32-33 | Decoding the encoding of any string gives the string. |
| Utf16.EncodeDecode | orbital_common/src/types/sf_docs.rs:32-33 | Whatever decodes is the encoding of its decoded text. |
| Utf16.DecodeSucceedsIff | orbital_common/src/types/sf_docs.rs:32-38 | Decoding succeeds exactly on the encodings of strings. |
| Utf16.DecodeFailsIffUnpaired | orbital_common/src/types/sf_docs.rs:32-38 | Decoding succeeds exactly when every high surrogate is directly followed by a low one and every low surrogate directly follows a high one. |
| Utf16.PairDecodes | orbital_common/src/types/sf_docs.rs:32-33 | A surrogate pair decodes to `0x10000 + (hi-0xD800)*0x400 + (lo-0xDC00)`. |
| Utf16.PlainUnitsDecode | orbital_common/src/types/sf_docs.rs:32-33 | Units outside the surrogate range decode one for one to themselves. |
| Utf16.StripBom | orbital_common/src/types/sf_docs.rs:40 | One leading U+FEFF is removed. Text without one passes through unchanged. |
| Utf16.StripBomUndoesMark | orbital_common/src/types/sf_docs.rs:40 | A mark put in front of any text is removed, and only that one mark. |
| DocsLoader.JoinPath | orbital_common/src/types/sf_docs.rs:9 | An absolute name replaces the base. Otherwise the result starts with the base and ends with the name. A `/` is inserted right after the base exactly when the base is non-empty and does not end in `/`; otherwise the result is the base directly followed by the name. |
| DocsLoader.DocsPath | orbital_common/src/types/sf_docs.rs:9 | The docs file path, `<folder>/<locale>.json` by `JoinPath`; `DecodeDocsText` reports it in FailedRead. |
| DocsLoader.Utf16ErrorReason | orbital_common/src/types/sf_docs.rs:36 | The InvalidFormat reason for a bad unit; `DecodeDocsText` states it is built from the first unpaired unit. |
| DocsLoader.DecodeDocsText | orbital_common/src/types/sf_docs.rs:8-40 | A missing file gives UnknownLocale with the requested locale. A read error gives FailedRead with the path and error text. An odd byte count gives the fixed InvalidFormat reason. An even file decodes exactly when its units are paired, and otherwise fails with the InvalidFormat reason naming its first unpaired unit. The decoded text has its byte order mark stripped. |
| DocsLoader.ParseDocsJson | orbital_common/src/types/sf_docs.rs:8-42 | Decode errors propagate unchanged. The parser's tree is returned as is, and a parser diagnostic becomes InvalidFormat "Bad JSON data: ...". |
| DocsLoader.DecodeRoundTrip | orbital_common/src/types/sf_docs.rs:24-40 | A file holding the little-endian UTF-16 encoding of any text decodes to that text, minus one leading byte order mark. |
| DocsLoader.MarkedFileDecodesToText | orbital_common/src/types/sf_docs.rs:29-40 | A file written with a byte order mark in front of any text decodes to exactly that text. |
| DocsLoader.MissingLocaleIsolated | orbital_common/src/types/sf_docs.rs:9-12 | A missing locale fails the same way whatever the folder and the file contents, and carries exactly the requested locale. |
| Errors.UnknownLocaleError | orbital_common/src/error.rs:24-28 | Gives UnknownLocale with the locale verbatim. |
| Errors.FailedReadError | orbital_common/src/error.rs:30-35 | Gives FailedRead with the path and the I/O error's text. |
| Errors.InvalidFormatError | orbital_common/src/error.rs:37-41 | Gives InvalidFormat with the reason verbatim. |
| Errors.FromDocs | orbital_common/src/error.rs:54-58 | Wraps the error unchanged in the Docs variant. |
| Errors.SerializeDocs | orbital_common/src/error.rs:10-21 | The wire form has a `kind` member holding the snake-case variant name, and no `category`, `state` or `source` member. |
| Errors.Serialize | orbital_common/src/error.rs:44-52 | The wire form of a common error; `SerializeRoundTrip` and `FromDocsFlattens` state that it is the flattened docs error plus `category: docs` and reads back to the error. |
| Errors.SerializeRoundTrip | orbital_common/src/error.rs:10-52 | Reading back the tagged wire form of any error gives that error. |
| Errors.FromDocsFlattens | orbital_common/src/error.rs:44-58 | The converted error's wire form is the docs error's members plus `category: docs`. |
| Errors.ConstructorsOnTheWire | orbital_common/src/error.rs:24-58 | Each constructor's result appears on the wire with its own `kind` and its arguments verbatim. |
| Catalog.GetId | orbital_common/src/types/satisfactory/mod.rs:42-60 | The result is None exactly when the id is in none of the four maps. A found item is the value stored under the id in the map its tag names. Research wins over descriptions, descriptions over buildables, and buildables over recipes. |
| Catalog.PrecedenceOnlyBreaksTies | orbital_common/src/types/satisfactory/mod.rs:42-60 | When no id is shared between maps, probing in the opposite order finds the same item, so the precedence only decides collisions. |
| Catalog.CollisionResolvedByPrecedence | orbital_common/src/types/satisfactory/mod.rs:43-56 | An id shared by research and recipes is reported as research. |
| AssetRequest.TextureRequest | aextract/src/main.rs:37-44 | A request exists exactly when a `/` is left after the leading `/` are trimmed. It always starts with the fixed content prefix. |
| AssetRequest.TextureRequestReplacesMount | aextract/src/main.rs:37-44 | `/<mount>/<rest>` asks for `<rest>` under the game's content root. |
| AssetRequest.Slots | aextract/src/main.rs:26-27 | Each description gives two slots, its big icon and then its icon. |
| AssetRequest.Step | aextract/src/main.rs:28-46 | A `Texture2D` reference with an id that is not yet present inserts exactly that id with its texture request, or panics when its path cannot be split. Every other slot leaves the map unchanged, and nothing is ever overwritten. |
| AssetRequest.CollectPanicsIff | aextract/src/main.rs:26-49 | The loop panics exactly when the first texture request for some id has a path that cannot be split. |
| AssetRequest.CollectFirstWins | aextract/src/main.rs:26-49 | The map holds exactly the ids of texture requests. Each id maps to the request of the first reference carrying it. |
| AssetRequest.Collect | aextract/src/main.rs:26-49 | The fold of the icon slots; `CollectPanicsIff` and `CollectFirstWins` state when it panics and what map it builds. |
| AssetRequest.WithMapSlices | aextract/src/main.rs:51-54 | The four `MapSlice*` keys are added with their fixed values, overriding same-named entries and keeping every other entry. |
| AssetRequest.RequestMap | aextract/src/main.rs:24-54 | The fold followed by the map slices; `GenerateAssetRequest` states when it exists and how it is written. |
| AssetRequest.WriteRequestFile | aextract/src/main.rs:56-59 | The text is the entries' `id::request` lines in iteration order. When no id or request holds a line break there is exactly one line per entry. When in addition no id holds `:`, reading the text back gives the map. |
| AssetRequest.GenerateAssetRequest | aextract/src/main.rs:24-62 | Panics exactly when a first texture request cannot be split. Otherwise the text is the lines of the request map in iteration order, one line per entry when no id or request holds a line break, and it reads back as the request map when in addition no id holds `:`. |
| LoadingState.StateThrowsIff | orbital/src/types/loading.ts:43-68 | Reading `state` throws exactly when the chain of `data` fields ends in null or undefined. The three flags throw together with it. |
| LoadingState.State | orbital/src/types/loading.ts:43-45 | The `state` getter; `StateThrowsIff` states when reading it throws. |
| LoadingState.IsReady | orbital/src/types/loading.ts:58-60 | The `ready` getter; `ExactlyOneState` states it holds exactly for the `ready` tag and excludes the other two flags. |
| LoadingState.IsFailed | orbital/src/types/loading.ts:62-64 | The `failed` getter; `ExactlyOneState` states it holds exactly for the `error` tag. |
| LoadingState.IsLoading | orbital/src/types/loading.ts:66-68 | The `loading` getter; `ExactlyOneState` states it holds exactly for the `loading` tag. |
| LoadingState.ExactlyOneState | orbital/src/types/loading.ts:43-68 | At most one of ready/failed/loading holds. Exactly one holds when the state is one of the three tags, and none holds otherwise. |
| LoadingState.GettersFollowState | orbital/src/types/loading.ts:70-84 | `value` is non-null only when ready and `err` only when failed. Outside its state each getter is null. |
| LoadingState.Value | orbital/src/types/loading.ts:70-76 | The `value` getter; `ValueGetter` states that it throws with `state`, gives `data.value` when ready and null otherwise, and `GettersFollowState` that it is null outside the ready state. |
| LoadingState.ValueGetter | orbital/src/types/loading.ts:70-76 | Reading `value` throws exactly when reading `ready` does. When ready it gives the `value` member of `data`, and otherwise null. |
| LoadingState.NestedGetters | orbital/src/types/loading.ts:43-84 | A Loading whose `data` is another Loading has the inner one's state, `ready` flag and `value`, because `this.data.state` and `this.data.value` run the inner getters. Its `err` in the error state is undefined, because the inner Loading has no `error` member. |
| LoadingState.NestedReadyForwards | orbital/src/types/loading.ts:22-123 | `auto` of `{state: "ready", data: Ready(x)}` nests the ready Loading, and its `value`, `result()` and `resolveLoading` all give `x`. |
| LoadingState.ErrorValue | orbital/src/types/loading.ts:78-84 | The `err` getter; `GettersFollowState` states it is null outside the error state. |
| LoadingState.Unwrap | orbital/src/types/loading.ts:86-88 | `value ?? undefined`; `ResolveConstructed` states it gives back a ready payload, nullish ones as undefined. |
| LoadingState.UnwrapErr | orbital/src/types/loading.ts:90-92 | `err ?? undefined`; `ResolveConstructed` states that the handler of a failed state receives the error it was built with, a nullish one as undefined. |
| LoadingState.ResultFollowsGetters | orbital/src/types/loading.ts:47-56 | Loading gives `Ok(null)`, error gives `Err(err)` and ready gives `Ok(value)`. A state outside the three tags falls through with no result. |
| LoadingState.ResultOf | orbital/src/types/loading.ts:47-56 | `result()`; `ResultFollowsGetters` states its value in each of the three states and its fall-through otherwise. |
| LoadingState.ConstructorsRoundTrip | orbital/src/types/loading.ts:95-105 | `Ready`, `Waiting` and `Failed` build well-formed ready, loading and error states, and the getters give back what was put in. |
| LoadingState.Ready | orbital/src/types/loading.ts:95-97 | Builds a ready state; `ConstructorsRoundTrip` states it is well-formed and gives back its value. |
| LoadingState.Waiting | orbital/src/types/loading.ts:99-101 | Builds a loading state; `ConstructorsRoundTrip` states it is well-formed and loading. |
| LoadingState.Failed | orbital/src/types/loading.ts:103-105 | Builds an error state; `ConstructorsRoundTrip` states it is well-formed and gives back its error. |
| LoadingState.AutoClassifies | orbital/src/types/loading.ts:22-41 | null is loading. A tagged instance is kept and a tagged plain object has its `data` copied. A plain object with a string `kind` is an error. An instance whose state reads as something other than a tag is ready with itself, as is every other value apart from undefined, which throws (see `AutoTotal`). |
| LoadingState.AutoTotal | orbital/src/types/loading.ts:22-41 | `auto` throws exactly for undefined and for an instance whose state cannot be read. Without a state tag in the input its result is well-formed. |
| LoadingState.AutoIdempotent | orbital/src/types/loading.ts:27-28 | Classifying a well-formed result again changes nothing. |
| LoadingState.Auto | orbital/src/types/loading.ts:22-41 | `Loading.auto`; `AutoClassifies`, `AutoTotal`, `AutoIdempotent` and `AutoRecognizesErrors` state its classification. |
| LoadingState.ResolveLoadingCases | orbital/src/types/loading.ts:107-123 | For any Loading whose state can be read: ready gives the unwrapped value. Failed gives the handler applied to the error, or null with no handler. Every other state, loading or a value outside the three tags, gives `ifLoading`, or null when that is nullish. |
| LoadingState.ResolveLoading | orbital/src/types/loading.ts:107-123 | `resolveLoading`; `ResolveLoadingCases` and `ResolveConstructed` state its result in each state. |
| LoadingState.ResolveConstructed | orbital/src/types/loading.ts:86-123 | Resolving a freshly built state gives its value (nullish values come back as undefined), the handled error, or the loading fallback. |
| LoadingState.ErrorObject | orbital/src-tauri/src/error/mod.rs:6-13 | A backend error reaches the frontend as a plain object holding exactly the members of its wire form, each with the wire form's string, plus `source: "common_internals"` from the application error that wraps it. |
| LoadingState.AutoRecognizesErrors | orbital/src/types/loading.ts:29-37 | `auto` classifies every serialized backend error as the error state carrying that same object. |

## Left out

- File system access in `parse_docs_json` (`exists`, `File::open`, `read_to_end`) is an input: the `fileExists` flag and a `FileRead` outcome.
- `serde_json::from_str` is the `parser` parameter. Its diagnostic text enters the model as is, and the `{:?}` rendering of serde's error type is not modelled.
- f32 parsing, `ceil`, `as f32` rounding and float precision are left out. Parsing is the `parseF32` oracle and narrowing is the `narrow` oracle. The float payload is a real number or an infinity or NaN, so only the branching on `ceil() == v` and the `as i32` casts are modelled.
- Pascal casing (`convert_case`) is the `pascal` parameter, with no properties assumed.
- AssetRequest.WriteRequestFile: reading the file back is promised only for maps whose ids hold no `:` and whose entries hold no line break, because an id with `:` makes the `id::request` split ambiguous and a line break splits an entry over two lines. The text itself and the line count are stated without that restriction (the count needs only the absence of line breaks).
- AssetRequest.GenerateAssetRequest: the same restriction applies to reading back the request map; the texture requests built from asset paths are not shown to be free of line breaks.
- `DocsLoader.JoinPath` models Unix `PathBuf::join` on UTF-8 text. Paths that are not valid UTF-8 and Windows prefixes are not modelled.
- `Utf16ErrorReason` writes the code of the bad unit in decimal. This follows the `Debug` form of `DecodeUtf16Error`, but the exact text Rust's standard library prints is not part of this model.
- The `Display` messages of the errors (`#[error(...)]`) are not modelled, since nothing in the core reads them.
- The Generator, the per-category item types (research, descriptions, buildings, recipes) and `uestring` are not part of this model. The catalog takes their records as type parameters.
- `AssetRequest` takes a description as its two icon slots of (type, path, optional id) references. The `asset_id` field it reads is not declared on the `AssetReference` shown, so the reference type here is the triple the loop destructures.
- In `generate_asset_request`, the `HashMap` iteration order is the `order` parameter. File creation and write errors (`?`) are not modelled, and a short `write` is not modelled.
- `aextract`'s `main`, `cli.rs`, `build.rs` and the C# sidecar (CLI parsing, temporary directories, permissions, subprocesses, downloads) are left out as I/O.
- `useLoading` and `useLoadingState` (React state and effects), the Tauri commands and application state, and the React views, modals, themes and asset hooks are left out as UI and IPC.
- `LoadingState.Prop`: an instance exposes its `data` field and its `state` and `value` getters, the only ones the class reads through `this.data` (`this.data.state`, `this.data.value`). Its other getters (`ready`, `failed`, `loading`, `err`) are not read through a raw value in this code and read as `undefined`. Functions, symbols and other prototype chains are not modelled.
- LoadingState.ErrorObject: the application error wraps `orbital_common::Error`, a name that the common crate's `error.rs` does not declare (it declares `DocsError` and `CommonError`, and its `Result` alias uses `CommonError`). The model takes the wrapped type to be `CommonError`.
- `LoadingState.ResolveLoading`: the handler is a pure function of the error, so a handler that throws is not modelled. The `if_error` argument is either absent or a function.
- `steam.rs` and `test_utils.rs` (library discovery, test configuration) are left out as I/O.
