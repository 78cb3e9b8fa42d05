/** The asset request builder of the extraction front end (`generate_asset_request`):
    icon references of the catalog's descriptions are folded into an id -> request map
    in which the first reference seen for an id wins, four fixed map-slice textures are
    added, and every entry is written as one `id::request` line. The descriptions are a
    sequence in the order the catalog's map is walked; the file write is the returned
    text; a panicking `unwrap` is the outcome `None`. */
module AssetRequest {
  import opened Wrappers
  import opened Strings

  /** The fields the builder destructures from an icon reference. */
  datatype IconReference = IconReference(assetType: string, assetPath: string, assetId: Option<string>)

  /** The two icon slots of a description entry. */
  datatype Description = Description(bigIcon: Option<IconReference>, icon: Option<IconReference>)

  const TEXTURE_PREFIX: string := "TEXTURE::/FactoryGame/Content/"

  /** The request for a texture: the path with leading `/` removed and everything up to
      and including its first `/` dropped, behind the fixed prefix. `None` when no `/`
      is left to split at (the `unwrap` panics). */
  function TextureRequest(path: string): (r: Option<string>)
    ensures r.None? <==> '/' !in TrimStart(path, '/')
    ensures r.Some? ==> |TEXTURE_PREFIX| <= |r.value| && r.value[..|TEXTURE_PREFIX|] == TEXTURE_PREFIX
  {
    match SplitOnce(TrimStart(path, '/'), '/')
    case Some((_, rest)) =>
      var r := TEXTURE_PREFIX + rest;
      assert r[..|TEXTURE_PREFIX|] == TEXTURE_PREFIX;
      Some(r)
    case None => None
  }

  /** `/<mount>/<rest>` (any number of leading `/`) asks for `<rest>` under the game's
      content root: the mount point is replaced. */
  lemma TextureRequestReplacesMount(lead: string, mount: string, rest: string)
    requires forall i | 0 <= i < |lead| :: lead[i] == '/'
    requires |mount| > 0 && '/' !in mount
    ensures TextureRequest(lead + mount + "/" + rest) == Some(TEXTURE_PREFIX + rest)
  {
    var tail := mount + "/" + rest;
    assert lead + mount + "/" + rest == lead + tail;
    assert tail[0] == mount[0];
    TrimStartPadded(lead, tail, '/');
    assert tail == mount + ['/'] + rest;
    SplitOnceUnique(tail, '/', mount, rest);
  }

  // ---------------------------------------------------------------- the fold

  /** A reference that asks for a texture: type exactly `Texture2D` and an id present. */
  predicate Requests(item: Option<IconReference>) {
    item.Some? && item.value.assetType == "Texture2D" && item.value.assetId.Some?
  }

  function IdOf(item: Option<IconReference>): string
    requires Requests(item)
  {
    item.value.assetId.value
  }

  /** The icon slots in the order the builder looks at them: per description, the big
      icon, then the icon. */
  function Slots(descs: seq<Description>): (items: seq<Option<IconReference>>)
    ensures |items| == 2 * |descs|
    ensures forall k | 0 <= k < |descs| :: items[2 * k] == descs[k].bigIcon && items[2 * k + 1] == descs[k].icon
  {
    if |descs| == 0 then []
    else Slots(descs[..|descs| - 1]) + [descs[|descs| - 1].bigIcon, descs[|descs| - 1].icon]
  }

  /** One slot's effect on the map: only a texture request for an id not yet present
      inserts anything. */
  function Step(acc: Option<map<string, string>>, item: Option<IconReference>): (r: Option<map<string, string>>)
    ensures acc.None? ==> r.None?
    ensures acc.Some? && !(Requests(item) && IdOf(item) !in acc.value) ==> r == acc
    ensures acc.Some? && Requests(item) && IdOf(item) !in acc.value ==>
      (r.None? <==> TextureRequest(item.value.assetPath).None?)
    ensures acc.Some? && Requests(item) && IdOf(item) !in acc.value && TextureRequest(item.value.assetPath).Some? ==>
      r == Some(acc.value[IdOf(item) := TextureRequest(item.value.assetPath).value])
    ensures acc.Some? && r.Some? ==>
      && acc.value.Keys <= r.value.Keys
      && (forall id | id in acc.value :: r.value[id] == acc.value[id])
      && (forall id | id in r.value && id !in acc.value ::
            Requests(item) && id == IdOf(item) && Some(r.value[id]) == TextureRequest(item.value.assetPath))
  {
    match acc
    case None => None
    case Some(m) =>
      if Requests(item) && IdOf(item) !in m then
        match TextureRequest(item.value.assetPath)
        case Some(request) =>
          var grown := m[IdOf(item) := request];
          assert forall id | id in m :: grown[id] == m[id];
          Some(grown)
        case None => None
      else acc
  }

  function Collect(items: seq<Option<IconReference>>): Option<map<string, string>> {
    if |items| == 0 then Some(map[]) else Step(Collect(items[..|items| - 1]), items[|items| - 1])
  }

  /** Slot `i` is the first texture request for its id. */
  predicate FirstFor(items: seq<Option<IconReference>>, i: int)
    requires 0 <= i < |items|
  {
    && Requests(items[i])
    && forall j | 0 <= j < i :: !(Requests(items[j]) && IdOf(items[j]) == IdOf(items[i]))
  }

  /** Slot `i` is the first texture request for its id and its path cannot be split. */
  predicate PanicsAt(items: seq<Option<IconReference>>, i: int)
    requires 0 <= i < |items|
  {
    FirstFor(items, i) && TextureRequest(items[i].value.assetPath).None?
  }

  lemma FirstForPrefix(items: seq<Option<IconReference>>, n: nat)
    requires n <= |items|
    ensures forall i | 0 <= i < n :: FirstFor(items[..n], i) == FirstFor(items, i)
    ensures forall i | 0 <= i < n :: PanicsAt(items[..n], i) == PanicsAt(items, i)
  {
    forall i | 0 <= i < n
      ensures FirstFor(items[..n], i) == FirstFor(items, i)
    {
      FirstForPrefixAt(items, n, i);
    }
  }

  /** Whether slot `i` is a first request does not depend on what follows it. */
  lemma FirstForPrefixAt(items: seq<Option<IconReference>>, n: nat, i: nat)
    requires i < n <= |items|
    ensures FirstFor(items[..n], i) == FirstFor(items, i)
  {
    assert forall j | 0 <= j <= i :: items[..n][j] == items[j];
  }

  /** The fold panics exactly when the first texture request for some id has a path
      with no `/` to split at. */
  lemma {:induction false} CollectPanicsIff(items: seq<Option<IconReference>>)
    ensures Collect(items).None? <==> exists i | 0 <= i < |items| :: PanicsAt(items, i)
    decreases |items|
  {
    if |items| > 0 {
      var n := |items| - 1;
      var prefix := items[..n];
      CollectPanicsIff(prefix);
      FirstForPrefix(items, n);
      if Collect(prefix).None? {
        var i :| 0 <= i < n && PanicsAt(prefix, i);
        assert PanicsAt(items, i);
      } else {
        assert forall i | 0 <= i < n :: !PanicsAt(items, i);
        LastSlotPanics(items);
      }
    }
  }

  /** After a fold of the earlier slots that did not panic, the fold panics exactly
      when the last slot does. */
  lemma LastSlotPanics(items: seq<Option<IconReference>>)
    requires |items| > 0 && Collect(items[..|items| - 1]).Some?
    ensures Collect(items).None? <==> PanicsAt(items, |items| - 1)
  {
    var n := |items| - 1;
    var prefix := items[..n];
    CollectFirstWins(prefix);
    LastSlotFirst(items);
    var m := Collect(prefix).value;
    assert Collect(items) == Step(Some(m), items[n]);
  }

  /** After a fold that did not panic, the last slot is the first request for its id
      exactly when that id is not yet in the map. */
  lemma LastSlotFirst(items: seq<Option<IconReference>>)
    requires |items| > 0 && Collect(items[..|items| - 1]).Some?
    requires KeysRequested(items[..|items| - 1], Collect(items[..|items| - 1]).value)
    requires FirstsRecorded(items[..|items| - 1], Collect(items[..|items| - 1]).value)
    ensures var n := |items| - 1;
      Requests(items[n]) ==> (FirstFor(items, n) <==> IdOf(items[n]) !in Collect(items[..n]).value)
  {
    var n := |items| - 1;
    var prefix := items[..n];
    var m := Collect(prefix).value;
    if Requests(items[n]) {
      var id := IdOf(items[n]);
      if id in m {
        var j :| 0 <= j < n && Requests(prefix[j]) && IdOf(prefix[j]) == id;
        assert items[j] == prefix[j];
      } else {
        forall j | 0 <= j < n && Requests(items[j])
          ensures IdOf(items[j]) != id
        {
          assert items[j] == prefix[j];
          FirstRequestExists(prefix, j);
        }
      }
    }
  }

  /** Every request has a first request for the same id at or before it. */
  lemma {:induction false} FirstRequestExists(items: seq<Option<IconReference>>, j: int)
    requires 0 <= j < |items| && Requests(items[j])
    ensures exists i | 0 <= i <= j :: FirstFor(items, i) && IdOf(items[i]) == IdOf(items[j])
    decreases j
  {
    if !FirstFor(items, j) {
      var k :| 0 <= k < j && Requests(items[k]) && IdOf(items[k]) == IdOf(items[j]);
      FirstRequestExists(items, k);
    }
  }

  /** Every key of `m` is the id of some texture request among `items`. */
  predicate KeysRequested(items: seq<Option<IconReference>>, m: map<string, string>) {
    forall id | id in m :: exists i | 0 <= i < |items| :: Requests(items[i]) && IdOf(items[i]) == id
  }

  /** Every first texture request among `items` is in `m`, mapped to its own request. */
  predicate FirstsRecorded(items: seq<Option<IconReference>>, m: map<string, string>) {
    forall i | 0 <= i < |items| && FirstFor(items, i) ::
      && IdOf(items[i]) in m
      && Some(m[IdOf(items[i])]) == TextureRequest(items[i].value.assetPath)
  }

  /** Whatever the fold builds holds exactly the ids of the texture requests, each
      mapped to the request of the FIRST reference carrying it: later references never
      overwrite an id already present. */
  lemma {:induction false} CollectFirstWins(items: seq<Option<IconReference>>)
    requires Collect(items).Some?
    ensures KeysRequested(items, Collect(items).value)
    ensures FirstsRecorded(items, Collect(items).value)
    decreases |items|
  {
    if |items| > 0 {
      var n := |items| - 1;
      var prefix := items[..n];
      assert Collect(prefix).Some?;
      CollectFirstWins(prefix);
      LastSlotFirst(items);
      StepKeysRequested(items);
      StepFirstsRecorded(items);
    }
  }

  /** The key-origin half of `CollectFirstWins` for the last slot. */
  lemma StepKeysRequested(items: seq<Option<IconReference>>)
    requires |items| > 0 && Collect(items).Some?
    requires KeysRequested(items[..|items| - 1], Collect(items[..|items| - 1]).value)
    ensures KeysRequested(items, Collect(items).value)
  {
    var n := |items| - 1;
    var prefix := items[..n];
    var m := Collect(prefix).value;
    var m' := Collect(items).value;
    forall id | id in m'
      ensures exists i | 0 <= i < |items| :: Requests(items[i]) && IdOf(items[i]) == id
    {
      if id in m {
        var i :| 0 <= i < n && Requests(prefix[i]) && IdOf(prefix[i]) == id;
        assert items[i] == prefix[i];
      } else {
        assert Requests(items[n]) && IdOf(items[n]) == id;
      }
    }
  }

  /** The first-wins half of `CollectFirstWins` for the last slot. */
  lemma StepFirstsRecorded(items: seq<Option<IconReference>>)
    requires |items| > 0 && Collect(items).Some?
    requires FirstsRecorded(items[..|items| - 1], Collect(items[..|items| - 1]).value)
    requires var n := |items| - 1;
      Requests(items[n]) ==> (FirstFor(items, n) <==> IdOf(items[n]) !in Collect(items[..n]).value)
    ensures FirstsRecorded(items, Collect(items).value)
  {
    var n := |items| - 1;
    var prefix := items[..n];
    var m := Collect(prefix).value;
    assert Collect(items) == Step(Some(m), items[n]);
    var m' := Collect(items).value;
    forall i | 0 <= i < |items| && FirstFor(items, i)
      ensures IdOf(items[i]) in m'
      ensures Some(m'[IdOf(items[i])]) == TextureRequest(items[i].value.assetPath)
    {
      if i < n {
        FirstForPrefixAt(items, n, i);
        assert items[i] == prefix[i];
        var id := IdOf(prefix[i]);
        assert id in m && Some(m[id]) == TextureRequest(prefix[i].value.assetPath);
        assert m'[id] == m[id];
      } else {
        assert i == n && Requests(items[n]);
        assert FirstFor(items, n);
        var id := IdOf(items[n]);
        assert id !in m;
        assert m' == m[id := TextureRequest(items[n].value.assetPath).value];
      }
    }
  }

  // ---------------------------------------------------------------- the map slices

  const SLICE_0_0: string := "TEXTURE::/FactoryGame/Content/FactoryGame/Interface/UI/Assets/MapTest/SlicedMap/Map_0-0.Map_0-0"
  const SLICE_1_0: string := "TEXTURE::/FactoryGame/Content/FactoryGame/Interface/UI/Assets/MapTest/SlicedMap/Map_1-0.Map_1-0"
  const SLICE_0_1: string := "TEXTURE::/FactoryGame/Content/FactoryGame/Interface/UI/Assets/MapTest/SlicedMap/Map_0-1.Map_0-1"
  const SLICE_1_1: string := "TEXTURE::/FactoryGame/Content/FactoryGame/Interface/UI/Assets/MapTest/SlicedMap/Map_1-1.Map_1-1"

  predicate IsSliceKey(id: string) {
    id == "MapSlice0_0" || id == "MapSlice1_0" || id == "MapSlice0_1" || id == "MapSlice1_1"
  }

  /** The four map-slice requests, inserted over whatever the fold produced. */
  function WithMapSlices(m: map<string, string>): (r: map<string, string>)
    ensures r.Keys == m.Keys + {"MapSlice0_0", "MapSlice1_0", "MapSlice0_1", "MapSlice1_1"}
    ensures r["MapSlice0_0"] == SLICE_0_0 && r["MapSlice1_0"] == SLICE_1_0
    ensures r["MapSlice0_1"] == SLICE_0_1 && r["MapSlice1_1"] == SLICE_1_1
    ensures forall id | id in m && !IsSliceKey(id) :: r[id] == m[id]
  {
    m["MapSlice0_0" := SLICE_0_0]["MapSlice1_0" := SLICE_1_0]["MapSlice0_1" := SLICE_0_1]["MapSlice1_1" := SLICE_1_1]
  }

  /** The whole request map for the descriptions, or `None` if building it panics. */
  function RequestMap(descs: seq<Description>): Option<map<string, string>> {
    match Collect(Slots(descs))
    case Some(m) => Some(WithMapSlices(m))
    case None => None
  }

  // ---------------------------------------------------------------- the request file

  function Line(id: string, request: string): string {
    id + "::" + request + "\n"
  }

  /** The lines of `order`'s entries, in that order. */
  function RenderLines(order: seq<string>, m: map<string, string>): string
    requires forall i | 0 <= i < |order| :: order[i] in m
  {
    if |order| == 0 then "" else Line(order[0], m[order[0]]) + RenderLines(order[1..], m)
  }

  /** `order` lists every key of `m` exactly once: the iteration order of the map. */
  predicate Enumerates(order: seq<string>, m: map<string, string>) {
    && (forall i, j | 0 <= i < j < |order| :: order[i] != order[j])
    && (forall i | 0 <= i < |order| :: order[i] in m)
    && (forall id | id in m :: id in order)
  }

  /** Ids free of `:` and line breaks, requests free of line breaks: what lets a reader
      recover the map from the file. */
  predicate Writable(m: map<string, string>) {
    NoLineBreaks(m) && forall id | id in m :: ':' !in id
  }

  /** Neither ids nor requests hold a line break: each entry is exactly one line. */
  predicate NoLineBreaks(m: map<string, string>) {
    forall id | id in m :: '\n' !in id && '\n' !in m[id]
  }

  /** A reader of the request file: one `id::request` line per entry, split at the
      first `::`; a later line for the same id replaces an earlier one. */
  function ParseRequests(text: string): Option<map<string, string>>
    decreases |text|
  {
    if |text| == 0 then Some(map[])
    else
      match FirstIndex(text, '\n')
      case None => None
      case Some(k) =>
        match ParseLine(text[..k])
        case None => None
        case Some((id, request)) =>
          match ParseRequests(text[k + 1..])
          case None => None
          case Some(rest) => Some(map[id := request] + rest)
  }

  function ParseLine(line: string): Option<(string, string)> {
    match FirstIndex(line, ':')
    case None => None
    case Some(k) =>
      if k + 1 < |line| && line[k + 1] == ':' then Some((line[..k], line[k + 2..])) else None
  }

  lemma ParseOneLine(id: string, request: string, tail: string)
    requires ':' !in id && '\n' !in id && '\n' !in request
    ensures ParseRequests(Line(id, request) + tail) ==
      match ParseRequests(tail)
      case None => None
      case Some(rest) => Some(map[id := request] + rest)
  {
    var line := id + "::" + request;
    var text := Line(id, request) + tail;
    assert text == line + ['\n'] + tail;
    assert '\n' !in line by {
      assert forall i | 0 <= i < |line| :: line[i] == (if i < |id| then id[i] else if i < |id| + 2 then ':' else request[i - |id| - 2]);
    }
    FirstIndexUnique(line, '\n', tail);
    assert text[..|line|] == line;
    assert text[|line| + 1..] == tail;
    ParseLineSplits(id, request);
  }

  /** A line written from an id without `:` splits back into that id and request. */
  lemma ParseLineSplits(id: string, request: string)
    requires ':' !in id
    ensures ParseLine(id + "::" + request) == Some((id, request))
  {
    var line := id + "::" + request;
    assert line == id + [':'] + (":" + request);
    FirstIndexUnique(id, ':', ":" + request);
    assert line[|id| + 2..] == request;
    assert line[..|id|] == id;
  }

  /** Reading back the lines of a distinct list of writable entries gives exactly those
      entries. */
  lemma {:induction false} ParseRender(order: seq<string>, m: map<string, string>)
    requires forall i | 0 <= i < |order| :: order[i] in m
    requires Writable(m)
    ensures ParseRequests(RenderLines(order, m)) == Some(map id | id in order :: m[id])
    decreases |order|
  {
    if |order| > 0 {
      ParseRender(order[1..], m);
      ParseOneLine(order[0], m[order[0]], RenderLines(order[1..], m));
      var rest := map id | id in order[1..] :: m[id];
      assert map[order[0] := m[order[0]]] + rest == map id | id in order :: m[id];
    }
  }

  lemma {:induction false} RenderAppend(order: seq<string>, m: map<string, string>, id: string)
    requires forall i | 0 <= i < |order| :: order[i] in m
    requires id in m
    ensures RenderLines(order + [id], m) == RenderLines(order, m) + Line(id, m[id])
    decreases |order|
  {
    if |order| == 0 {
      assert [id][1..] == [];
    } else {
      assert (order + [id])[1..] == order[1..] + [id];
      RenderAppend(order[1..], m, id);
    }
  }

  lemma {:induction false} RenderLineCount(order: seq<string>, m: map<string, string>)
    requires forall i | 0 <= i < |order| :: order[i] in m
    requires NoLineBreaks(m)
    ensures Count(RenderLines(order, m), '\n') == |order|
    decreases |order|
  {
    if |order| > 0 {
      var id := order[0];
      RenderLineCount(order[1..], m);
      CountAppend(Line(id, m[id]), RenderLines(order[1..], m), '\n');
      CountAppend(id + "::" + m[id], "\n", '\n');
      CountAppend(id, "::" + m[id], '\n');
      CountAppend("::", m[id], '\n');
    }
  }

  lemma {:induction false} DistinctCardinality(order: seq<string>)
    requires forall i, j | 0 <= i < j < |order| :: order[i] != order[j]
    ensures |set id | id in order| == |order|
    decreases |order|
  {
    if |order| > 0 {
      DistinctCardinality(order[1..]);
      assert (set id | id in order) == {order[0]} + (set id | id in order[1..]);
      assert order[0] !in (set id | id in order[1..]);
    }
  }

  /** The file writer: one line per entry of the map, in iteration order. A reader
      recovers the map from the text, and there is exactly one line per entry. */
  method WriteRequestFile(m: map<string, string>, order: seq<string>) returns (text: string)
    requires Enumerates(order, m)
    ensures text == RenderLines(order, m)
    ensures NoLineBreaks(m) ==> Count(text, '\n') == |m|
    ensures Writable(m) ==> ParseRequests(text) == Some(m)
  {
    text := "";
    var i := 0;
    while i < |order|
      invariant 0 <= i <= |order|
      invariant text == RenderLines(order[..i], m)
    {
      var id := order[i];
      RenderAppend(order[..i], m, id);
      assert order[..i + 1] == order[..i] + [id];
      text := text + Line(id, m[id]);
      i := i + 1;
    }
    assert order[..i] == order;
    if NoLineBreaks(m) {
      RenderLineCount(order, m);
      DistinctCardinality(order);
      assert (set id | id in order) == m.Keys;
    }
    if Writable(m) {
      ParseRender(order, m);
      assert (map id | id in order :: m[id]) == m;
    }
  }

  /** `generate_asset_request` without the file system: `None` when an `unwrap` panics,
      otherwise the request file's text. */
  method GenerateAssetRequest(descs: seq<Description>, order: seq<string>) returns (text: Option<string>)
    requires RequestMap(descs).Some? ==> Enumerates(order, RequestMap(descs).value)
    ensures text.None? <==> exists i | 0 <= i < |Slots(descs)| :: PanicsAt(Slots(descs), i)
    ensures text.Some? ==>
      && RequestMap(descs).Some?
      && text.value == RenderLines(order, RequestMap(descs).value)
      && (NoLineBreaks(RequestMap(descs).value) ==> Count(text.value, '\n') == |RequestMap(descs).value|)
      && (Writable(RequestMap(descs).value) ==> ParseRequests(text.value) == RequestMap(descs))
  {
    var slots := Slots(descs);
    CollectPanicsIff(slots);
    var collected := Collect(slots);
    if collected.None? {
      text := None;
    } else {
      var m := WithMapSlices(collected.value);
      assert RequestMap(descs) == Some(m);
      var written := WriteRequestFile(m, order);
      text := Some(written);
    }
  }
}
