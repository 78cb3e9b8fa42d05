/** The frontend's three-state `Loading<T>` wrapper (`loading`, `error`, `ready`). The
    class is written in TypeScript and its `auto` classifier inspects arbitrary runtime
    values, so the model works over a small universe of JavaScript values: reading a
    property of `null` or `undefined` is a `TypeError`, reading a missing property gives
    `undefined`. The type parameter `T` has no runtime presence and is dropped. */
module LoadingState {
  import opened Wrappers
  import Errors

  /** The runtime values the module meets. `Instance` is an object built by
      `new Loading(data)`: its only own property is `data`, and `state` is a getter on
      its prototype that reads `data.state`. */
  datatype JsValue =
    | Undefined
    | Null
    | Bool(b: bool)
    | Number(n: real)
    | Str(s: string)
    | Array(items: seq<JsValue>)
    | Object(props: map<string, JsValue>)
    | Instance(loading: Loading)

  datatype Loading = Loading(data: JsValue)

  /** A JavaScript evaluation either returns a value or throws a `TypeError`. */
  datatype Thrown<+T> = Returned(value: T) | TypeError

  /** Property read `v[key]` for the keys this module reads (`state`, `data`, `value`,
      `error`, `kind`). Primitives and arrays own none of them; an instance exposes its
      `data` field and runs its `state` and `value` getters, so reading through a Loading
      nested in another one sees the inner Loading's getters. */
  function Prop(v: JsValue, key: string): Thrown<JsValue> {
    match v
    case Undefined => TypeError
    case Null => TypeError
    case Object(p) => Returned(if key in p then p[key] else Undefined)
    case Instance(l) =>
      if key == "data" then Returned(l.data)
      else if key == "state" then Prop(l.data, "state")
      else if key == "value" then
        // the `value` getter: `this.data.value` when `this.state === "ready"`, else null
        match Prop(l.data, "state")
        case TypeError => TypeError
        case Returned(s) => if s == Str("ready") then Prop(l.data, "value") else Returned(Null)
      else Returned(Undefined)
    case _ => Returned(Undefined)
  }

  /** The `??` operator: the fallback replaces exactly `null` and `undefined`. */
  function Coalesce(v: JsValue, fallback: JsValue): (r: JsValue)
    ensures v != Null && v != Undefined ==> r == v
    ensures v == Null || v == Undefined ==> r == fallback
  {
    if v == Null || v == Undefined then fallback else v
  }

  /** One of the three tags `LoadingType` allows. */
  predicate IsStateTag(s: JsValue) {
    s == Str("loading") || s == Str("error") || s == Str("ready")
  }

  /** `isObject(v) && Object.keys(v).includes("kind") && isString(v.kind)`: of the values
      lodash `isObject` accepts, only a plain object can own a `kind` key (array keys are
      indices, an instance owns `data`). */
  predicate HasStringKind(v: JsValue) {
    v.Object? && "kind" in v.props && v.props["kind"].Str?
  }

  // ---------------------------------------------------------------- constructors

  /** `Ready(value)`. */
  function Ready(value: JsValue): Loading {
    Loading(Object(map["state" := Str("ready"), "value" := value]))
  }

  /** `Waiting()`. */
  function Waiting(): Loading {
    Loading(Object(map["state" := Str("loading")]))
  }

  /** `Failed(error)`. */
  function Failed(error: JsValue): Loading {
    Loading(Object(map["state" := Str("error"), "error" := error]))
  }

  // ---------------------------------------------------------------- accessors

  /** The `state` getter: `this.data.state`. */
  function State(l: Loading): Thrown<JsValue> {
    Prop(l.data, "state")
  }

  /** A Loading whose `state` reads as one of the three tags: every value the
      `LoadingType` type admits. */
  predicate WellFormed(l: Loading) {
    State(l).Returned? && IsStateTag(State(l).value)
  }

  /** `this.state === tag`. */
  function StateIs(l: Loading, tag: string): Thrown<bool> {
    match State(l)
    case TypeError => TypeError
    case Returned(s) => Returned(s == Str(tag))
  }

  /** The `ready` getter. */
  function IsReady(l: Loading): Thrown<bool> {
    StateIs(l, "ready")
  }

  /** The `failed` getter. */
  function IsFailed(l: Loading): Thrown<bool> {
    StateIs(l, "error")
  }

  /** The `loading` getter. */
  function IsLoading(l: Loading): Thrown<bool> {
    StateIs(l, "loading")
  }

  /** The `value` getter: the payload when ready, `null` otherwise. It is the getter
      `Prop` runs when `value` is read on the instance. */
  function Value(l: Loading): Thrown<JsValue> {
    Prop(Instance(l), "value")
  }

  /** The `err` getter: the error when failed, `null` otherwise. */
  function ErrorValue(l: Loading): Thrown<JsValue> {
    match IsFailed(l)
    case TypeError => TypeError
    case Returned(failed) => if failed then Prop(l.data, "error") else Returned(Null)
  }

  /** `unwrap()`: the `value` getter with `null` turned into `undefined`. */
  function Unwrap(l: Loading): Thrown<JsValue> {
    match Value(l)
    case TypeError => TypeError
    case Returned(v) => Returned(Coalesce(v, Undefined))
  }

  /** `unwrap_err()`: the `err` getter with `null` turned into `undefined`. */
  function UnwrapErr(l: Loading): Thrown<JsValue> {
    match ErrorValue(l)
    case TypeError => TypeError
    case Returned(e) => Returned(Coalesce(e, Undefined))
  }

  /** `result()`: a switch on the state with no default arm, so a state outside the
      three tags falls through and returns `undefined` (`None`). */
  function ResultOf(l: Loading): Thrown<Option<Result<JsValue, JsValue>>> {
    match State(l)
    case TypeError => TypeError
    case Returned(s) =>
      if s == Str("loading") then Returned(Some(Ok(Null)))
      else if s == Str("error") then
        match Prop(l.data, "error")
        case TypeError => TypeError
        case Returned(e) => Returned(Some(Err(e)))
      else if s == Str("ready") then
        match Prop(l.data, "value")
        case TypeError => TypeError
        case Returned(v) => Returned(Some(Ok(v)))
      else Returned(None)
  }

  // ---------------------------------------------------------------- classification

  /** `Loading.auto(v)`: `null` is loading; anything whose `state` reads as a tag has its
      `data` copied; a plain object with a string `kind` is an error; anything else is
      the ready payload. Reading `state` of `undefined` throws. */
  function Auto(v: JsValue): Thrown<Loading> {
    if v == Null then Returned(Waiting())
    else
      match Prop(v, "state")
      case TypeError => TypeError
      case Returned(s) =>
        if IsStateTag(s) then
          match Prop(v, "data")
          case TypeError => TypeError
          case Returned(d) => Returned(Loading(d))
        else if HasStringKind(v) then Returned(Failed(v))
        else Returned(Ready(v))
  }

  /** `resolveLoading(inner, ifLoading, ifError)`: an omitted `ifLoading` is
      `undefined`, an omitted `ifError` is `None`. */
  function ResolveLoading(inner: Loading, ifLoading: JsValue, ifError: Option<JsValue -> JsValue>): Thrown<JsValue> {
    match IsReady(inner)
    case TypeError => TypeError
    case Returned(ready) =>
      if ready then Unwrap(inner)
      else
        match IsFailed(inner)
        case TypeError => TypeError
        case Returned(failed) =>
          if failed then
            if ifError.Some? then
              match UnwrapErr(inner)
              case TypeError => TypeError
              case Returned(e) => Returned(ifError.value(e))
            else Returned(Null)
          else Returned(Coalesce(ifLoading, Null))
  }

  // ---------------------------------------------------------------- properties

  /** Reading `state` throws exactly when the chain of `data` fields ends in `null` or
      `undefined`; the three flags then all throw together. */
  lemma {:induction false} StateThrowsIff(l: Loading)
    ensures State(l).TypeError? <==> DataChainBroken(l.data)
    ensures IsReady(l).TypeError? == State(l).TypeError?
    ensures IsFailed(l).TypeError? == State(l).TypeError?
    ensures IsLoading(l).TypeError? == State(l).TypeError?
    decreases l
  {
    match l.data
    case Instance(inner) => StateThrowsIff(inner);
    case _ =>
  }

  /** The `data` of an instance chain that ends in `null` or `undefined`. */
  predicate DataChainBroken(v: JsValue) {
    match v
    case Undefined => true
    case Null => true
    case Instance(l) => DataChainBroken(l.data)
    case _ => false
  }

  /** Exactly one of `ready`, `failed`, `loading` holds for a well-formed Loading; for
      any Loading at most one does, and none does when the state is not a tag. */
  lemma ExactlyOneState(l: Loading)
    requires State(l).Returned?
    ensures !(IsReady(l).value && IsFailed(l).value)
    ensures !(IsReady(l).value && IsLoading(l).value)
    ensures !(IsFailed(l).value && IsLoading(l).value)
    ensures WellFormed(l) <==> IsReady(l).value || IsFailed(l).value || IsLoading(l).value
  {
  }

  /** `value` is non-null only in the ready state and `err` only in the error state;
      outside its state each getter is `null`. */
  lemma {:induction false} GettersFollowState(l: Loading)
    requires State(l).Returned?
    ensures Value(l).Returned? && ErrorValue(l).Returned?
    ensures Value(l).value != Null ==> IsReady(l).value
    ensures ErrorValue(l).value != Null ==> IsFailed(l).value
    ensures !IsReady(l).value ==> Value(l).value == Null
    ensures !IsFailed(l).value ==> ErrorValue(l).value == Null
    decreases l
  {
    ValueGetter(l);
    match l.data
    case Instance(inner) =>
      NestedGetters(inner);
      GettersFollowState(inner);
    case _ =>
  }

  /** What the `value` getter does, read off `Prop`: throw with `state`, give the `value`
      member of `data` when ready, and `null` otherwise. */
  lemma ValueGetter(l: Loading)
    ensures IsReady(l).TypeError? ==> Value(l).TypeError?
    ensures IsReady(l) == Returned(true) ==> Value(l) == Prop(l.data, "value")
    ensures IsReady(l) == Returned(false) ==> Value(l) == Returned(Null)
  {
    assert Value(l) == Prop(Instance(l), "value");
  }

  /** A Loading whose `data` is another Loading answers every getter with the inner
      one's answer, because `this.data.state` and `this.data.value` run the inner getters;
      only `err`, which reads `this.data.error`, finds no member and gives `undefined`. */
  lemma NestedGetters(inner: Loading)
    ensures State(Loading(Instance(inner))) == State(inner)
    ensures IsReady(Loading(Instance(inner))) == IsReady(inner)
    ensures Value(Loading(Instance(inner))) == Value(inner)
    ensures IsFailed(inner) == Returned(true) ==> ErrorValue(Loading(Instance(inner))) == Returned(Undefined)
  {
    var outer := Loading(Instance(inner));
    ValueGetter(outer);
    ValueGetter(inner);
    assert State(outer) == Prop(Instance(inner), "state");
  }

  /** A ready Loading wrapped in another one, as `auto` builds it from
      `{state: "ready", data: Ready(x)}`, gives `x` from `value`, `result()` and
      `resolveLoading`. */
  lemma NestedReadyForwards(x: JsValue, ifLoading: JsValue)
    ensures Auto(Object(map["state" := Str("ready"), "data" := Instance(Ready(x))]))
      == Returned(Loading(Instance(Ready(x))))
    ensures Value(Loading(Instance(Ready(x)))) == Returned(x)
    ensures ResultOf(Loading(Instance(Ready(x)))) == Returned(Some(Ok(x)))
    ensures ResolveLoading(Loading(Instance(Ready(x))), ifLoading, None) == Returned(Coalesce(x, Undefined))
  {
    ConstructorsRoundTrip(x, x);
    NestedGetters(Ready(x));
    var l := Loading(Instance(Ready(x)));
    ResultFollowsGetters(l);
    ResolveLoadingCases(l, ifLoading, None);
  }

  /** `result()` agrees with the getters: loading gives `Ok(null)`, error gives
      `Err(err)`, ready gives `Ok(value)`, and a state outside the tags gives nothing. */
  lemma ResultFollowsGetters(l: Loading)
    requires State(l).Returned?
    ensures IsLoading(l).value ==> ResultOf(l) == Returned(Some(Ok(Null)))
    ensures IsFailed(l).value ==> ResultOf(l) == Returned(Some(Err(ErrorValue(l).value)))
    ensures IsReady(l).value ==> Value(l).Returned? && ResultOf(l) == Returned(Some(Ok(Value(l).value)))
    ensures !WellFormed(l) <==> ResultOf(l) == Returned(None)
  {
    GettersFollowState(l);
  }

  /** `Ready`, `Waiting` and `Failed` build the ready, loading and error states, and
      the getters give back what was put in. */
  lemma ConstructorsRoundTrip(value: JsValue, error: JsValue)
    ensures WellFormed(Ready(value)) && IsReady(Ready(value)) == Returned(true)
    ensures Value(Ready(value)) == Returned(value) && ErrorValue(Ready(value)) == Returned(Null)
    ensures WellFormed(Waiting()) && IsLoading(Waiting()) == Returned(true)
    ensures Value(Waiting()) == Returned(Null) && ErrorValue(Waiting()) == Returned(Null)
    ensures WellFormed(Failed(error)) && IsFailed(Failed(error)) == Returned(true)
    ensures ErrorValue(Failed(error)) == Returned(error) && Value(Failed(error)) == Returned(Null)
  {
    ValueGetter(Ready(value));
    ValueGetter(Waiting());
    ValueGetter(Failed(error));
    assert Str("ready") != Str("loading") && Str("ready") != Str("error");
    assert Str("loading") != Str("error");
  }

  /** `auto`'s classification: `null` is loading; a tagged value has its `data` copied;
      a plain object with a string `kind` is an error; every other value except
      `undefined` (which throws) is ready with itself as the payload. */
  lemma AutoClassifies(v: JsValue)
    ensures v == Null ==> Auto(v) == Returned(Waiting())
    ensures v == Undefined ==> Auto(v).TypeError?
    ensures v.Instance? && WellFormed(v.loading) ==> Auto(v) == Returned(v.loading)
    ensures v.Instance? && State(v.loading).Returned? && !WellFormed(v.loading) ==>
      Auto(v) == Returned(Ready(v))
    ensures v.Object? && "state" in v.props && IsStateTag(v.props["state"]) ==>
      Auto(v) == Returned(Loading(if "data" in v.props then v.props["data"] else Undefined))
    ensures HasStringKind(v) && !("state" in v.props && IsStateTag(v.props["state"])) ==>
      Auto(v) == Returned(Failed(v))
    ensures (v.Bool? || v.Number? || v.Str? || v.Array?) ==> Auto(v) == Returned(Ready(v))
    ensures v.Object? && !HasStringKind(v) && !("state" in v.props && IsStateTag(v.props["state"])) ==>
      Auto(v) == Returned(Ready(v))
  {
    if v.Instance? {
      assert State(v.loading) == Prop(v, "state");
    }
  }

  /** `auto` throws exactly for `undefined` and for an instance whose state cannot be
      read; whenever it returns, its result is well-formed unless the input carried a
      state tag (whose `data` is then copied without inspection). */
  lemma AutoTotal(v: JsValue)
    ensures Auto(v).TypeError? <==> v == Undefined || (v.Instance? && DataChainBroken(v.loading.data))
    ensures Auto(v).Returned? && !(Prop(v, "state").Returned? && IsStateTag(Prop(v, "state").value)) ==>
      WellFormed(Auto(v).value)
  {
    if v.Instance? {
      StateThrowsIff(v.loading);
    }
    ConstructorsRoundTrip(v, v);
  }

  /** Classifying a well-formed result again changes nothing. */
  lemma AutoIdempotent(v: JsValue)
    requires Auto(v).Returned? && WellFormed(Auto(v).value)
    ensures Auto(Instance(Auto(v).value)) == Auto(v)
  {
    AutoClassifies(Instance(Auto(v).value));
  }

  /** `resolveLoading`'s three outcomes for a Loading whose state can be read: the
      unwrapped value when ready; the handler applied to the error, or `null` without a
      handler, when failed; otherwise (loading, or a state outside the three tags)
      `ifLoading`, or `null` when it is omitted or nullish. */
  lemma ResolveLoadingCases(inner: Loading, ifLoading: JsValue, ifError: Option<JsValue -> JsValue>)
    requires State(inner).Returned?
    ensures IsReady(inner).value ==> ResolveLoading(inner, ifLoading, ifError) == Unwrap(inner)
    ensures IsFailed(inner).value && ifError.Some? ==>
      ResolveLoading(inner, ifLoading, ifError) == Returned(ifError.value(UnwrapErr(inner).value))
    ensures IsFailed(inner).value && ifError.None? ==> ResolveLoading(inner, ifLoading, ifError) == Returned(Null)
    ensures !IsReady(inner).value && !IsFailed(inner).value ==>
      ResolveLoading(inner, ifLoading, ifError) == Returned(Coalesce(ifLoading, Null))
  {
    GettersFollowState(inner);
  }

  /** Resolving a freshly built state: the value itself (nullish values come back as
      `undefined`), the handled error, or the loading fallback. */
  lemma ResolveConstructed(value: JsValue, error: JsValue, ifLoading: JsValue, handler: JsValue -> JsValue)
    ensures ResolveLoading(Ready(value), ifLoading, None) == Returned(Coalesce(value, Undefined))
    ensures ResolveLoading(Failed(error), ifLoading, Some(handler)) == Returned(handler(Coalesce(error, Undefined)))
    ensures ResolveLoading(Waiting(), ifLoading, Some(handler)) == Returned(Coalesce(ifLoading, Null))
  {
    ConstructorsRoundTrip(value, error);
    ResolveLoadingCases(Ready(value), ifLoading, None);
    ResolveLoadingCases(Failed(error), ifLoading, Some(handler));
    ResolveLoadingCases(Waiting(), ifLoading, Some(handler));
  }

  // ---------------------------------------------------------------- backend errors

  /** A backend error as it reaches the frontend: the application's error type wraps the
      common error as its `common_internals` variant, tagged by `source` with the common
      error flattened beside it, and the result arrives as a plain object of strings.
      The wrapped type is named `orbital_common::Error`, which the common crate does not
      declare; it is taken to be `CommonError`, the error of the crate's `Result`. */
  function ErrorObject(c: Errors.CommonError): (v: JsValue)
    ensures v.Object? && v.props.Keys == Errors.Serialize(c).Keys + {"source"}
    ensures v.props["source"] == Str("common_internals")
    ensures forall k | k in Errors.Serialize(c) :: v.props[k] == Str(Errors.Serialize(c)[k])
  {
    var m := Errors.Serialize(c);
    assert "source" !in m;
    Object((map k | k in m :: Str(m[k]))["source" := Str("common_internals")])
  }

  /** Every backend error is classified by `auto` as the error state carrying that very
      object: it has a string `kind` and no `state` member. */
  lemma AutoRecognizesErrors(c: Errors.CommonError)
    ensures Auto(ErrorObject(c)) == Returned(Failed(ErrorObject(c)))
    ensures ErrorValue(Auto(ErrorObject(c)).value) == Returned(ErrorObject(c))
  {
    var v := ErrorObject(c);
    var m := Errors.Serialize(c);
    assert "kind" in Errors.SerializeDocs(c.error);
    assert "kind" in m && "state" !in m;
    AutoClassifies(v);
    ConstructorsRoundTrip(v, v);
  }
}
