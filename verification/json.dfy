/** The generic JSON tree (serde_json's `Value`) that the docs loader produces and the
    scalar coercion consumes. */
module Json {

  /** serde_json keeps a number as a non-negative integer, a negative integer or a
      finite 64-bit float; the float's rounding is not modelled, so it is a `real`. */
  datatype Number =
    | PosInt(u: nat)
    | NegInt(i: int)
    | FloatNum(f: real)

  /** Objects are maps: serde_json's default `Map` keeps one value per key. */
  datatype Value =
    | Null
    | Bool(b: bool)
    | Num(n: Number)
    | Str(s: string)
    | Array(items: seq<Value>)
    | Object(fields: map<string, Value>)
}
