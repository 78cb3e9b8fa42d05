/** The scalar coercion layer: a closed four-way union decoded from a JSON scalar that
    may be native or stringified ("True", "42", "None", ...), with total conversions
    that fall back to a default on a mismatched kind. */
module ScalarCoercion {
  import opened Wrappers
  import Json

  const I32_MIN: int := -0x8000_0000
  const I32_MAX: int := 0x7FFF_FFFF

  type I32 = x: int | I32_MIN <= x <= I32_MAX

  /** A 32-bit float's value: finite (rounding is left to whoever produced it), an
      infinity, or NaN. */
  datatype F32 = Finite(r: real) | PosInf | NegInf | NaN

  /** Rounding toward zero of a real. */
  function Trunc(r: real): (t: int)
    ensures r >= 0.0 ==> t as real <= r < t as real + 1.0
    ensures r < 0.0 ==> t as real - 1.0 < r <= t as real
  {
    if r >= 0.0 then r.Floor else -((-r).Floor)
  }

  /** `f.ceil()`. */
  function Ceil(f: F32): F32 {
    match f
    case Finite(r) => Finite((-((-r).Floor)) as real)
    case _ => f
  }

  /** IEEE 754 `==`: NaN equals nothing, not even itself. */
  predicate FloatEq(a: F32, b: F32) {
    !a.NaN? && !b.NaN? && a == b
  }

  /** `v.ceil() == v`: the value has no fractional part (infinities count as whole). */
  predicate IsWhole(f: F32) {
    FloatEq(Ceil(f), f)
  }

  lemma IsWholeMeaning(f: F32)
    ensures f.Finite? ==> (IsWhole(f) <==> f.r == f.r.Floor as real)
    ensures f.PosInf? || f.NegInf? ==> IsWhole(f)
    ensures f.NaN? ==> !IsWhole(f)
  {
    if f.Finite? {
      var r := f.r;
      var c := -((-r).Floor);
      assert c as real - 1.0 < r <= c as real;
      if r == r.Floor as real {
        assert (-r).Floor == -(r.Floor);
      }
      if r == c as real {
        assert r.Floor == c;
      }
    }
  }

  /** Rust's float-to-int `as i32`: rounds toward zero and saturates; NaN becomes 0. */
  function SaturatingToI32(f: F32): (r: I32)
    ensures f.Finite? && I32_MIN as real <= f.r <= I32_MAX as real ==> r == Trunc(f.r)
    ensures f.Finite? && f.r > I32_MAX as real ==> r == I32_MAX
    ensures f.Finite? && f.r < I32_MIN as real ==> r == I32_MIN
    ensures f.PosInf? ==> r == I32_MAX
    ensures f.NegInf? ==> r == I32_MIN
    ensures f.NaN? ==> r == 0
  {
    match f
    case NaN => 0
    case PosInf => I32_MAX
    case NegInf => I32_MIN
    case Finite(x) =>
      var t := Trunc(x);
      if t > I32_MAX then I32_MAX else if t < I32_MIN then I32_MIN else t
  }

  /** Rust's integer-to-integer `as i32` from i64 or u64: keeps the low 32 bits. */
  function WrapToI32(n: int): (r: I32)
    ensures (r - n) % 0x1_0000_0000 == 0
    ensures I32_MIN <= n <= I32_MAX ==> r == n
  {
    (n - I32_MIN) % 0x1_0000_0000 + I32_MIN
  }

  datatype Coercion =
    | Float(f: F32)
    | Integer(i: I32)
    | Boolean(b: bool)
    | String(s: Option<string>)

  predicate IsKeyword(raw: string) {
    raw == "True" || raw == "False" || raw == "None"
  }

  /** Decoding of a JSON string scalar: the three keywords (exact, case-sensitive),
      then a 32-bit float parse (the `parseF32` oracle stands for `str::parse::<f32>`),
      then the text itself. */
  function DecodeString(raw: string, parseF32: string -> Option<F32>): (r: Coercion)
    ensures raw == "True" ==> r == Boolean(true)
    ensures raw == "False" ==> r == Boolean(false)
    ensures raw == "None" ==> r == String(None)
    ensures r.Boolean? <==> raw == "True" || raw == "False"
    ensures r == String(Some(raw)) <==> !IsKeyword(raw) && parseF32(raw).None?
    ensures r.Integer? <==> !IsKeyword(raw) && parseF32(raw).Some? && IsWhole(parseF32(raw).value)
    ensures r.Integer? ==> r.i == SaturatingToI32(parseF32(raw).value)
    ensures r.Float? <==> !IsKeyword(raw) && parseF32(raw).Some? && !IsWhole(parseF32(raw).value)
    ensures r.Float? ==> r.f == parseF32(raw).value
  {
    if raw == "True" then Boolean(true)
    else if raw == "False" then Boolean(false)
    else if raw == "None" then String(None)
    else
      match parseF32(raw)
      case Some(v) => if IsWhole(v) then Integer(SaturatingToI32(v)) else Float(v)
      case None => String(Some(raw))
  }

  /** Decoding of any JSON value. Strings go through `DecodeString`; native booleans,
      numbers and null map directly; arrays and objects become `String(None)`. Native
      floats are narrowed to f32 by the `narrow` oracle (`as f32`); native integers wrap
      to 32 bits. Decoding never fails. */
  function Decode(v: Json.Value, parseF32: string -> Option<F32>, narrow: real -> F32): (r: Coercion)
    ensures v.Str? ==> r == DecodeString(v.s, parseF32)
    ensures v.Bool? ==> r == Boolean(v.b)
    ensures r.Boolean? <==> v.Bool? || (v.Str? && (v.s == "True" || v.s == "False"))
    ensures r == String(None) <==> v.Null? || v.Array? || v.Object? || (v.Str? && v.s == "None")
    ensures v.Num? && v.n.PosInt? ==> r == Integer(WrapToI32(v.n.u))
    ensures v.Num? && v.n.NegInt? ==> r == Integer(WrapToI32(v.n.i))
    ensures v.Num? && v.n.FloatNum? ==> r == Float(narrow(v.n.f))
  {
    match v
    case Str(s) => DecodeString(s, parseF32)
    case Bool(b) => Boolean(b)
    case Num(n) =>
      (match n
       case FloatNum(f) => Float(narrow(f))
       case NegInt(i) => Integer(WrapToI32(i))
       case PosInt(u) => Integer(WrapToI32(u)))
    case Null => String(None)
    case _ => String(None)
  }

  /** `Into<f32>`. */
  function IntoF32(c: Coercion): (r: F32)
    ensures c.Float? ==> r == c.f
    ensures !c.Float? ==> r == Finite(0.0)
  {
    if c.Float? then c.f else Finite(0.0)
  }

  /** `Into<i32>`. */
  function IntoI32(c: Coercion): (r: I32)
    ensures c.Integer? ==> r == c.i
    ensures !c.Integer? ==> r == 0
  {
    if c.Integer? then c.i else 0
  }

  /** `Into<bool>`. */
  function IntoBool(c: Coercion): (r: bool)
    ensures c.Boolean? ==> r == c.b
    ensures !c.Boolean? ==> !r
  {
    c.Boolean? && c.b
  }

  /** `Into<Option<String>>`. */
  function IntoOptionString(c: Coercion): (r: Option<string>)
    ensures c.String? ==> r == c.s
    ensures !c.String? ==> r == None
  {
    if c.String? then c.s else None
  }

  /** `Into<String>`: the empty string stands for both a mismatched kind and `None`. */
  function IntoString(c: Coercion): (r: string)
    ensures c.String? && c.s.Some? ==> r == c.s.value
    ensures !(c.String? && c.s.Some?) ==> r == ""
    ensures r == IntoOptionString(c).GetOr("")
  {
    if c.String? then c.s.GetOr("") else ""
  }

  /** Converting a decoded value back to the native type it came from recovers it:
      the stringified keywords, native booleans, unparsable text, and null. */
  lemma IntoRecoversDecoded(v: Json.Value, parseF32: string -> Option<F32>, narrow: real -> F32)
    ensures v.Bool? ==> IntoBool(Decode(v, parseF32, narrow)) == v.b
    ensures v == Json.Str("True") ==> IntoBool(Decode(v, parseF32, narrow))
    ensures v == Json.Str("False") ==> !IntoBool(Decode(v, parseF32, narrow))
    ensures v.Str? && !IsKeyword(v.s) && parseF32(v.s).None?
      ==> IntoString(Decode(v, parseF32, narrow)) == v.s
          && IntoOptionString(Decode(v, parseF32, narrow)) == Some(v.s)
    ensures v.Null? || v == Json.Str("None") ==> IntoOptionString(Decode(v, parseF32, narrow)) == None
    ensures v.Num? && v.n.PosInt? && v.n.u <= I32_MAX ==> IntoI32(Decode(v, parseF32, narrow)) == v.n.u
    ensures v.Num? && v.n.NegInt? && I32_MIN <= v.n.i <= I32_MAX ==> IntoI32(Decode(v, parseF32, narrow)) == v.n.i
  {
  }

  /** Only the matching kind yields a non-default number or boolean; every other
      conversion of the same value falls back to its default. */
  lemma MismatchedKindsDefault(c: Coercion)
    ensures c.Float? ==> IntoI32(c) == 0 && !IntoBool(c) && IntoOptionString(c) == None && IntoString(c) == ""
    ensures c.Integer? ==> IntoF32(c) == Finite(0.0) && !IntoBool(c) && IntoOptionString(c) == None && IntoString(c) == ""
    ensures c.Boolean? ==> IntoF32(c) == Finite(0.0) && IntoI32(c) == 0 && IntoOptionString(c) == None && IntoString(c) == ""
    ensures c.String? ==> IntoF32(c) == Finite(0.0) && IntoI32(c) == 0 && !IntoBool(c)
  {
  }

  /** Sample inputs and their coercions, for any float parser that reads "42" as 42 and
      "4.5" as 4.5 and rejects "hello". */
  lemma DecodeExamples(parseF32: string -> Option<F32>)
    requires parseF32("42") == Some(Finite(42.0))
    requires parseF32("4.5") == Some(Finite(4.5))
    requires parseF32("hello") == None
    ensures DecodeString("True", parseF32) == Boolean(true)
    ensures DecodeString("False", parseF32) == Boolean(false)
    ensures DecodeString("None", parseF32) == String(None)
    ensures DecodeString("42", parseF32) == Integer(42)
    ensures DecodeString("4.5", parseF32) == Float(Finite(4.5))
    ensures DecodeString("hello", parseF32) == String(Some("hello"))
  {
    assert (4.5).Floor == 4;
    assert (-4.5).Floor == -5;
    assert !IsWhole(Finite(4.5));
  }
}
