/** UTF-16 little-endian text as the docs export is stored: byte pairing, surrogate
    decoding (section 2.2 of RFC 2781) as Rust's `char::decode_utf16` performs it, the
    matching encoder, and removal of a leading byte order mark (section 3.2 of RFC 2781). */
module Utf16 {
  import opened Wrappers

  type Byte = x: int | 0 <= x < 0x100
  type CodeUnit = x: int | 0 <= x < 0x1_0000

  predicate IsHighSurrogate(u: int) { 0xD800 <= u <= 0xDBFF }
  predicate IsLowSurrogate(u: int) { 0xDC00 <= u <= 0xDFFF }
  predicate IsSurrogate(u: int) { 0xD800 <= u <= 0xDFFF }

  // ---------------------------------------------------------------- bytes <-> code units

  /** `u16::from_le_bytes([lo, hi])`. */
  function FromLeBytes(lo: Byte, hi: Byte): CodeUnit {
    lo as int + 0x100 * (hi as int)
  }

  /** Consecutive byte pairs read as little-endian code units. */
  function PairBytes(bytes: seq<Byte>): (units: seq<CodeUnit>)
    requires |bytes| % 2 == 0
    ensures |units| == |bytes| / 2
    ensures forall i | 0 <= i < |units| :: units[i] == bytes[2 * i] as int + 0x100 * (bytes[2 * i + 1] as int)
  {
    seq(|bytes| / 2, i requires 0 <= i < |bytes| / 2 => FromLeBytes(bytes[2 * i], bytes[2 * i + 1]))
  }

  /** The inverse direction: each code unit as its low byte then its high byte. */
  function UnpairUnits(units: seq<CodeUnit>): (bytes: seq<Byte>)
    ensures |bytes| == 2 * |units|
    ensures forall i | 0 <= i < |units| :: bytes[2 * i] == units[i] % 0x100 && bytes[2 * i + 1] == units[i] / 0x100
    decreases |units|
  {
    if |units| == 0 then []
    else
      var rest := UnpairUnits(units[1..]);
      var r := [units[0] % 0x100, units[0] / 0x100] + rest;
      assert forall i | 1 <= i < |units| :: r[2 * i] == rest[2 * (i - 1)] && r[2 * i + 1] == rest[2 * (i - 1) + 1];
      r
  }

  lemma PairUnpair(units: seq<CodeUnit>)
    ensures PairBytes(UnpairUnits(units)) == units
  {
    var bytes := UnpairUnits(units);
    var back := PairBytes(bytes);
    forall i | 0 <= i < |units|
      ensures back[i] == units[i]
    {
      LowHigh(units[i]);
    }
  }

  lemma LowHigh(u: CodeUnit)
    ensures u % 0x100 + 0x100 * (u / 0x100) == u
  {
  }

  lemma UnpairPair(bytes: seq<Byte>)
    requires |bytes| % 2 == 0
    ensures UnpairUnits(PairBytes(bytes)) == bytes
  {
    var back := UnpairUnits(PairBytes(bytes));
    forall k | 0 <= k < |bytes|
      ensures back[k] == bytes[k]
    {
      var i := k / 2;
      assert k == 2 * i || k == 2 * i + 1;
      UnpairPairAt(bytes, i);
    }
  }

  /** The two bytes of one unit survive pairing and splitting. */
  lemma UnpairPairAt(bytes: seq<Byte>, i: nat)
    requires |bytes| % 2 == 0 && i < |bytes| / 2
    ensures UnpairUnits(PairBytes(bytes))[2 * i] == bytes[2 * i]
    ensures UnpairUnits(PairBytes(bytes))[2 * i + 1] == bytes[2 * i + 1]
  {
    var units := PairBytes(bytes);
    assert units[i] == FromLeBytes(bytes[2 * i], bytes[2 * i + 1]);
    SplitLeBytes(bytes[2 * i], bytes[2 * i + 1]);
  }

  // ---------------------------------------------------------------- code units <-> text

  /** The scalar value a surrogate pair stands for. */
  function CombinePair(hi: CodeUnit, lo: CodeUnit): (c: char)
    requires IsHighSurrogate(hi) && IsLowSurrogate(lo)
    ensures c as int == 0x10000 + (hi - 0xD800) * 0x400 + (lo - 0xDC00)
    ensures 0x10000 <= c as int
  {
    (0x10000 + (hi - 0xD800) * 0x400 + (lo - 0xDC00)) as char
  }

  /** `decode_utf16(units).collect::<Result<String, _>>()`: a non-surrogate unit is its
      own character, a high surrogate followed by a low one is a pair, and the first
      unit that is neither is the error. */
  function DecodeUtf16(units: seq<CodeUnit>): (r: Result<string, CodeUnit>)
    ensures r.Err? ==> IsSurrogate(r.error) && r.error in units
    ensures r.Err? ==> exists i :: FirstUnpaired(units, i) && units[i] == r.error
    decreases |units|
  {
    if |units| == 0 then Ok([])
    else if !IsSurrogate(units[0]) then
      match DecodeUtf16(units[1..])
      case Ok(rest) => Ok([units[0] as char] + rest)
      case Err(e) =>
        FirstUnpairedAfterPlain(units, e);
        Err(e)
    else if IsHighSurrogate(units[0]) && |units| >= 2 && IsLowSurrogate(units[1]) then
      match DecodeUtf16(units[2..])
      case Ok(rest) => Ok([CombinePair(units[0], units[1])] + rest)
      case Err(e) =>
        FirstUnpairedAfterPair(units, e);
        Err(e)
    else
      assert units[..0] == [];
      assert FirstUnpaired(units, 0);
      Err(units[0])
  }

  /** Unit `i` is a surrogate without its partner: a low surrogate (the prefix being
      paired, nothing before it can claim it), or a high surrogate not followed by a low
      one. */
  predicate UnpairedAt(units: seq<CodeUnit>, i: int)
    requires 0 <= i < |units|
  {
    || IsLowSurrogate(units[i])
    || (IsHighSurrogate(units[i]) && !(i + 1 < |units| && IsLowSurrogate(units[i + 1])))
  }

  /** Unit `i` is the first unpaired unit: everything before it is properly paired. */
  predicate FirstUnpaired(units: seq<CodeUnit>, i: int) {
    0 <= i < |units| && Paired(units[..i]) && UnpairedAt(units, i)
  }

  /** A leading plain unit shifts the first unpaired unit by one. */
  lemma FirstUnpairedAfterPlain(units: seq<CodeUnit>, e: CodeUnit)
    requires |units| > 0 && !IsSurrogate(units[0])
    requires exists j :: FirstUnpaired(units[1..], j) && units[1..][j] == e
    ensures exists i :: FirstUnpaired(units, i) && units[i] == e
  {
    var tail := units[1..];
    var j :| FirstUnpaired(tail, j) && tail[j] == e;
    var p := units[..j + 1];
    var q := tail[..j];
    assert forall k | 1 <= k < |p| :: p[k] == q[k - 1];
    assert forall k | 1 <= k < |units| :: units[k] == tail[k - 1];
    assert Paired(p);
    assert FirstUnpaired(units, j + 1);
  }

  /** A leading surrogate pair shifts the first unpaired unit by two. */
  lemma FirstUnpairedAfterPair(units: seq<CodeUnit>, e: CodeUnit)
    requires |units| >= 2 && IsHighSurrogate(units[0]) && IsLowSurrogate(units[1])
    requires exists j :: FirstUnpaired(units[2..], j) && units[2..][j] == e
    ensures exists i :: FirstUnpaired(units, i) && units[i] == e
  {
    var tail := units[2..];
    var j :| FirstUnpaired(tail, j) && tail[j] == e;
    var p := units[..j + 2];
    var q := tail[..j];
    assert forall k | 2 <= k < |p| :: p[k] == q[k - 2];
    assert forall k | 2 <= k < |units| :: units[k] == tail[k - 2];
    assert Paired(p);
    assert FirstUnpaired(units, j + 2);
  }

  /** An unpaired unit at `j` leaves every longer prefix unpaired. */
  lemma UnpairedBreaksPrefix(units: seq<CodeUnit>, j: int, i: int)
    requires 0 <= j < i <= |units|
    ensures FirstUnpaired(units, j) ==> !Paired(units[..i])
  {
    var pre := units[..i];
    assert pre[j] == units[j];
    assert j > 0 ==> pre[j - 1] == units[j - 1] && units[..j][j - 1] == units[j - 1];
    assert j + 1 < i ==> pre[j + 1] == units[j + 1];
  }

  /** There is at most one first unpaired unit, so the unit a failed decode reports is
      determined by the input. */
  lemma FirstUnpairedUnique(units: seq<CodeUnit>, i: int)
    requires FirstUnpaired(units, i)
    ensures forall j | 0 <= j < |units| && j != i :: !FirstUnpaired(units, j)
  {
    forall j | 0 <= j < |units| && j != i
      ensures !FirstUnpaired(units, j)
    {
      if j < i {
        UnpairedBreaksPrefix(units, j, i);
      } else {
        UnpairedBreaksPrefix(units, i, j);
      }
    }
  }

  /** One character as one code unit, or as a surrogate pair above U+FFFF. */
  function EncodeChar(c: char): (units: seq<CodeUnit>)
    ensures c as int < 0x10000 ==> units == [c as int]
    ensures 0x10000 <= c as int ==> |units| == 2 && IsHighSurrogate(units[0]) && IsLowSurrogate(units[1])
  {
    if c as int < 0x10000 then [c as int]
    else
      var v := c as int - 0x10000;
      [0xD800 + v / 0x400, 0xDC00 + v % 0x400]
  }

  function EncodeUtf16(s: string): seq<CodeUnit>
    decreases |s|
  {
    if |s| == 0 then [] else EncodeChar(s[0]) + EncodeUtf16(s[1..])
  }

  lemma CombineEncoded(c: char)
    requires 0x10000 <= c as int
    ensures CombinePair(EncodeChar(c)[0], EncodeChar(c)[1]) == c
  {
    var v := c as int - 0x10000;
    assert v == (v / 0x400) * 0x400 + v % 0x400;
  }

  lemma EncodeCombined(hi: CodeUnit, lo: CodeUnit)
    requires IsHighSurrogate(hi) && IsLowSurrogate(lo)
    ensures EncodeChar(CombinePair(hi, lo)) == [hi, lo]
  {
    var v := (hi - 0xD800) * 0x400 + (lo - 0xDC00);
    DivModUnique(hi - 0xD800, lo - 0xDC00);
    assert v / 0x400 == hi - 0xD800;
    assert v % 0x400 == lo - 0xDC00;
  }

  lemma DivModUnique(q: nat, r: nat)
    requires r < 0x400
    ensures (q * 0x400 + r) / 0x400 == q && (q * 0x400 + r) % 0x400 == r
  {
  }

  lemma SplitLeBytes(lo: Byte, hi: Byte)
    ensures FromLeBytes(lo, hi) % 0x100 == lo && FromLeBytes(lo, hi) / 0x100 == hi
  {
  }

  /** Encoding then decoding gives back every string. */
  lemma {:induction false} DecodeEncode(s: string)
    ensures DecodeUtf16(EncodeUtf16(s)) == Ok(s)
    decreases |s|
  {
    if |s| > 0 {
      var u := EncodeUtf16(s);
      var head := EncodeChar(s[0]);
      DecodeEncode(s[1..]);
      assert u == head + EncodeUtf16(s[1..]);
      if s[0] as int < 0x10000 {
        assert u[1..] == EncodeUtf16(s[1..]);
      } else {
        assert u[2..] == EncodeUtf16(s[1..]);
        CombineEncoded(s[0]);
      }
      assert s == [s[0]] + s[1..];
    }
  }

  /** Whatever decodes successfully is the encoding of what it decodes to. */
  lemma {:induction false} EncodeDecode(units: seq<CodeUnit>)
    requires DecodeUtf16(units).Ok?
    ensures EncodeUtf16(DecodeUtf16(units).value) == units
    decreases |units|
  {
    if |units| > 0 {
      var s := DecodeUtf16(units).value;
      if !IsSurrogate(units[0]) {
        EncodeDecode(units[1..]);
        assert s[1..] == DecodeUtf16(units[1..]).value;
        assert units == [units[0]] + units[1..];
      } else {
        EncodeDecode(units[2..]);
        assert s[1..] == DecodeUtf16(units[2..]).value;
        EncodeCombined(units[0], units[1]);
        assert units == [units[0], units[1]] + units[2..];
      }
    }
  }

  /** Decoding succeeds exactly on the encodings of strings. */
  lemma DecodeSucceedsIff(units: seq<CodeUnit>)
    ensures DecodeUtf16(units).Ok? <==> exists s :: EncodeUtf16(s) == units
  {
    if DecodeUtf16(units).Ok? {
      EncodeDecode(units);
    }
    if s :| EncodeUtf16(s) == units {
      DecodeEncode(s);
    }
  }

  /** Every high surrogate is directly followed by a low one and every low surrogate
      directly follows a high one. */
  predicate Paired(units: seq<CodeUnit>) {
    && (forall i | 0 <= i < |units| && IsHighSurrogate(units[i]) :: i + 1 < |units| && IsLowSurrogate(units[i + 1]))
    && (forall i | 0 <= i < |units| && IsLowSurrogate(units[i]) :: 0 < i && IsHighSurrogate(units[i - 1]))
  }

  /** Decoding fails exactly when some surrogate, anywhere, is unpaired. */
  lemma {:induction false} DecodeFailsIffUnpaired(units: seq<CodeUnit>)
    ensures DecodeUtf16(units).Ok? <==> Paired(units)
    decreases |units|
  {
    if |units| == 0 {
    } else if !IsSurrogate(units[0]) {
      var tail := units[1..];
      DecodeFailsIffUnpaired(tail);
      assert forall i | 1 <= i < |units| :: units[i] == tail[i - 1];
      if Paired(tail) {
        assert Paired(units);
      }
      if Paired(units) {
        assert Paired(tail);
      }
    } else if IsHighSurrogate(units[0]) && |units| >= 2 && IsLowSurrogate(units[1]) {
      var tail := units[2..];
      DecodeFailsIffUnpaired(tail);
      assert forall i | 2 <= i < |units| :: units[i] == tail[i - 2];
      if Paired(tail) {
        assert Paired(units);
      }
      if Paired(units) {
        assert Paired(tail);
      }
    } else {
      assert !Paired(units);
    }
  }

  /** A surrogate pair decodes to the scalar value section 2.2 of RFC 2781 gives it. */
  lemma PairDecodes(hi: CodeUnit, lo: CodeUnit)
    requires IsHighSurrogate(hi) && IsLowSurrogate(lo)
    ensures DecodeUtf16([hi, lo]) == Ok([(0x10000 + (hi - 0xD800) * 0x400 + (lo - 0xDC00)) as char])
  {
    assert [hi, lo][2..] == [];
    assert DecodeUtf16([hi, lo][2..]) == Ok([]);
    assert DecodeUtf16([hi, lo]) == Ok([CombinePair(hi, lo)] + []);
    assert [CombinePair(hi, lo)] + [] == [CombinePair(hi, lo)];
    assert CombinePair(hi, lo) == (0x10000 + (hi - 0xD800) * 0x400 + (lo - 0xDC00)) as char;
  }

  /** Units outside the surrogate range decode one for one to themselves. */
  lemma {:induction false} PlainUnitsDecode(units: seq<CodeUnit>)
    requires forall i | 0 <= i < |units| :: !IsSurrogate(units[i])
    ensures DecodeUtf16(units).Ok?
    ensures |DecodeUtf16(units).value| == |units|
    ensures forall i | 0 <= i < |units| :: DecodeUtf16(units).value[i] as int == units[i]
    decreases |units|
  {
    if |units| > 0 {
      PlainUnitsDecode(units[1..]);
    }
  }

  // ---------------------------------------------------------------- byte order mark

  const BOM: char := '\U{FEFF}'

  /** `strip_bom`: removes one leading U+FEFF, if there is one. */
  function StripBom(s: string): (r: string)
    ensures |s| > 0 && s[0] == BOM ==> r == s[1..]
    ensures |s| == 0 || s[0] != BOM ==> r == s
  {
    if |s| > 0 && s[0] == BOM then s[1..] else s
  }

  /** A mark put in front of any text is taken off again, and only that one mark. */
  lemma StripBomUndoesMark(s: string)
    ensures StripBom([BOM] + s) == s
    ensures |s| > 0 && s[0] == BOM ==> |StripBom([BOM] + s)| > 0 && StripBom([BOM] + s)[0] == BOM
  {
  }
}
