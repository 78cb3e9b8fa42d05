/** Character-level string surgery as Rust's `str` offers it: `trim_end_matches`,
    `trim_start_matches`, `split_once`, `rsplit_once` and `ends_with`, each with a
    contract that characterises its result independently of how it is computed. */
module Strings {
  import opened Wrappers

  predicate EndsWith(s: string, suffix: string) {
    |suffix| <= |s| && s[|s| - |suffix|..] == suffix
  }

  /** `s.trim_end_matches(c)`: the longest prefix of `s` that does not end in `c`. */
  function TrimEnd(s: string, c: char): (r: string)
    ensures r <= s
    ensures |r| == 0 || r[|r| - 1] != c
    ensures forall i | |r| <= i < |s| :: s[i] == c
    decreases |s|
  {
    if |s| > 0 && s[|s| - 1] == c then TrimEnd(s[..|s| - 1], c) else s
  }

  /** `s.trim_start_matches(c)`: the longest suffix of `s` that does not start with `c`. */
  function TrimStart(s: string, c: char): (r: string)
    ensures |r| <= |s| && r == s[|s| - |r|..]
    ensures |r| == 0 || r[0] != c
    ensures forall i | 0 <= i < |s| - |r| :: s[i] == c
    decreases |s|
  {
    if |s| > 0 && s[0] == c then TrimStart(s[1..], c) else s
  }

  /** Index of the first `c` in `s`. */
  function FirstIndex(s: string, c: char): (r: Option<nat>)
    ensures r.None? <==> c !in s
    ensures r.Some? ==> r.value < |s| && s[r.value] == c && c !in s[..r.value]
    decreases |s|
  {
    if |s| == 0 then None
    else if s[0] == c then Some(0)
    else
      match FirstIndex(s[1..], c)
      case None => None
      case Some(k) =>
        assert s[..k + 1] == [s[0]] + s[1..][..k];
        Some(k + 1)
  }

  /** Index of the last `c` in `s`. */
  function LastIndex(s: string, c: char): (r: Option<nat>)
    ensures r.None? <==> c !in s
    ensures r.Some? ==> r.value < |s| && s[r.value] == c && c !in s[r.value + 1..]
    decreases |s|
  {
    if |s| == 0 then None
    else if s[|s| - 1] == c then Some(|s| - 1)
    else
      var r := LastIndex(s[..|s| - 1], c);
      assert r.None? ==> s == s[..|s| - 1] + [s[|s| - 1]];
      assert r.Some? ==> s[r.value + 1..] == s[..|s| - 1][r.value + 1..] + [s[|s| - 1]];
      r
  }

  /** `s.split_once(c)`: the text before the first `c` and the text after it. */
  function SplitOnce(s: string, c: char): (r: Option<(string, string)>)
    ensures r.None? <==> c !in s
    ensures r.Some? ==> r.value.0 + [c] + r.value.1 == s && c !in r.value.0
  {
    match FirstIndex(s, c)
    case None => None
    case Some(k) =>
      assert s == s[..k] + [c] + s[k + 1..];
      Some((s[..k], s[k + 1..]))
  }

  /** `s.rsplit_once(c)`: the text before the last `c` and the text after it. */
  function RSplitOnce(s: string, c: char): (r: Option<(string, string)>)
    ensures r.None? <==> c !in s
    ensures r.Some? ==> r.value.0 + [c] + r.value.1 == s && c !in r.value.1
  {
    match LastIndex(s, c)
    case None => None
    case Some(k) =>
      assert s == s[..k] + [c] + s[k + 1..];
      Some((s[..k], s[k + 1..]))
  }

  /** A split at a separator that does not occur in the right part is the one
      `rsplit_once` finds. */
  lemma RSplitOnceUnique(s: string, c: char, a: string, b: string)
    requires s == a + [c] + b && c !in b
    ensures RSplitOnce(s, c) == Some((a, b))
  {
    var r := RSplitOnce(s, c);
    assert s[|a|] == c;
    var (a', b') := r.value;
    assert s[|a'|] == c;
    assert forall i | |a'| < i < |s| :: s[i] == b'[i - |a'| - 1];
    assert forall i | |a| < i < |s| :: s[i] == b[i - |a| - 1];
    assert |a'| == |a|;
    assert a' == s[..|a|] == a;
    assert b' == s[|a| + 1..] == b;
  }

  /** A split at a separator that does not occur in the left part is the one
      `split_once` finds. */
  lemma SplitOnceUnique(s: string, c: char, a: string, b: string)
    requires s == a + [c] + b && c !in a
    ensures SplitOnce(s, c) == Some((a, b))
  {
    var r := SplitOnce(s, c);
    assert s[|a|] == c;
    var (a', b') := r.value;
    assert s[|a'|] == c;
    assert forall i | 0 <= i < |a'| :: s[i] == a'[i];
    assert forall i | 0 <= i < |a| :: s[i] == a[i];
    assert |a'| == |a|;
    assert a' == s[..|a|] == a;
    assert b' == s[|a| + 1..] == b;
  }

  /** The text after the last `c`, or all of `s` when it holds no `c`. */
  function AfterLast(s: string, c: char): (r: string)
    ensures c !in r
    ensures |r| <= |s| && r == s[|s| - |r|..]
    ensures c in s ==> |r| < |s| && s[|s| - |r| - 1] == c
  {
    match RSplitOnce(s, c)
    case Some((_, after)) => after
    case None => s
  }

  /** Trimming a run of `c` appended to a string that does not end in `c` gives the
      string back. */
  lemma TrimEndPadded(s: string, pad: string, c: char)
    requires |s| == 0 || s[|s| - 1] != c
    requires forall i | 0 <= i < |pad| :: pad[i] == c
    ensures TrimEnd(s + pad, c) == s
  {
    var t := s + pad;
    var r := TrimEnd(t, c);
    assert forall i | |s| <= i < |t| :: t[i] == c;
    assert forall i | |r| <= i < |t| :: t[i] == c;
    assert |s| > 0 ==> t[|s| - 1] != c;
    assert |r| > 0 ==> t[|r| - 1] != c;
    assert |r| == |s|;
    assert r == t[..|s|] == s;
  }

  /** The first `c` of `a + [c] + b` is at `|a|` when `a` holds none. */
  lemma FirstIndexUnique(a: string, c: char, b: string)
    requires c !in a
    ensures FirstIndex(a + [c] + b, c) == Some(|a|)
  {
    SplitOnceUnique(a + [c] + b, c, a, b);
  }

  /** Trimming a run of `c` put in front of a string that does not start with `c`
      gives the string back. */
  lemma TrimStartPadded(pad: string, s: string, c: char)
    requires |s| == 0 || s[0] != c
    requires forall i | 0 <= i < |pad| :: pad[i] == c
    ensures TrimStart(pad + s, c) == s
  {
    var t := pad + s;
    var r := TrimStart(t, c);
    assert forall i | 0 <= i < |pad| :: t[i] == c;
    assert forall i | 0 <= i < |t| - |r| :: t[i] == c;
    assert |s| > 0 ==> t[|pad|] != c;
    assert |r| > 0 ==> t[|t| - |r|] != c;
    assert |r| == |s|;
    assert r == t[|pad|..] == s;
  }

  /** Number of occurrences of `c` in `s`. */
  function Count(s: string, c: char): (n: nat)
    ensures n <= |s|
    ensures n == 0 <==> c !in s
  {
    if |s| == 0 then 0 else (if s[0] == c then 1 else 0) + Count(s[1..], c)
  }

  lemma {:induction false} CountAppend(a: string, b: string, c: char)
    ensures Count(a + b, c) == Count(a, c) + Count(b, c)
    decreases |a|
  {
    if |a| > 0 {
      assert (a + b)[1..] == a[1..] + b;
      CountAppend(a[1..], b, c);
    } else {
      assert a + b == b;
    }
  }

  /** Decimal rendering of a natural number, as Rust's `{}`/`{:?}` print integers. */
  function Decimal(n: nat): (r: string)
    ensures |r| > 0
    ensures forall i | 0 <= i < |r| :: '0' <= r[i] <= '9'
  {
    var digit := ['0' + (n % 10) as char];
    if n < 10 then digit else Decimal(n / 10) + digit
  }
}
