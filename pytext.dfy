/**
 * The Python built-ins on `str` that the extractor and the variant id rely on:
 * slicing with Python's index clamping, `str.split` on one character,
 * `str(int)` and `int(str)`, and `[::-1]`.
 */
module PyText {
  import opened Wrappers

  function Max(a: int, b: int): int { if a < b then b else a }
  function Min(a: int, b: int): int { if a < b then a else b }

  /** How `slice.indices(n)` normalises one bound when the step is 1. */
  function ClampIndex(i: int, n: nat): (r: nat)
    ensures r <= n
    ensures 0 <= i <= n ==> r == i
    ensures i < 0 && -i <= n ==> r == n + i
  {
    if i < 0 then (if n + i < 0 then 0 else n + i) else Min(i, n)
  }

  /** `s[a:b]` for a Python string. */
  function PySlice<T>(s: seq<T>, a: int, b: int): (r: seq<T>)
    ensures 0 <= a <= b <= |s| ==> r == s[a..b]
    ensures |r| <= |s|
    ensures |r| == Max(0, ClampIndex(b, |s|) - ClampIndex(a, |s|))
  {
    var lo, hi := ClampIndex(a, |s|), ClampIndex(b, |s|);
    if lo <= hi then s[lo..hi] else []
  }

  /** Cutting a sequence at `i` and joining the two parts gives it back. */
  lemma SliceJoin<T>(s: seq<T>, i: int)
    requires 0 <= i <= |s|
    ensures s[..i] + s[i..] == s
  {
    assert s == s[..i] + s[i..];
  }

  /** `s[::-1]`. */
  function Reversed<T>(s: seq<T>): (r: seq<T>)
    ensures |r| == |s|
  {
    if s == [] then [] else Reversed(s[1..]) + [s[0]]
  }

  lemma {:induction false} ReversedAt<T>(s: seq<T>, k: nat)
    requires k < |s|
    ensures Reversed(s)[k] == s[|s| - 1 - k]
  {
    if k < |s| - 1 {
      ReversedAt(s[1..], k);
    }
  }

  lemma {:induction false} ReversedAppend<T>(a: seq<T>, b: seq<T>)
    ensures Reversed(a + b) == Reversed(b) + Reversed(a)
  {
    if a == [] {
      assert a + b == b;
    } else {
      assert (a + b)[1..] == a[1..] + b;
      ReversedAppend(a[1..], b);
    }
  }

  lemma {:induction false} ReversedInvolution<T>(s: seq<T>)
    ensures Reversed(Reversed(s)) == s
  {
    if s != [] {
      ReversedInvolution(s[1..]);
      ReversedAppend(Reversed(s[1..]), [s[0]]);
      assert Reversed([s[0]]) == [s[0]];
    }
  }

  // ---------------------------------------------------------------- split

  /** Index of the first occurrence of `c` in `s`. */
  function IndexOf(s: string, c: char): (i: nat)
    requires c in s
    ensures i < |s| && s[i] == c && c !in s[..i]
  {
    if s[0] == c then 0 else
      assert c in s[1..] by { var j :| 0 <= j < |s| && s[j] == c; assert s[1..][j - 1] == c; }
      var j := IndexOf(s[1..], c);
      assert s[..j + 1] == [s[0]] + s[1..][..j];
      j + 1
  }

  /** `s.split(sep)` for a one-character separator: it always yields at least one part. */
  function Split(s: string, sep: char): (parts: seq<string>)
    ensures |parts| >= 1
    ensures forall k :: 0 <= k < |parts| ==> sep !in parts[k]
    decreases |s|
  {
    if sep in s then
      var i := IndexOf(s, sep);
      [s[..i]] + Split(s[i + 1..], sep)
    else
      [s]
  }

  lemma SplitNoSep(s: string, sep: char)
    requires sep !in s
    ensures Split(s, sep) == [s]
  {
  }

  /** Splitting at the first separator peels off the text before it. */
  lemma SplitFirst(a: string, sep: char, b: string)
    requires sep !in a
    ensures Split(a + [sep] + b, sep) == [a] + Split(b, sep)
  {
    var s := a + [sep] + b;
    assert s[|a|] == sep;
    assert s[..|a|] == a;
    var i := IndexOf(s, sep);
    assert i == |a|;
    assert s[..i] == a;
    assert s[i + 1..] == b;
  }

  // ------------------------------------------------------- str(int), int(str)

  predicate IsDigit(c: char) { '0' <= c <= '9' }

  predicate AllDigits(s: string) { forall k :: 0 <= k < |s| ==> IsDigit(s[k]) }

  function DigitChar(d: nat): (c: char)
    requires d < 10
    ensures IsDigit(c)
  {
    ('0' as int + d) as char
  }

  function DigitValue(c: char): (d: nat)
    requires IsDigit(c)
    ensures d < 10 && DigitChar(d) == c
  {
    c as int - '0' as int
  }

  /** Decimal digits of `n`, most significant first, as `str` prints them. */
  function NatToStr(n: nat): (s: string)
    ensures |s| >= 1 && AllDigits(s)
    decreases n
  {
    if n < 10 then [DigitChar(n)] else NatToStr(n / 10) + [DigitChar(n % 10)]
  }

  /** `str(i)` for a Python int. */
  function IntToStr(i: int): (s: string)
    ensures |s| >= 1
    ensures ':' !in s && '\'' !in s
  {
    if i < 0 then "-" + NatToStr(-i) else NatToStr(i)
  }

  /** The value of a string of decimal digits. */
  function DigitsValue(s: string): nat
    requires AllDigits(s)
  {
    if s == [] then 0 else DigitsValue(s[..|s| - 1]) * 10 + DigitValue(s[|s| - 1])
  }

  /** `int(s)` for an optional sign followed by decimal digits; anything else raises `ValueError`. */
  function ParseInt(s: string): (r: Result<int>)
    ensures r.Ok? <==> (|s| >= 1 && AllDigits(s)) || (|s| >= 2 && s[0] in "+-" && AllDigits(s[1..]))
    ensures r.Err? ==> r.error.ValueError?
    ensures r.Ok? && AllDigits(s) ==> r.value == DigitsValue(s)
    ensures r.Ok? && |s| >= 2 && s[0] in "+-" && AllDigits(s[1..]) ==>
              r.value == (if s[0] == '-' then -(DigitsValue(s[1..]) as int) else DigitsValue(s[1..]))
  {
    if |s| >= 2 && (s[0] == '-' || s[0] == '+') && AllDigits(s[1..]) then
      var v: int := DigitsValue(s[1..]);
      Ok(if s[0] == '-' then -v else v)
    else if |s| >= 1 && AllDigits(s) then
      Ok(DigitsValue(s))
    else
      Err(ValueError("invalid literal for int()"))
  }

  lemma {:induction false} NatToStrValue(n: nat)
    ensures DigitsValue(NatToStr(n)) == n
  {
    if n >= 10 {
      var s := NatToStr(n);
      assert s[..|s| - 1] == NatToStr(n / 10);
      NatToStrValue(n / 10);
    }
  }

  lemma NatToStrParses(n: nat)
    ensures ParseInt(NatToStr(n)) == Ok(n)
  {
    var s := NatToStr(n);
    assert IsDigit(s[0]);
    NatToStrValue(n);
  }

  lemma NegativeParses(n: nat)
    requires n > 0
    ensures ParseInt("-" + NatToStr(n)) == Ok(-(n as int))
  {
    var s := "-" + NatToStr(n);
    assert s[1..] == NatToStr(n);
    NatToStrValue(n);
  }

  /** `int(str(i)) == i`. */
  lemma IntToStrRoundTrip(i: int)
    ensures ParseInt(IntToStr(i)) == Ok(i)
  {
    if i < 0 {
      NegativeParses(-i);
    } else {
      NatToStrParses(i);
    }
  }
}
