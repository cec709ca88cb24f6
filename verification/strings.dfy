/**
 The few .NET string primitives the token parser relies on, stated over
 `seq<char>`: ordinal `IndexOf` / `LastIndexOf` of a single character, and the
 invariant-culture decimal rendering of an integer used by `$"{alignment}"`.
 */
module Strings {
  import opened Wrappers

  /** Ordinal search for the first occurrence of `c` (`String.IndexOf`, with -1 as `None`). */
  function IndexOf(s: string, c: char): (r: Option<nat>)
    ensures r.None? <==> c !in s
    ensures r.Some? ==> r.value < |s| && s[r.value] == c && c !in s[..r.value]
  {
    if |s| == 0 then None
    else if s[0] == c then Some(0)
    else
      match IndexOf(s[1..], c)
      case None => None
      case Some(i) =>
        assert s[1..][..i] == s[1..i + 1];
        assert s[..i + 1] == [s[0]] + s[1..i + 1];
        Some(i + 1)
  }

  /** Ordinal search for the last occurrence of `c` (`String.LastIndexOf`, with -1 as `None`). */
  function LastIndexOf(s: string, c: char): (r: Option<nat>)
    ensures r.None? <==> c !in s
    ensures r.Some? ==> r.value < |s| && s[r.value] == c && c !in s[r.value + 1..]
  {
    if |s| == 0 then None
    else if s[|s| - 1] == c then Some(|s| - 1)
    else
      match LastIndexOf(s[..|s| - 1], c)
      case None => None
      case Some(i) =>
        assert s[i + 1..] == s[..|s| - 1][i + 1..] + [s[|s| - 1]];
        Some(i)
  }

  /** `sep` followed by `part` when the part is present (even when it is empty), else nothing. */
  function Separated(sep: char, part: Option<string>): string {
    match part
    case None => ""
    case Some(p) => [sep] + p
  }

  /**
   `s` split around its first `c` with `IndexOf` and `Substring`: the text before
   it, and the text after it when there is one.
   */
  function SplitAtFirst(s: string, c: char): (r: (string, Option<string>))
    ensures r.0 + Separated(c, r.1) == s
    ensures c !in r.0
    ensures r.1.None? <==> c !in s
  {
    match IndexOf(s, c)
    case None => (s, None)
    case Some(i) =>
      SplitAround(s, i);
      assert Separated(c, Some(s[i + 1..])) == [s[i]] + s[i + 1..];
      (s[..i], Some(s[i + 1..]))
  }

  /**
   `s` split around its last `c` with `LastIndexOf` and `Substring`: the text
   before it, and the text after it when there is one.
   */
  function SplitAtLast(s: string, c: char): (r: (string, Option<string>))
    ensures r.0 + Separated(c, r.1) == s
    ensures r.1.Some? ==> c !in r.1.value
    ensures r.1.None? <==> c !in s
  {
    match LastIndexOf(s, c)
    case None => (s, None)
    case Some(i) =>
      SplitAround(s, i);
      assert Separated(c, Some(s[i + 1..])) == [s[i]] + s[i + 1..];
      (s[..i], Some(s[i + 1..]))
  }

  /** Cutting `s` at position `i` and putting it back together gives `s`. */
  lemma SplitAround(s: string, i: nat)
    requires i < |s|
    ensures s[..i] + [s[i]] + s[i + 1..] == s
  {
  }

  /** An occurrence of `c` with none before it is the one `IndexOf` finds. */
  lemma IndexOfIs(s: string, c: char, p: nat)
    requires p < |s| && s[p] == c && c !in s[..p]
    ensures IndexOf(s, c) == Some(p)
  {
  }

  /** An occurrence of `c` with none after it is the one `LastIndexOf` finds. */
  lemma LastIndexOfIs(s: string, c: char, p: nat)
    requires p < |s| && s[p] == c && c !in s[p + 1..]
    ensures LastIndexOf(s, c) == Some(p)
  {
    LastIndexOfAtLeast(s, c, p);
    LastIndexOfAtMost(s, c, p);
  }

  /** `LastIndexOf` finds an occurrence at or after any given one. */
  lemma LastIndexOfAtLeast(s: string, c: char, p: nat)
    requires p < |s| && s[p] == c
    ensures LastIndexOf(s, c).Some? && LastIndexOf(s, c).value >= p
  {
  }

  /** `LastIndexOf` finds nothing after a position whose suffix lacks `c`. */
  lemma LastIndexOfAtMost(s: string, c: char, p: nat)
    requires p < |s| && c !in s[p + 1..]
    ensures LastIndexOf(s, c).None? || LastIndexOf(s, c).value <= p
  {
  }

  /** The pieces of `before + [c] + after`, read back by position. */
  lemma Pieces(s: string, before: string, c: char, after: string)
    requires s == before + Separated(c, Some(after))
    ensures |before| < |s| && s[|before|] == c
    ensures s[..|before|] == before && s[|before| + 1..] == after
  {
    assert s == before + [c] + after;
  }

  /** A split of `s` at a `c` with no `c` before it is the one `SplitAtFirst` makes. */
  lemma SplitAtFirstUnique(s: string, c: char, before: string, after: Option<string>)
    requires s == before + Separated(c, after) && c !in before
    ensures SplitAtFirst(s, c) == (before, after)
  {
    if after.Some? {
      Pieces(s, before, c, after.value);
      IndexOfIs(s, c, |before|);
    } else {
      assert s == before;
    }
  }

  /** A split of `s` at a `c` with no `c` after it is the one `SplitAtLast` makes. */
  lemma SplitAtLastUnique(s: string, c: char, before: string, after: Option<string>)
    requires s == before + Separated(c, after)
    requires after.Some? ==> c !in after.value
    requires after.None? ==> c !in before
    ensures SplitAtLast(s, c) == (before, after)
  {
    if after.Some? {
      Pieces(s, before, c, after.value);
      LastIndexOfIs(s, c, |before|);
    } else {
      assert s == before;
    }
  }

  /** The decimal digit character for `d`. */
  function Digit(d: nat): char
    requires d < 10
  {
    "0123456789"[d]
  }

  predicate IsDigit(c: char) {
    '0' <= c <= '9'
  }

  /** Decimal rendering of a natural number, most significant digit first, no leading zeros. */
  function NatToDecimal(n: nat): (r: string)
    ensures |r| > 0
    ensures forall k :: 0 <= k < |r| ==> IsDigit(r[k])
    ensures r[0] == '0' <==> n == 0
    ensures n == 0 ==> r == "0"
  {
    if n < 10 then [Digit(n)] else NatToDecimal(n / 10) + [Digit(n % 10)]
  }

  /** Decimal rendering of an integer as `Int32.ToString()` gives it: a leading `-` for negatives. */
  function IntToDecimal(n: int): (r: string)
    ensures |r| > 0
    ensures ',' !in r && ':' !in r
    ensures r[0] == '-' <==> n < 0
    ensures var digits := if n < 0 then r[1..] else r;
      |digits| > 0 && (forall k :: 0 <= k < |digits| ==> IsDigit(digits[k]))
      && (digits[0] == '0' ==> digits == "0" && n == 0)
  {
    if n < 0 then "-" + NatToDecimal(-n) else NatToDecimal(n)
  }

  /** The value of a string of decimal digits, read most significant digit first. */
  function DigitsValue(s: string): nat
    requires forall k :: 0 <= k < |s| ==> IsDigit(s[k])
  {
    if |s| == 0 then 0
    else
      assert IsDigit(s[|s| - 1]);
      10 * DigitsValue(s[..|s| - 1]) + (s[|s| - 1] as int - '0' as int)
  }

  /** The value a signed decimal string denotes (the inverse of `IntToDecimal`). */
  function DecimalValue(s: string): int
    requires |s| > 0
    requires forall k :: 0 < k < |s| ==> IsDigit(s[k])
    requires s[0] == '-' || IsDigit(s[0])
  {
    if s[0] == '-' then
      assert forall k :: 0 <= k < |s[1..]| ==> s[1..][k] == s[k + 1];
      -(DigitsValue(s[1..]) as int)
    else DigitsValue(s)
  }

  lemma {:induction false} NatToDecimalValue(n: nat)
    ensures DigitsValue(NatToDecimal(n)) == n
    decreases n
  {
    if n >= 10 {
      NatToDecimalValue(n / 10);
      var r := NatToDecimal(n);
      assert r[..|r| - 1] == NatToDecimal(n / 10);
    }
  }

  /** The alignment text is a faithful rendering: reading it back gives the integer. */
  lemma IntToDecimalRoundTrip(n: int)
    ensures var r := IntToDecimal(n);
      (r[0] == '-' || IsDigit(r[0])) && DecimalValue(r) == n
  {
    NatToDecimalValue(if n < 0 then -n else n);
    if n < 0 {
      assert IntToDecimal(n)[1..] == NatToDecimal(-n);
    }
  }
}
