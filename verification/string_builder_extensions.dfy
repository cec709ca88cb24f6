/**
 `StringBuilderExtensions.AppendWithEscapedBrackets`: copies a slice of a
 character buffer onto a string builder, writing every open- or close-brace
 character twice so that a later stage can collapse the pairs again. The
 builder is a `seq<char>` accumulator: the method takes its contents and
 returns the contents after the appends.
 */
module StringBuilderExtensions {

  predicate IsBrace(c: char, openBrace: char, closeBrace: char) {
    c == openBrace || c == closeBrace
  }

  /** The escaped form of one character: a brace twice, anything else once. */
  function EscapeChar(c: char, openBrace: char, closeBrace: char): string {
    if IsBrace(c, openBrace, closeBrace) then [c, c] else [c]
  }

  /** The escaped form of `s`, character by character, read from the right. */
  function Escape(s: string, openBrace: char, closeBrace: char): string {
    if |s| == 0 then ""
    else Escape(s[..|s| - 1], openBrace, closeBrace) + EscapeChar(s[|s| - 1], openBrace, closeBrace)
  }

  /** The number of brace characters in `s`. */
  function BraceCount(s: string, openBrace: char, closeBrace: char): nat {
    if |s| == 0 then 0
    else BraceCount(s[..|s| - 1], openBrace, closeBrace) + (if IsBrace(s[|s| - 1], openBrace, closeBrace) then 1 else 0)
  }

  /**
   The reverse transformation: a brace followed by the same brace becomes one
   brace; every other character is kept.
   */
  function Collapse(s: string, openBrace: char, closeBrace: char): string {
    if |s| == 0 then ""
    else if IsBrace(s[0], openBrace, closeBrace) && |s| >= 2 && s[1] == s[0] then
      [s[0]] + Collapse(s[2..], openBrace, closeBrace)
    else
      [s[0]] + Collapse(s[1..], openBrace, closeBrace)
  }

  /** Escaping works piecewise: the escape of a concatenation is the concatenation of the escapes. */
  lemma {:induction false} EscapeAppend(a: string, b: string, openBrace: char, closeBrace: char)
    ensures Escape(a + b, openBrace, closeBrace) == Escape(a, openBrace, closeBrace) + Escape(b, openBrace, closeBrace)
    decreases |b|
  {
    if |b| > 0 {
      var b' := b[..|b| - 1];
      assert (a + b)[..|a + b| - 1] == a + b';
      EscapeAppend(a, b', openBrace, closeBrace);
    } else {
      assert a + b == a;
    }
  }

  /** Each brace adds exactly one character; every other character is copied once. */
  lemma {:induction false} EscapeLength(s: string, openBrace: char, closeBrace: char)
    ensures |Escape(s, openBrace, closeBrace)| == |s| + BraceCount(s, openBrace, closeBrace)
  {
    if |s| > 0 {
      EscapeLength(s[..|s| - 1], openBrace, closeBrace);
    }
  }

  /** Text with no brace character is appended unchanged. */
  lemma {:induction false} EscapeBraceFree(s: string, openBrace: char, closeBrace: char)
    requires openBrace !in s && closeBrace !in s
    ensures Escape(s, openBrace, closeBrace) == s
    ensures BraceCount(s, openBrace, closeBrace) == 0
  {
    if |s| > 0 {
      var s' := s[..|s| - 1];
      assert s == s' + [s[|s| - 1]];
      EscapeBraceFree(s', openBrace, closeBrace);
    }
  }

  /** Collapsing the escaped text gives back the original text. */
  lemma {:induction false} CollapseEscape(s: string, openBrace: char, closeBrace: char)
    ensures Collapse(Escape(s, openBrace, closeBrace), openBrace, closeBrace) == s
    decreases |s|
  {
    if |s| > 0 {
      var rest := s[1..];
      assert s == [s[0]] + rest;
      EscapeAppend([s[0]], rest, openBrace, closeBrace);
      assert Escape([s[0]], openBrace, closeBrace) == EscapeChar(s[0], openBrace, closeBrace);
      var e := Escape(s, openBrace, closeBrace);
      var er := Escape(rest, openBrace, closeBrace);
      CollapseEscape(rest, openBrace, closeBrace);
      if IsBrace(s[0], openBrace, closeBrace) {
        assert e == [s[0], s[0]] + er;
        assert e[2..] == er;
      } else {
        assert e == [s[0]] + er;
        assert e[1..] == er;
      }
    }
  }

  /**
   With one character serving as both braces, it is doubled once, not
   four times: the escape adds one character per occurrence.
   */
  lemma {:induction false} EscapeSameBrace(s: string, brace: char)
    ensures |Escape(s, brace, brace)| == |s| + multiset(s)[brace]
  {
    if |s| > 0 {
      var s' := s[..|s| - 1];
      assert s == s' + [s[|s| - 1]];
      EscapeSameBrace(s', brace);
    }
  }

  /** Escaping a slice one character longer appends the escape of that character. */
  lemma EscapeStep(value: string, startIndex: nat, i: nat, openBrace: char, closeBrace: char)
    requires startIndex <= i < |value|
    ensures Escape(value[startIndex..i + 1], openBrace, closeBrace)
      == Escape(value[startIndex..i], openBrace, closeBrace) + EscapeChar(value[i], openBrace, closeBrace)
  {
    assert value[startIndex..i + 1][..i - startIndex] == value[startIndex..i];
  }

  /**
   One step of the scan, in terms of the appended text plus the pending
   segment `value[segmentStart..]`: an ordinary character extends the pending
   segment; for a brace, appending the segment and the brace and restarting the
   segment at the brace leaves the brace written twice.
   */
  lemma AppendStep(appended: string, value: string, segmentStart: nat, i: nat)
    requires segmentStart <= i < |value|
    ensures appended + value[segmentStart..i + 1] == appended + value[segmentStart..i] + [value[i]]
    ensures (appended + value[segmentStart..i] + [value[i]]) + value[i..i + 1]
      == appended + value[segmentStart..i] + [value[i], value[i]]
  {
    assert value[segmentStart..i + 1] == value[segmentStart..i] + [value[i]];
    assert value[i..i + 1] == [value[i]];
  }

  /**
   The loop invariant of `AppendWithEscapedBrackets` survives one step: the
   appended text followed by the pending segment is the builder followed by the
   escape of everything scanned so far.
   */
  lemma ScanStep(builder: string, value: string, startIndex: nat, segmentStart: nat, i: nat,
                 appended: string, openBrace: char, closeBrace: char)
    requires startIndex <= segmentStart <= i < |value|
    requires appended + value[segmentStart..i] == builder + Escape(value[startIndex..i], openBrace, closeBrace)
    ensures IsBrace(value[i], openBrace, closeBrace) ==>
      (appended + value[segmentStart..i] + [value[i]]) + value[i..i + 1]
        == builder + Escape(value[startIndex..i + 1], openBrace, closeBrace)
    ensures !IsBrace(value[i], openBrace, closeBrace) ==>
      appended + value[segmentStart..i + 1] == builder + Escape(value[startIndex..i + 1], openBrace, closeBrace)
  {
    var done := builder + Escape(value[startIndex..i], openBrace, closeBrace);
    var esc := EscapeChar(value[i], openBrace, closeBrace);
    EscapeStep(value, startIndex, i, openBrace, closeBrace);
    AppendStep(appended, value, segmentStart, i);
    assert builder + Escape(value[startIndex..i + 1], openBrace, closeBrace) == done + esc;
  }

  /**
   Appends `value[startIndex .. startIndex + count)` to `builder` with every
   brace written twice; the prior contents stay in front.
   */
  method AppendWithEscapedBrackets(
    builder: string, value: string, startIndex: nat, count: nat,
    openBrace: char := '{', closeBrace: char := '}')
    returns (result: string)
    requires startIndex + count <= |value|
    ensures result == builder + Escape(value[startIndex..startIndex + count], openBrace, closeBrace)
    ensures |result| == |builder| + count + BraceCount(value[startIndex..startIndex + count], openBrace, closeBrace)
  {
    result := builder;
    var currentTokenStart := startIndex;
    var i := startIndex;
    while i < startIndex + count
      invariant startIndex <= currentTokenStart <= i <= startIndex + count
      invariant result + value[currentTokenStart..i] == builder + Escape(value[startIndex..i], openBrace, closeBrace)
    {
      ScanStep(builder, value, startIndex, currentTokenStart, i, result, openBrace, closeBrace);
      if value[i] == openBrace {
        result := result + value[currentTokenStart..i] + [openBrace];
        currentTokenStart := i;
      } else if value[i] == closeBrace {
        result := result + value[currentTokenStart..i] + [closeBrace];
        currentTokenStart := i;
      }
      i := i + 1;
    }
    result := result + value[currentTokenStart..startIndex + count];
    EscapeLength(value[startIndex..startIndex + count], openBrace, closeBrace);
  }
}
