/**
 The parsed form of one raw token, `key[,alignment][:format]`, as the
 `FormatWith.TokenInformation` class holds it: the splitting constructor, the
 cached `FormatString` property and the `BuildString` / `Build` helpers that
 produce raw token text.

 A C# `string` field that may be `null` is an `Option<string>`; a `string`
 parameter that is only ever tested with `string.IsNullOrEmpty` is a plain
 `string`, with `""` standing for `null`; an `int?` is an `Option<int>`.
 */
module Tokens {
  import opened Wrappers
  import opened Strings

  /** One parsed token. `formatStringCache` is the private `_formatString` field. */
  datatype TokenInformation = TokenInformation(
    rawToken: string,
    tokenKey: string,
    alignment: Option<string>,
    format: Option<string>,
    formatStringCache: Option<string>)

  /** The text of a nullable string as `string.IsNullOrEmpty` sees it: `null` reads as empty. */
  function Text(s: Option<string>): string {
    s.GetOr("")
  }

  /**
   A decomposition of `raw` into key, alignment and format that the separator
   rules allow: the parts put back together with their separators give `raw`,
   neither the key nor the alignment holds a colon, the alignment holds no comma,
   and the key holds no comma unless an alignment follows it.
   */
  predicate WellSplit(raw: string, key: string, alignment: Option<string>, format: Option<string>) {
    && raw == key + Separated(',', alignment) + Separated(':', format)
    && ':' !in key
    && (alignment.Some? ==> ':' !in alignment.value && ',' !in alignment.value)
    && (alignment.None? ==> ',' !in key)
  }

  /**
   The constructor `TokenInformation(string)`: the format is what follows the
   first colon, the alignment is what follows the last comma before that colon,
   and the key is what remains. Any string parses.
   */
  function Parse(raw: string): (t: TokenInformation)
    ensures t.rawToken == raw
    ensures WellSplit(raw, t.tokenKey, t.alignment, t.format)
    ensures t.formatStringCache.None?
  {
    var (rest, format) := SplitAtFirst(raw, ':');
    var (key, alignment) := SplitAtLast(rest, ',');
    NotInParts(rest, key, Separated(',', alignment), ':');
    TokenInformation(raw, key, alignment, format, None)
  }

  /** The split of `raw` is unique: any decomposition the separator rules allow is the one `Parse` finds. */
  lemma ParseUnique(raw: string, key: string, alignment: Option<string>, format: Option<string>)
    requires WellSplit(raw, key, alignment, format)
    ensures var t := Parse(raw);
      t.tokenKey == key && t.alignment == alignment && t.format == format
  {
    var rest := key + Separated(',', alignment);
    assert raw == rest + Separated(':', format);
    SplitAtFirstUnique(raw, ':', rest, format);
    SplitAtLastUnique(rest, ',', key, alignment);
  }

  /** A character absent from a concatenation is absent from both halves. */
  lemma NotInParts(s: string, a: string, b: string, c: char)
    requires s == a + b && c !in s
    ensures c !in a && (c !in b)
  {
    assert forall k :: 0 <= k < |a| ==> a[k] == s[k];
    assert forall k :: 0 <= k < |b| ==> b[k] == s[|a| + k];
  }

  /** `format` is absent exactly when `raw` has no colon, else it is everything after the first colon. */
  predicate FormatAfterFirstColon(raw: string, format: Option<string>) {
    && (format.None? <==> ':' !in raw)
    && (format.Some? ==>
          var i := |raw| - |format.value| - 1;
          0 <= i && raw[i] == ':' && ':' !in raw[..i] && raw[i + 1..] == format.value)
  }

  /**
   In `pre`, the text in front of the first colon: `alignment` is absent exactly
   when `pre` has no comma, and then `key` is all of `pre`; otherwise `alignment`
   follows the last comma and `key` precedes it. The key never holds a colon.
   */
  predicate AlignmentAfterLastComma(pre: string, key: string, alignment: Option<string>) {
    && ':' !in key
    && (alignment.None? <==> ',' !in pre)
    && (alignment.None? ==> key == pre)
    && (alignment.Some? ==>
          var j := |key|;
          j < |pre| && pre[j] == ',' && ',' !in pre[j + 1..] && pre[..j] == key && pre[j + 1..] == alignment.value)
  }

  /** The text of `raw` in front of its first colon, given the format that follows it. */
  function BeforeFormat(raw: string, format: Option<string>): string
    requires FormatAfterFirstColon(raw, format)
  {
    if format.Some? then raw[..|raw| - |format.value| - 1] else raw
  }

  /** The fields of any split the separator rules allow, read by position. */
  lemma WellSplitFields(raw: string, key: string, alignment: Option<string>, format: Option<string>)
    requires WellSplit(raw, key, alignment, format)
    ensures FormatAfterFirstColon(raw, format)
    ensures AlignmentAfterLastComma(BeforeFormat(raw, format), key, alignment)
  {
    var pre := key + Separated(',', alignment);
    assert raw == pre + Separated(':', format);
    if format.Some? {
      Pieces(raw, pre, ':', format.value);
    }
    assert BeforeFormat(raw, format) == pre;
    if alignment.Some? {
      Pieces(pre, key, ',', alignment.value);
    }
  }

  /** The format: absent exactly when `raw` has no colon, else everything after the first colon. */
  lemma ParseFormat(raw: string)
    ensures FormatAfterFirstColon(raw, Parse(raw).format)
  {
    var t := Parse(raw);
    WellSplitFields(raw, t.tokenKey, t.alignment, t.format);
  }

  /**
   The text in front of the first colon (all of `raw` when it has none) is the
   key, then the alignment after the last comma when that text has a comma.
   */
  lemma ParseAlignment(raw: string)
    ensures var t := Parse(raw);
      FormatAfterFirstColon(raw, t.format)
      && AlignmentAfterLastComma(BeforeFormat(raw, t.format), t.tokenKey, t.alignment)
  {
    var t := Parse(raw);
    WellSplitFields(raw, t.tokenKey, t.alignment, t.format);
  }

  /** The composite `[,alignment][:format]` text; an empty part is left out with its separator. */
  function FormatSuffix(alignment: string, format: string): string {
    (if |alignment| > 0 then "," + alignment else "") + (if |format| > 0 then ":" + format else "")
  }

  /** The private `BuildString(string, string, string)`: the key followed by the composite suffix. */
  function BuildRawString(tokenKey: string, alignment: string, format: string): (r: string)
    ensures r == tokenKey + Separated(',', NonEmpty(Some(alignment))) + Separated(':', NonEmpty(Some(format)))
    ensures |r| == |tokenKey| + (if |alignment| > 0 then |alignment| + 1 else 0) + (if |format| > 0 then |format| + 1 else 0)
  {
    tokenKey + FormatSuffix(alignment, format)
  }

  /** What the builder writes after the key is what `FormatString` reports for the same parts. */
  lemma BuildRawStringSuffix(tokenKey: string, alignment: string, format: string)
    ensures var r := BuildRawString(tokenKey, alignment, format);
      r[|tokenKey|..] == FormatString(TokenInformation(r, tokenKey, Some(alignment), Some(format), None)).0
  {
  }

  /** The class invariant on the cache: empty, or holding the value the getter computes. */
  predicate CacheValid(t: TokenInformation) {
    t.formatStringCache.None? || t.formatStringCache == Some(FormatSuffix(Text(t.alignment), Text(t.format)))
  }

  /**
   The `FormatString` getter: returns the composite suffix and the object as it
   is after the read, its cache filled and every other field unchanged.
   */
  function FormatString(t: TokenInformation): (r: (string, TokenInformation))
    requires CacheValid(t)
    ensures r.0 == Separated(',', NonEmpty(t.alignment)) + Separated(':', NonEmpty(t.format))
    ensures r.1 == t.(formatStringCache := Some(r.0))
    ensures CacheValid(r.1)
  {
    match t.formatStringCache
    case Some(s) => (s, t)
    case None =>
      var s := FormatSuffix(Text(t.alignment), Text(t.format));
      (s, t.(formatStringCache := Some(s)))
  }

  /** A nullable string with `null` and `""` both read as absent. */
  function NonEmpty(s: Option<string>): Option<string> {
    if s.Some? && |s.value| > 0 then s else None
  }

  /** Reading `FormatString` twice gives the same text and leaves the object as the first read left it. */
  lemma FormatStringIdempotent(t: TokenInformation)
    requires CacheValid(t)
    ensures var (s1, t1) := FormatString(t);
      var (s2, t2) := FormatString(t1);
      s2 == s1 && t2 == t1 && t1.formatStringCache == Some(s1)
  {
  }

  /**
   Key and `FormatString` rebuild the raw token exactly when neither part is
   present but empty (as in `"key,"` or `"key:"`, whose empty part the suffix drops).
   */
  lemma ParseThenFormatString(raw: string)
    ensures var t := Parse(raw);
      t.tokenKey + FormatString(t).0 == raw <==> t.alignment != Some("") && t.format != Some("")
  {
    var t := Parse(raw);
    SuffixRebuilds(t.tokenKey, t.alignment, t.format);
  }

  /** Dropping empty parts changes the text exactly when some part is present but empty. */
  lemma SuffixRebuilds(key: string, alignment: Option<string>, format: Option<string>)
    ensures key + (Separated(',', NonEmpty(alignment)) + Separated(':', NonEmpty(format)))
      == key + Separated(',', alignment) + Separated(':', format)
      <==> alignment != Some("") && format != Some("")
  {
    var a, f := Separated(',', alignment), Separated(':', format);
    var a', f' := Separated(',', NonEmpty(alignment)), Separated(':', NonEmpty(format));
    SeparatedNonEmpty(',', alignment);
    SeparatedNonEmpty(':', format);
    if alignment == Some("") || format == Some("") {
      assert |a'| + |f'| < |a| + |f|;
      assert |key + (a' + f')| != |key + a + f|;
    } else {
      assert a' == a && f' == f;
      assert key + (a' + f') == key + a + f;
    }
  }

  /** Reading a nullable part as absent when empty loses its separator only for an empty part. */
  lemma SeparatedNonEmpty(sep: char, part: Option<string>)
    ensures Separated(sep, NonEmpty(part)) == if part == Some("") then "" else Separated(sep, part)
  {
  }

  /** The public `BuildString(string, int?, string)`: a present alignment is written in decimal. */
  function BuildString(tokenKey: string, alignment: Option<int>, format: string): (r: string)
    ensures r == tokenKey
      + (if alignment.Some? then "," + IntToDecimal(alignment.value) else "")
      + (if format != "" then ":" + format else "")
  {
    BuildRawString(tokenKey, if alignment.Some? then IntToDecimal(alignment.value) else "", format)
  }

  /** `BuildString(string, string)`: a key and a format, no alignment. */
  function BuildStringWithFormat(tokenKey: string, format: string): (r: string)
    ensures r == if format == "" then tokenKey else tokenKey + ":" + format
  {
    BuildString(tokenKey, None, format)
  }

  /** `BuildString(string, int?)`: a key and an alignment, the format `null`. */
  function BuildStringWithAlignment(tokenKey: string, alignment: Option<int>): (r: string)
    ensures alignment.None? ==> r == tokenKey
    ensures alignment.Some? ==> r == tokenKey + "," + IntToDecimal(alignment.value)
  {
    BuildString(tokenKey, alignment, "")
  }

  /** `BuildString(string)`: the key alone. */
  function BuildStringKeyOnly(tokenKey: string): (r: string)
    ensures r == tokenKey
  {
    BuildString(tokenKey, None, "")
  }

  /**
   Parsing what the private builder writes gives back its parts when the key
   holds no separator and the alignment no separator; an empty part comes back absent.
   */
  lemma BuildRawStringThenParse(tokenKey: string, alignment: string, format: string)
    requires ':' !in tokenKey && ',' !in tokenKey
    requires ':' !in alignment && ',' !in alignment
    ensures var t := Parse(BuildRawString(tokenKey, alignment, format));
      && t.tokenKey == tokenKey
      && t.alignment == NonEmpty(Some(alignment))
      && t.format == NonEmpty(Some(format))
  {
    assert BuildRawString(tokenKey, alignment, format)
      == tokenKey + Separated(',', NonEmpty(Some(alignment))) + Separated(':', NonEmpty(Some(format)));
    ParseUnique(BuildRawString(tokenKey, alignment, format), tokenKey, NonEmpty(Some(alignment)), NonEmpty(Some(format)));
  }

  /**
   `Build(string, int?, string)`: the token the built string parses to. With a
   key free of separators the parts come back: the alignment as its decimal
   text, an empty format as absent.
   */
  function Build(tokenKey: string, alignment: Option<int>, format: string): (t: TokenInformation)
    ensures t.rawToken == BuildString(tokenKey, alignment, format)
    ensures ':' !in tokenKey && ',' !in tokenKey ==>
      && t.tokenKey == tokenKey
      && (alignment.None? ==> t.alignment.None?)
      && (alignment.Some? ==> t.alignment == Some(IntToDecimal(alignment.value)))
      && (format == "" ==> t.format.None?)
      && (format != "" ==> t.format == Some(format))
  {
    if ':' !in tokenKey && ',' !in tokenKey then
      BuildRawStringThenParse(tokenKey, if alignment.Some? then IntToDecimal(alignment.value) else "", format);
      Parse(BuildString(tokenKey, alignment, format))
    else
      Parse(BuildString(tokenKey, alignment, format))
  }

  /** `Build(string, string)`: as `Build` with no alignment. */
  function BuildWithFormat(tokenKey: string, format: string): (t: TokenInformation)
    ensures t.rawToken == BuildStringWithFormat(tokenKey, format)
    ensures ':' !in tokenKey && ',' !in tokenKey ==>
      t.tokenKey == tokenKey && t.alignment.None? && t.format == NonEmpty(Some(format))
  {
    Build(tokenKey, None, format)
  }

  /** The parse of `raw` has the given parts, and its `FormatString` reads `suffix`. */
  predicate ParsesTo(raw: string, key: string, alignment: Option<string>, format: Option<string>, suffix: string) {
    var t := Parse(raw);
    t.rawToken == raw && t.tokenKey == key && t.alignment == alignment && t.format == format
      && FormatString(t).0 == suffix
  }

  /** A decomposition the separator rules allow is what `Parse` and `FormatString` report. */
  lemma ParsesToSplit(raw: string, key: string, alignment: Option<string>, format: Option<string>, suffix: string)
    requires WellSplit(raw, key, alignment, format)
    requires suffix == FormatSuffix(Text(alignment), Text(format))
    ensures ParsesTo(raw, key, alignment, format, suffix)
  {
    ParseUnique(raw, key, alignment, format);
  }

  /** Parsing example: the test row with both an alignment and a format. */
  lemma ParseAlignmentAndFormatExample()
    ensures ParsesTo("token,-15:yyyy-MM-dd", "token", Some("-15"), Some("yyyy-MM-dd"), ",-15:yyyy-MM-dd")
  {
    assert WellSplit("token,-15:yyyy-MM-dd", "token", Some("-15"), Some("yyyy-MM-dd")) by {
      assert "token,-15:yyyy-MM-dd" == "token" + ",-15" + ":yyyy-MM-dd";
    }
    ParsesToSplit("token,-15:yyyy-MM-dd", "token", Some("-15"), Some("yyyy-MM-dd"), ",-15:yyyy-MM-dd");
  }

  /** Parsing example: the test row with an alignment and no format. */
  lemma ParseAlignmentOnlyExample()
    ensures ParsesTo("token,15", "token", Some("15"), None, ",15")
  {
    assert WellSplit("token,15", "token", Some("15"), None) by {
      assert "token,15" == "token" + ",15" + "";
    }
    ParsesToSplit("token,15", "token", Some("15"), None, ",15");
  }

  /** Parsing example: a comma after the colon belongs to the format. */
  lemma ParseCommaInFormatExample()
    ensures ParsesTo("token:a,b", "token", None, Some("a,b"), ":a,b")
  {
    assert WellSplit("token:a,b", "token", None, Some("a,b")) by {
      assert "token:a,b" == "token" + "" + ":a,b";
    }
    ParsesToSplit("token:a,b", "token", None, Some("a,b"), ":a,b");
  }

  /** Building example: a positive alignment, as in the library's unit tests. */
  lemma BuildStringAlignmentExample()
    ensures BuildStringWithAlignment("token", Some(15)) == "token,15"
  {
    assert NatToDecimal(15) == "15";
  }

  /** Building example: a negative alignment and a format, as in the library's unit tests. */
  lemma BuildStringAlignmentAndFormatExample()
    ensures BuildString("token", Some(-15), "yyyy-MM-dd") == "token,-15:yyyy-MM-dd"
  {
    var built := "token" + "," + "-15" + ":" + "yyyy-MM-dd";
    assert BuildString("token", Some(-15), "yyyy-MM-dd") == built by {
      assert IntToDecimal(-15) == "-15";
    }
    assert built == "token,-15:yyyy-MM-dd";
  }
}
