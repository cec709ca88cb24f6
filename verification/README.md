# FormatWith token parsing and bracket escaping, in Dafny

FormatWith fills templates such as `"'{token,15:yyyy-MM-dd}'"`. Each token between braces
has the shape `key[,alignment][:format]`. This project models two pure text routines of the
library and proves their properties:

- **`TokenInformation`** (module `Tokens`, with string primitives in `Strings`). The
  constructor splits a raw token into three parts. The format is everything after the
  *first* colon. The alignment is everything after the *last* comma in front of that colon.
  The key is what is left. Any string parses. `FormatString` rebuilds the
  `[,alignment][:format]` suffix and caches it. The `BuildString` overloads and `Build` write
  raw token text from parts.
- **`AppendWithEscapedBrackets`** (module `StringBuilderExtensions`). It copies a slice of a
  character buffer onto a string builder and writes every open or close brace twice.

Modelling choices:

- A .NET `string` is a `seq<char>` (see "## Left out" for how the characters differ).
- The `StringBuilder` is a `seq<char>` accumulator. The method takes the builder's contents
  and returns them after the appends.
- The `Alignment` and `Format` properties may be `null`, so they are `Option<string>`.
- A `string` parameter that the source only tests with `string.IsNullOrEmpty` is a plain
  `string`, with `""` standing for `null`. These are the alignment and format arguments of
  `BuildString`.
- An `int?` alignment is an `Option<int>`.
- The private `_formatString` cache is a field `formatStringCache: Option<string>`. The
  getter `FormatString` returns the text together with the object as it is after the read.
- The ordinal `IndexOf` / `LastIndexOf` searches and `Substring` are specified functions in
  `Strings`. So is the decimal rendering `$"{alignment}"` of an `int`.

The central fact about the parser is a uniqueness result. `WellSplit(raw, key, alignment,
format)` says that the parts joined with their separators give `raw`, that neither key nor
alignment holds a colon, that the alignment holds no comma, and that the key holds no comma
unless an alignment follows it. `Parse` produces such a split (`Parse`'s contract), and it is
the only one (`ParseUnique`). Every round trip between building and parsing follows from this.

## Model

| member | source | states |
|---|---|---|
| Strings.IndexOf | FormatWith/TokenInformation.cs:73-74 | The ordinal search returns no position exactly when the character is absent. Otherwise it returns a position holding the character with no earlier occurrence. |
| Strings.LastIndexOf | FormatWith/TokenInformation.cs:81-82 | The search returns no position exactly when the character is absent. Otherwise it returns a position holding the character with no later occurrence. |
| Strings.SplitAtFirst | FormatWith/TokenInformation.cs:73-78 | The text before the first separator and, when a separator exists, the text after it. Joined with the separator, they give back the input. The part before holds no separator. |
| Strings.SplitAtLast | FormatWith/TokenInformation.cs:81-86 | The text before the last separator and, when one exists, the text after it. Joined, they give back the input. The part after holds no separator. |
| Strings.SplitAtFirstUnique | FormatWith/TokenInformation.cs:73-78 | Any split at a separator with none before it is the split the first-colon search makes. |
| Strings.SplitAtLastUnique | FormatWith/TokenInformation.cs:81-86 | Any split at a separator with none after it is the split the last-comma search makes. |
| Strings.IntToDecimal | FormatWith/TokenInformation.cs:131 | The decimal text of an `int?` alignment holds neither `,` nor `:`. It starts with `-` exactly for a negative number, followed by digits with no leading zero; zero is written `"0"`, never `"-0"`. |
| Strings.IntToDecimalRoundTrip | FormatWith/TokenInformation.cs:131 | Reading the decimal text back as a signed number gives the original integer. |
| Tokens.Parse | FormatWith/TokenInformation.cs:66-90 | Parsing is total. `RawToken` is the input unchanged. The cache starts empty. Key, alignment and format form a split the separator rules allow. |
| Tokens.ParseUnique | FormatWith/TokenInformation.cs:72-89 | A decomposition of the raw text that the separator rules allow is exactly the parse. |
| Tokens.ParseFormat | FormatWith/TokenInformation.cs:72-78 | `Format` is absent iff the raw text has no colon. Otherwise it is everything after the first colon, and may itself hold colons and commas. |
| Tokens.ParseAlignment | FormatWith/TokenInformation.cs:80-89 | Consider the text before the first colon. `Alignment` is absent iff it has no comma, and then `TokenKey` is that whole text. Otherwise `Alignment` follows the last comma there and `TokenKey` precedes it. `TokenKey` never holds a colon. |
| Tokens.BuildRawString | FormatWith/TokenInformation.cs:116-120 | The key, then `","` and the alignment only when the alignment is non-empty, then `":"` and the format only when the format is non-empty; the length adds one separator per non-empty part. |
| Tokens.BuildRawStringSuffix | FormatWith/TokenInformation.cs:45-55 | What the builder writes after the key is exactly what the `FormatString` getter returns for a token with the same alignment and format. |
| Tokens.FormatString | FormatWith/TokenInformation.cs:45-55 | Returns `","+Alignment` when the alignment is non-empty, then `":"+Format` when the format is non-empty, and `""` when neither is. The object after the read has the same fields and holds the value in its cache. |
| Tokens.FormatStringIdempotent | FormatWith/TokenInformation.cs:49-53 | A second read returns the same text as the first and leaves the object unchanged. |
| Tokens.ParseThenFormatString | FormatWith/TokenInformation.cs:45-89 | `TokenKey + FormatString` gives back the raw token iff neither the alignment nor the format is present but empty (`"key,"` and `"key:"` are the exceptions). |
| Tokens.BuildString | FormatWith/TokenInformation.cs:129-132 | The key, then `","` and the decimal alignment only when the alignment has a value, then `":"` and the format only when the format is non-empty. |
| Tokens.BuildStringWithFormat | FormatWith/TokenInformation.cs:140-143 | The key alone for an empty format. Otherwise the key, `":"` and the format. |
| Tokens.BuildStringWithAlignment | FormatWith/TokenInformation.cs:151-154 | The key alone without an alignment. Otherwise the key, `","` and the decimal alignment. |
| Tokens.BuildStringKeyOnly | FormatWith/TokenInformation.cs:161-164 | The key itself. |
| Tokens.BuildRawStringThenParse | FormatWith/TokenInformation.cs:116-120 | The key and alignment must hold no `:` or `,`. Parsing the built text then gives back the key, the alignment and the format, with an empty part coming back absent. |
| Tokens.Build | FormatWith/TokenInformation.cs:173-176 | The token's raw text is `BuildString`'s output. For a key without `:` or `,`, the parse gives back the key, the decimal alignment (absent without a value) and the format (absent when empty). |
| Tokens.BuildWithFormat | FormatWith/TokenInformation.cs:184-187 | Same as `Build` without an alignment: the key comes back, the alignment is absent, and the format is absent exactly when empty. |
| Tokens.ParseAlignmentAndFormatExample | FormatWithTests/TokenInformationTests.cs:93 | `"token,-15:yyyy-MM-dd"` parses to key `token`, alignment `-15`, format `yyyy-MM-dd` and `FormatString` `,-15:yyyy-MM-dd`. |
| Tokens.ParseAlignmentOnlyExample | FormatWithTests/TokenInformationTests.cs:89 | `"token,15"` parses to key `token`, alignment `15`, no format and `FormatString` `,15`. |
| Tokens.ParseCommaInFormatExample | FormatWith/TokenInformation.cs:72-86 | `"token:a,b"` parses to key `token` with format `a,b` and no alignment, because a comma after the first colon belongs to the format. |
| Tokens.BuildStringAlignmentExample | FormatWithTests/TokenInformationTests.cs:38-45 | `BuildString("token", 15)` is `"token,15"`. |
| Tokens.BuildStringAlignmentAndFormatExample | FormatWithTests/TokenInformationTests.cs:74-81 | `BuildString("token", -15, "yyyy-MM-dd")` is `"token,-15:yyyy-MM-dd"`. |
| StringBuilderExtensions.AppendWithEscapedBrackets | FormatWith/Internal/StringBuilderExtensions.cs:9-36 | The slice must lie inside the buffer. The result is the prior builder contents followed by the escaped slice. Its length grows by the slice length plus the number of braces in the slice. |
| StringBuilderExtensions.ScanStep | FormatWith/Internal/StringBuilderExtensions.cs:17-31 | The loop invariant is kept: the appended text followed by the pending segment from `currentTokenStart` equals the old contents plus the escape of everything scanned. This holds whether the character is a brace, which restarts the segment at itself, or not. |
| StringBuilderExtensions.EscapeLength | FormatWith/Internal/StringBuilderExtensions.cs:18-35 | The escaped text is as long as the input plus its number of brace characters. |
| StringBuilderExtensions.EscapeBraceFree | FormatWith/Internal/StringBuilderExtensions.cs:35 | A slice without braces is appended unchanged. |
| StringBuilderExtensions.EscapeSameBrace | FormatWith/Internal/StringBuilderExtensions.cs:20-30 | When one character serves as both braces, each occurrence adds exactly one character. It is doubled, not quadrupled. |
| StringBuilderExtensions.CollapseEscape | FormatWith/Internal/StringBuilderExtensions.cs:20-35 | Collapsing each doubled brace back to one brace restores the original slice. So non-brace characters are copied verbatim and in order, and each brace is written exactly twice. |
| StringBuilderExtensions.EscapeAppend | FormatWith/Internal/StringBuilderExtensions.cs:22-35 | Escaping distributes over concatenation. This is why escaping segment by segment gives the escape of the whole slice. |

## Left out

- The commented-out regular-expression parser and its `Regex` field (TokenInformation.cs lines 12-15 and 92-110) are dead code and not modelled.
- The `NETSTANDARD2_0` `Append(ReadOnlySpan<char>)` shim is not modelled. Appending a span is `+` on the `seq<char>` builder.
- The template tokenizer, the substitution driver, value lookup, value formatting and alignment padding are not part of this model. The `FormatWith_*` end-to-end tests depend on them and on `DateTime` formatting.
- Thread safety of the `_formatString` cache is not modelled. The model is sequential; `FormatStringIdempotent` shows that a repeated computation gives the same value.
- `null` inputs are not modelled, because every string in the model is a value. In the source, a `null` raw token makes the constructor throw. A `null` key is written as empty by `string.Concat`.
- Strings.IntToDecimal: renders a negative number with `-`. The source uses the current culture's negative sign. This is `-` under the invariant culture.
- Strings.IntToDecimal: accepts any integer. The source's `int?` is a 32-bit integer, and rendering is exact over that range, so no wrap-around arises.
- StringBuilderExtensions.AppendWithEscapedBrackets: requires the slice to lie within the buffer (`startIndex + count <= |value|`, both non-negative). In the source an out-of-range slice throws from span indexing or `Slice`; the callers are not modelled, and the throwing case is left out.
- Characters are Dafny `char`s, which are Unicode scalar values, while a .NET `char` is a UTF-16 code unit. A character outside the Basic Multilingual Plane is one element here but two code units in the source, so `startIndex` and `count` count different things for such text, and a lone surrogate (as text or as a brace character) cannot be written in the model. No proof depends on the alphabet.
