# fstring_parser, modelled in Dafny

`fstring_parser` turns an f-string-style template such as `abc{x:5n}abc` into
two things: one anchored regular-expression text, and a table that maps each
label to a decoder. The parser object matches a string against that text and
runs each named group's decoder on the group's text, so it undoes what
formatting the template would have done. This project models the whole of
`fstring_parser/fstring_parser.py` and proves properties of the model:

- **`DatetimeFormat`**: the date/time token translator (`get_regex_for_datetime_format`).
  Its table has 19 rows, and each row is applied in turn with `str.replace`. The
  method `GetRegexForDatetimeFormat` keeps the source's loop. The function
  `DatetimeRegex` specifies it.
- **`FormatSpec`**: the first-match dispatcher (`get_entry_regex_pattern_and_parser`).
  - Each `re.match` test is written out as a predicate on the spec. Each one is a
    prefix test, except `^[0-9]+[d|n]$`, which also lets `|` through and lets `$`
    match before one trailing newline.
  - The decoder lambdas are the `Decoder` datatype, and `Decode` gives their meaning.
  - The rules are also listed as data (`Rules`, `Accepts`, `Build`), which gives an
    independent statement of "first accepting rule wins".
- **`TemplateCompiler`**: `generate_regex_and_parsers_from_fstring`.
  - Entries are what `re.findall(r"{(.*)}", t)` returns. On each line, that is the
    text from the line's first `{` to its last `}`.
  - The pattern starts as `^` + `re.escape(t)` + `$`, and the two loops over
    `set(entries)` rewrite it.
  - The iteration order of the set is a parameter `order`. It must list the
    distinct entries once each, and the properties hold for every such order.
  - The method `GenerateRegexAndParsers` keeps the two loops. `CompileSpec`
    specifies them.
- **`TemplateLayout`**: the compiler on any template of lines `before{name:spec}after`.
  While the loops run, the pattern is kept as a list of chunks: literal text, and
  escaped placeholders still to be rewritten. The count-1 replacement rewrites the
  first pending chunk of its entry, and the replacement of all occurrences rewrites
  every pending chunk of its entry. So the result is `^`, the escaped lines, and `$`,
  with each entry's first placeholder a named group and every later one a
  back-reference, whatever the iteration order.
- **`Runtime`**: `FstringParser` is a class. Its fields are `pattern`,
  `parserDict` and the last match. `Call` models `__call__`, and
  `NewFstringParser` and `ParseFstring` model `__init__` and `parse_fstring`.
  The regular-expression engine is a parameter that returns `None` or the named
  groups of the match.
- **`Strings`** and **`Numbers`**: the Python primitives the code relies on.
  These are `str.replace` (all occurrences, and with count 1), `str.find`,
  `str.split`, `str.strip`, `str.isdigit`, `in`, `re.escape` and the part of
  `int()` that the decoders reach.
- **`SourceTests`**: the repository's tests that hold against this code, each
  proved as a lemma. The tests the code fails are also here, each as a lemma
  that states the exception the code raises instead. The one exception is
  test_fstring_parser: it passes a `transform=` keyword that `parse_fstring`
  does not take, so Python raises `TypeError` at the call, before any of this
  code runs.

Python exceptions become the `Exception` datatype (`NotImplementedError`,
`ValueError`, `KeyError`), carried in a `Result`.

The code implements no sign, base or exponent presentation types. A decoder that
fails raises its exception out of `__call__`; nothing reports it as a value.
Doubled braces `{{` and `}}` are not literal text: `re.findall(r"{(.*)}", t)` is
greedy, so a line's entry runs from its first `{` to its last `}`. The model does
the same.

## Model

| member | source | states |
|---|---|---|
| `DatetimeFormat.DatetimeRegex` | fstring_parser/fstring_parser.py:5-29 | the translation as a fold: `str.replace` with each of the 19 rows, in table order. It has no contract of its own; its meaning is given by `TranslatePieces`, `NoTokenSurvives`, `NoPercentUnchanged` and `NoBackslashIntroduced` |
| `DatetimeFormat.GetRegexForDatetimeFormat` | fstring_parser/fstring_parser.py:5-29 | the loop's result is the format with every table row's `%`-token replaced by its sub-pattern, row after row in table order |
| `DatetimeFormat.TableIsSafe` | fstring_parser/fstring_parser.py:7-27 | every token is non-empty and holds neither `%` nor `[`; every sub-pattern is non-empty, starts with `[` and holds neither `%` nor a backslash |
| `DatetimeFormat.TokensArePrefixFree` | fstring_parser/fstring_parser.py:7-27 | every token is one character other than `-` or `%`, or `-` followed by such a character; no two rows share a token |
| `DatetimeFormat.RowsLeaveNoToken` | fstring_parser/fstring_parser.py:7-28 | once a row has run, its token never occurs again: no later replacement creates or revives a token |
| `DatetimeFormat.NoTokenSurvives` | fstring_parser/fstring_parser.py:5-29 | no `%`-token of the table occurs in the translated text |
| `DatetimeFormat.NoPercentUnchanged` | fstring_parser/fstring_parser.py:5-29 | a format without `%` is returned unchanged |
| `DatetimeFormat.NoBackslashIntroduced` | fstring_parser/fstring_parser.py:7-28 | translating a format without a backslash yields no backslash |
| `DatetimeFormat.TranslateToken` | fstring_parser/fstring_parser.py:7-28 | a format that starts with a table token becomes that token's sub-pattern followed by the translated rest |
| `DatetimeFormat.TranslateLiteralChar` | fstring_parser/fstring_parser.py:28 | a leading character other than `%` is copied and the rest is translated |
| `DatetimeFormat.TranslatePieces` | fstring_parser/fstring_parser.py:5-29 | for any format spelled as tokens and non-`%` characters, each token becomes its sub-pattern and each character is copied, left to right |
| `DatetimeFormat.DayWithoutPadding` | fstring_parser/fstring_parser.py:15-16 | `%-d` becomes `[0-9]{1,2}`, not `-` followed by the `%d` pattern |
| `FormatSpec.LeadingDigits` | fstring_parser/fstring_parser.py:47 | the length of the longest run of ASCII digits at the start of the spec, which is what `[0-9]+` takes |
| `FormatSpec.FirstAccepting` | fstring_parser/fstring_parser.py:32-55 | the index of the first rule that accepts the spec; no earlier rule accepts it; none is returned exactly when no rule accepts |
| `FormatSpec.DispatchIsFirstMatch` | fstring_parser/fstring_parser.py:32-55 | the dispatcher returns what the first accepting rule (in source order) builds, and raises `NotImplementedError` when no rule accepts |
| `FormatSpec.NotImplementedIffNoRule` | fstring_parser/fstring_parser.py:55 | `NotImplementedError` is raised if and only if no rule accepts the spec |
| `FormatSpec.WidthSpec` | fstring_parser/fstring_parser.py:33-34 | a digits-only spec `w` gives `([\s\|\d]{w})` with the strip decoder |
| `FormatSpec.AlignWidthSpec` | fstring_parser/fstring_parser.py:37-38 | `<`, `^` or `>` followed by a digit gives the same pattern, with width text `spec[1:]` (which may hold more than digits) and the strip decoder |
| `FormatSpec.AlignBeatsInteger` | fstring_parser/fstring_parser.py:37-44 | `>5n` is taken by the alignment rule, with width text `5n`, and not by the integer rules |
| `FormatSpec.FillAlignWidthSpec` | fstring_parser/fstring_parser.py:39-40 | a fill character (not a newline), an alignment character and a digit give `.{spec[2:]}` and a decoder that deletes the fill character |
| `FormatSpec.InDnCases` | fstring_parser/fstring_parser.py:41 | `spec in "dn"` holds exactly for `""`, `d`, `n` and `dn` |
| `FormatSpec.DecimalSpec` | fstring_parser/fstring_parser.py:41-42 | `""`, `d`, `n` and `dn` give `-?[0-9\|\.]+` with the decoder that deletes `,` and `.` and then reads an int |
| `FormatSpec.WidthDecimalSpec` | fstring_parser/fstring_parser.py:43-44 | digits followed by `d`, `\|` or `n`, with or without one trailing newline, give `\s*-?[0-9\|\.\|,]+` with the decoder that strips, deletes `,` and `.`, and then reads an int |
| `FormatSpec.PlainFloatSpec` | fstring_parser/fstring_parser.py:45-46 | the spec `f` gives the float pattern `-?[0-9\|\.]+` with the `float()` decoder on the text as matched |
| `FormatSpec.WidthFloatSpec` | fstring_parser/fstring_parser.py:47-48 | digits, then `f`, then anything, give the float pattern and a decoder that strips before `float()` |
| `FormatSpec.PrecisionFloatSpec` | fstring_parser/fstring_parser.py:49-50 | `.Nf` gives `-?[0-9]*\.[0-9]{N}` with the `float()` decoder |
| `FormatSpec.EntryPatternAndDecoder` | fstring_parser/fstring_parser.py:32-55 | the dispatcher: the first rule in source order that accepts the spec builds its sub-pattern and decoder. Its only error is `NotImplementedError` (line 55). The rules are promised by `DispatchIsFirstMatch`, `NotImplementedIffNoRule` and the per-rule lemmas below |
| `FormatSpec.Decode` | fstring_parser/fstring_parser.py:34-54 | the decoders the dispatcher returns, applied to a group's text. Only the `int()` decoders can fail, and only with `ValueError`. The round trips `DecodeGrouped`, `DecodeDecimal` and `DecodeWidthDecimal` and the padding lemmas state what each decoder gives |
| `FormatSpec.GroupedPrecisionFloatSpec` | fstring_parser/fstring_parser.py:51-52 | `,.Nf` gives `-?[0-9\|,]*\.[0-9]{.N}`, the quantifier text `.N` as the line is written, with a decoder that deletes commas before `float()` (see Findings) |
| `FormatSpec.GroupedPrecisionAsWrittenKeepsPoint` | fstring_parser/fstring_parser.py:52 | the line as written takes the quantifier text `.N`, so the pattern ends `{.N}`, which differs from the intended `{N}` |
| `FormatSpec.AsWrittenAtGroupedPrecision` | fstring_parser/fstring_parser.py:51-52 | for every spec the `,.Nf` rule is the first to accept, the quantifier text is the spec from its second character up to its last |
| `FormatSpec.IntendedGroupedPrecisionSpec` | fstring_parser/fstring_parser.py:51-52 | with the intended `_format[2:-1]`, `,.Nf` gives `-?[0-9\|,]*\.[0-9]{N}`, and `N` is a digit string, so a repetition count |
| `FormatSpec.IntendedAtGroupedPrecision` | fstring_parser/fstring_parser.py:51-52 | for every spec the `,.Nf` rule is the first to accept, the intended quantifier text is the spec from its third character up to its last |
| `FormatSpec.IntendedElsewhere` | fstring_parser/fstring_parser.py:32-55 | on every spec the `,.Nf` rule does not take, the intended dispatcher returns what the source's returns |
| `FormatSpec.DatetimeSpec` | fstring_parser/fstring_parser.py:53-54 | a spec that starts with `%Y` gives the translated format with a `strptime` decoder on the original spec |
| `FormatSpec.UnimplementedSpecs` | fstring_parser/fstring_parser.py:55 | `zzz`, `s`, `+`, `_`, `e`, `b`, `x`, `X` and `o` raise `NotImplementedError` |
| `FormatSpec.NoRuleForLetter` | fstring_parser/fstring_parser.py:33-55 | a spec with a first character no rule starts with, no `%`, and no alignment character second, raises `NotImplementedError` |
| `FormatSpec.DecodeStripPadded` | fstring_parser/fstring_parser.py:34 | the strip decoder removes whitespace padding on either side and nothing else |
| `FormatSpec.DecodeFillPadded` | fstring_parser/fstring_parser.py:40 | the fill decoder removes runs of the fill character on either side of a text that does not contain it |
| `FormatSpec.DecodeFillRemovesOnlyFill` | fstring_parser/fstring_parser.py:40 | after the fill decoder, no fill character is left, and every other character is present exactly when it was in the input |
| `FormatSpec.DecodeGrouped` | fstring_parser/fstring_parser.py:36 | the `,` decoder reads back `n` from what `format(n, ",")` writes |
| `FormatSpec.DecodeDecimal` | fstring_parser/fstring_parser.py:42 | the `d`/`n` decoder reads back `n` from `str(n)` |
| `FormatSpec.DecimalDecoderDropsPoint` | fstring_parser/fstring_parser.py:42 | the `d`/`n` decoder deletes a `.`; it does not read it as a decimal point |
| `FormatSpec.DecodeWidthDecimal` | fstring_parser/fstring_parser.py:44 | the width `d`/`n` decoder reads back `n` from `n` zero-padded and surrounded by whitespace |
| `FormatSpec.IntDecodersRejectBar` | fstring_parser/fstring_parser.py:36-44 | a `\|` that an integer pattern lets through makes every integer decoder raise `ValueError` |
| `Numbers.ParseInt` | fstring_parser/fstring_parser.py:36-44 | the `int()` the integer decoders call. It has no contract of its own; its meaning is given by the round trips `ParseIntToString`, `ParseZeroPadded` and `ParseGrouped`, and by `ParseIntRejectsBar` |
| `Numbers.ParseIntToString` | fstring_parser/fstring_parser.py:42 | `int(str(n)) == n` |
| `Numbers.ParseZeroPadded` | fstring_parser/fstring_parser.py:44 | `int()` reads a zero-padded integer back as the integer |
| `Numbers.ParseGrouped` | fstring_parser/fstring_parser.py:36 | `int(format(n, ",").replace(",", "")) == n` |
| `Numbers.ParseIntRejectsBar` | fstring_parser/fstring_parser.py:36-44 | `int()` fails on any text that contains `\|` |
| `Strings.Replace` | fstring_parser/fstring_parser.py:81 | `str.replace` of every non-overlapping occurrence, left to right (also used at lines 28, 36, 40, 42, 44 and 52). Its meaning is given by `ReplaceAbsent`, `ReplaceLeavesNoOccurrence`, `ReplaceKeepsLast` and `TemplateLayout.ReplaceChunks` |
| `Strings.ReplaceFirst` | fstring_parser/fstring_parser.py:76 | `str.replace` with count 1: the text around the first occurrence found by `Find` is kept. Its meaning is given by `ReplaceFirstKeepsEnds`, `TemplateCompiler.ReplaceFirstTarget` and `TemplateLayout.ReplaceFirstChunks` |
| `Strings.Strip` | fstring_parser/fstring_parser.py:34 | `str.strip` (also used at lines 38, 44 and 48): the result is no longer than the text, and neither of its ends is whitespace. `StripPadding` and `StripKeepsNonWhitespace` add that exactly the padding goes |
| `Strings.Escape` | fstring_parser/fstring_parser.py:63 | `re.escape` (also used at lines 76 and 81): character by character, never shorter than the text. `EscapeConcat`, `EscapeBraced` and `EscapeKeepsChar` state its structure |
| `Strings.Find` | fstring_parser/fstring_parser.py:76 | the first index where the pattern occurs, or -1 exactly when it does not occur |
| `Strings.ReplaceAbsent` | fstring_parser/fstring_parser.py:28 | replacing a pattern that does not occur changes nothing |
| `Strings.ReplaceLeavesNoOccurrence` | fstring_parser/fstring_parser.py:28 | after a replacement, the replaced pattern is gone, provided the replacement text can neither contain nor complete an occurrence |
| `Strings.ReplaceFirstKeepsEnds` | fstring_parser/fstring_parser.py:76 | a replacement with count 1 keeps the first and last character when the pattern cannot start or end there |
| `Strings.ReplaceKeepsLast` | fstring_parser/fstring_parser.py:81 | a replacement of all occurrences keeps the last character when the pattern cannot end with it |
| `Strings.Split` | fstring_parser/fstring_parser.py:70 | `split` gives one more piece than there are separators, and no piece holds the separator |
| `Strings.SplitJoin` | fstring_parser/fstring_parser.py:70 | joining the pieces with the separator gives back the input |
| `Strings.SplitAtOnlySeparator` | fstring_parser/fstring_parser.py:70 | a text with exactly one `:` splits into its two sides |
| `Strings.StripLeading` | fstring_parser/fstring_parser.py:34 | the result is a suffix that does not start with whitespace, and what was removed is all whitespace |
| `Strings.StripTrailing` | fstring_parser/fstring_parser.py:34 | the result is a prefix that does not end with whitespace, and what was removed is all whitespace |
| `Strings.StripPadding` | fstring_parser/fstring_parser.py:34 | `strip` removes exactly the whitespace padding around a text that neither starts nor ends with whitespace |
| `Strings.StripKeepsNonWhitespace` | fstring_parser/fstring_parser.py:44 | `strip` removes only whitespace |
| `Strings.EscapeConcat` | fstring_parser/fstring_parser.py:63 | `re.escape` distributes over concatenation |
| `Strings.EscapeBraced` | fstring_parser/fstring_parser.py:76 | the escaped `{entry}` is `\{`, the escaped entry, then `\}` |
| `Strings.EscapeKeepsChar` | fstring_parser/fstring_parser.py:63 | apart from the backslash, escaping neither adds nor removes any character |
| `TemplateCompiler.FindAll` | fstring_parser/fstring_parser.py:60 | `re.findall(r"{(.*)}", t)`: at most one entry per line, from its first `{` to its last `}`. Its meaning is given by `SingleLineEntry`, `TwoLineEntries` and `TemplateLayout.EntriesOfTemplate` |
| `TemplateCompiler.FirstPass` | fstring_parser/fstring_parser.py:67-76 | the first loop over an iteration order of the entries. It fails only with `ValueError` (unpacking at line 70) or `NotImplementedError` (line 71). `FirstPassSucceeds` states exactly when it succeeds |
| `TemplateCompiler.SecondPass` | fstring_parser/fstring_parser.py:79-81 | the second loop. It fails only with `ValueError` (unpacking at line 80). `SecondPassSucceeds` states exactly when it succeeds |
| `TemplateCompiler.CompileSpec` | fstring_parser/fstring_parser.py:58-83 | `generate_regex_and_parsers_from_fstring` for one iteration order. It raises only `ValueError` or `NotImplementedError`. `CompileSucceeds`, `CompiledPatternIsAnchored`, `CompiledDecoders` and `TemplateLayout.CompileLines` state its result |
| `TemplateCompiler.LineEntry` | fstring_parser/fstring_parser.py:60 | a line's entry, the text between its first `{` and last `}`, has no newline when the line has none |
| `TemplateCompiler.SingleLineEntry` | fstring_parser/fstring_parser.py:60 | a one-line template with one placeholder has exactly that placeholder as its entry |
| `TemplateCompiler.TwoLineEntries` | fstring_parser/fstring_parser.py:60 | two lines with one placeholder each give one entry per line |
| `TemplateCompiler.GenerateRegexAndParsers` | fstring_parser/fstring_parser.py:58-83 | the two loops compute what `CompileSpec` specifies, including which exception they raise |
| `TemplateCompiler.CompiledPatternIsAnchored` | fstring_parser/fstring_parser.py:63-81 | for every iteration order, a compiled pattern starts with `^` and ends with `$` |
| `TemplateCompiler.FirstPassSucceeds` | fstring_parser/fstring_parser.py:67-76 | the first loop fails exactly on an entry that has a `:` but does not split into two parts with an accepted spec |
| `TemplateCompiler.SecondPassSucceeds` | fstring_parser/fstring_parser.py:79-81 | the second loop fails, with `ValueError`, exactly on an entry that does not split into two parts |
| `TemplateCompiler.CompileSucceeds` | fstring_parser/fstring_parser.py:67-81 | for every iteration order, compilation succeeds exactly when every entry has one `:` and a spec some rule accepts |
| `TemplateCompiler.EntryWithoutColonFails` | fstring_parser/fstring_parser.py:73-80 | an entry without `:` passes the first loop and raises `ValueError` in the second |
| `TemplateCompiler.PlainPlaceholderFails` | fstring_parser/fstring_parser.py:73-80 | a plain `{name}` placeholder always ends in `ValueError` |
| `TemplateCompiler.TwoPlaceholdersOnOneLine` | fstring_parser/fstring_parser.py:60-70 | two placeholders on one line form one entry with several `:`; splitting it raises `ValueError` |
| `TemplateCompiler.CompiledDecoders` | fstring_parser/fstring_parser.py:67-72 | the decoder table's keys are the entries' labels, and an entry whose label is unshared has its spec's decoder under that label |
| `TemplateCompiler.ReplaceFirstTarget` | fstring_parser/fstring_parser.py:76 | the count-1 replacement rewrites the first escaped placeholder and nothing else |
| `TemplateCompiler.ReplaceOnlyTarget` | fstring_parser/fstring_parser.py:81 | the replacement of all occurrences rewrites the only remaining escaped placeholder |
| `TemplateCompiler.EntryPatternHasNoEscapedBrace` | fstring_parser/fstring_parser.py:71-81 | a sub-pattern built from a spec without `{` or `\` holds no `\{`, so the second loop can only rewrite the template's own placeholders |
| `TemplateCompiler.SinglePlaceholder` | fstring_parser/fstring_parser.py:58-83 | one placeholder `{name:spec}` compiles to `^` + the escaped text around it + `$`, with `(?P<name>regex)` in its place and `{name: decoder}` as the table |
| `TemplateCompiler.RepeatedPlaceholder` | fstring_parser/fstring_parser.py:67-81 | a placeholder repeated on a second line becomes a named group at its first occurrence and `(?P=name)` at the second |
| `TemplateCompiler.SinglePlaceholderRejected` | fstring_parser/fstring_parser.py:71 | a placeholder whose spec the dispatcher rejects makes compilation raise that error |
| `TemplateLayout.LayoutIsAnchored` | fstring_parser/fstring_parser.py:63 | the chunks of the lines spell `^` + `re.escape(template)` + `$`, with each placeholder as a pending chunk |
| `TemplateLayout.EntriesOfTemplate` | fstring_parser/fstring_parser.py:60 | `re.findall` on a template of placeholder lines returns each line's `name:spec`, in line order |
| `TemplateLayout.LineRewrites` | fstring_parser/fstring_parser.py:69-81 | both loops accept a line's entry; its group is `(?P<name>regex)` with the spec's sub-pattern, and its back-reference is `(?P=name)` |
| `TemplateLayout.ReplaceChunks` | fstring_parser/fstring_parser.py:81 | replacing all occurrences rewrites exactly the pending chunks of the entry and leaves every other chunk as it was |
| `TemplateLayout.ReplaceFirstChunks` | fstring_parser/fstring_parser.py:76 | the replacement with count 1 rewrites exactly the first pending chunk of the entry, and changes nothing when there is none |
| `TemplateLayout.FirstPassOnChunks` | fstring_parser/fstring_parser.py:67-76 | the first loop succeeds on clean entries, and its pattern is the chunks after its rounds, which stay free of stray escaped braces |
| `TemplateLayout.SecondPassOnChunks` | fstring_parser/fstring_parser.py:79-81 | the second loop succeeds on clean entries, and its pattern is the chunks after its rounds |
| `TemplateLayout.LoopsOnChunks` | fstring_parser/fstring_parser.py:67-81 | after both loops, the first pending chunk of each entry is its named group and every later one its back-reference |
| `TemplateLayout.CompileLines` | fstring_parser/fstring_parser.py:58-83 | for any template of one or more lines `before{name:spec}after` and every iteration order, compilation succeeds, and the pattern is `^`, the escaped lines with each entry's first placeholder as `(?P<name>regex)` and each later one as `(?P=name)`, then `$` |
| `Runtime.Respond` | fstring_parser/fstring_parser.py:90-97 | the result of `__call__` given the engine's answer: `None` exactly when the engine found no match. `DecodeGroups`, `FirstFailingGroup` and `DecodedValues` state the dictionary or the raised error |
| `Runtime.ParseSpec` | fstring_parser/fstring_parser.py:100-101 | `parse_fstring` for one iteration order: compile, then respond to the engine's answer. It has no contract of its own; its meaning is given by `ParseFstring`, `CompileErrorIsRaised` and `ParseOutcomes` |
| `Runtime.DecodeGroups` | fstring_parser/fstring_parser.py:95-97 | decoding succeeds exactly when every group has a decoder that accepts its text; the keys are then the group names |
| `Runtime.FirstFailingGroup` | fstring_parser/fstring_parser.py:95-97 | a failed decoding raises the error of the first group that fails: every earlier group decodes, and that group has no decoder (`KeyError`) or its decoder raised the error |
| `Runtime.DecodedValues` | fstring_parser/fstring_parser.py:95-97 | each label's value is its decoder applied to its group's text |
| `Runtime.FstringParser.constructor` | fstring_parser/fstring_parser.py:87-88 | the parser holds the compiled pattern and decoder table, and no match yet |
| `Runtime.FstringParser.Call` | fstring_parser/fstring_parser.py:90-97 | records the engine's match, leaves pattern and table unchanged, and returns `None` exactly when there is no match |
| `Runtime.NewFstringParser` | fstring_parser/fstring_parser.py:87-88 | a fresh parser holding the compiled pattern and table, or the compiler's exception |
| `Runtime.ParseFstring` | fstring_parser/fstring_parser.py:100-101 | building a parser and calling it once gives what `ParseSpec` specifies |
| `Runtime.ParseOnePlaceholder` | fstring_parser/fstring_parser.py:88-97 | for one placeholder, the result is the group's text decoded by the spec's decoder, under the label |
| `Runtime.CompileErrorIsRaised` | fstring_parser/fstring_parser.py:88 | a template that does not compile raises the compiler's exception, whatever the string |
| `Runtime.ParseOutcomes` | fstring_parser/fstring_parser.py:90-97 | `None` exactly when the engine finds no match; a dictionary exactly when every group decodes |
| `SourceTests.TestWidth` | tests/test_parse_fstring.py:5-7 | `abc{x:5}abc` gives `{'x': '55'}` |
| `SourceTests.TestGrouped` | tests/test_parse_fstring.py:15-17 | `abc{x:,}abc` with `5,555,555` gives `{'x': 5555555}` |
| `SourceTests.TestWidthInteger` | tests/test_parse_fstring.py:25-32 | `5n` and `5d` with `   55` give `{'x': 55}` |
| `SourceTests.TestLocaleInteger` | tests/test_parse_fstring.py:35-37 | `n` with `55` gives `{'x': 55}` |
| `SourceTests.TestAligned` | tests/test_parse_fstring.py:40-52 | `>5`, `<5` and `^5` with padded `55` give `{'x': '55'}` |
| `SourceTests.TestFilled` | tests/test_parse_fstring.py:55-57 | `=>5` with `===55` gives `{'x': '55'}` |
| `SourceTests.TestZeroPadded` | tests/test_parse_fstring.py:60-62 | `05n` with `00055` gives `{'x': 55}` |
| `SourceTests.TestWideInteger` | tests/test_parse_fstring.py:65-67 | `15n` with `55` padded to 15 gives `{'x': 55}` |
| `SourceTests.TestFloat` | tests/test_parse_fstring.py:70-72 | `f` hands `55.000000` to `float()` |
| `SourceTests.TestWidthFloat` | tests/test_parse_fstring.py:75-77 | `5f` hands `55.000000` to `float()` |
| `SourceTests.TestPrecisionFloat` | tests/test_parse_fstring.py:80-82 | `.5f` hands `55.00000` to `float()` |
| `SourceTests.TestDatetime` | tests/test_parse_fstring.py:85-87 | the date/time spec hands the text and the format to `strptime` |
| `SourceTests.TestSpecialCharacters` | tests/test_parse_fstring.py:90-92 | `.\{x:5n}abc` gives `{'x': 55}` |
| `SourceTests.TestPi` | tests/test_parse_fstring.py:117-122 | `.2f` hands `3.14` to `float()` |
| `SourceTests.RepeatedOnTwoLinesNoMatch` | fstring_parser/fstring_parser.py:67-94 | an example template that is not one of the repository's tests: `a{x:n}b` and `c{x:n}d` on two lines compile to one named group and one back-reference, and a string the engine rejects gives `None` |
| `SourceTests.TestUnimplemented` | tests/test_parse_fstring.py:10-164 | the specs `s` (test_s, 10-12), `_` (test_5comma_underscore, 20-22), `+` (test_plus_float, 112-114), `e` (test_exponential, 125-130, and test_exponential_with_precision, 133-138, whose template also has `{num6:e}`), `b` (test_binary, 141-143), `x` (test_hexadecimal, 146-148), `X` (test_hexadecimal_upper, 157-159) and `o` (test_octal, 162-164) raise `NotImplementedError` |
| `SourceTests.TestAlternateForm` | tests/test_parse_fstring.py:151-169 | the alternate-form specs `#x` (test_hexadecimal_alt, 151-153) and `#o` (test_octal_alt, 167-169) raise `NotImplementedError` |
| `SourceTests.TestDoubleBraces` | tests/test_parse_fstring.py:172-176 | `Number in {{hello}}: {num2:n}` has the single entry `{hello}}: {num2:n`, which has two `:`, so it raises `ValueError` |
| `SourceTests.TestTripleBraces` | tests/test_parse_fstring.py:179-183 | `Number in: {{{num2:n}}}` has the single entry `{{num2:n}}`, whose spec `n}}` no rule accepts, so it raises `NotImplementedError` |
| `SourceTests.TestPlainPlaceholder` | tests/test_parse_fstring.py:95-97 | `.\{x}abc` raises `ValueError` |
| `SourceTests.TestMultiple` | tests/test_parse_fstring.py:100-109 | `a{x:n}b{y:n}c{x:n}d` is one entry with three `:`, and it raises `ValueError` |

## Left out

- The regular-expression engine: what the compiled pattern means and the `re.match` call at fstring_parser/fstring_parser.py:91. It is a parameter that returns `None` or the named groups in pattern order.
- `Runtime.FstringParser.Call`: `re.match` raises `re.error` whenever the compiled pattern is not a valid expression, and the model does not capture this. The compiler succeeds on such templates, and `Call` returns `NoMatch` or `Decoded` where Python raises. Three causes reach it:
  - two different entries that share a label, such as `{x:n}` and `{x:d}` on two lines, each get their own `(?P<x>…)` group, and a group name cannot be defined twice;
  - a label that is not a Python identifier, such as `{1x:n}` or `{a b:n}`, cannot name a group;
  - spec text copied into the pattern unescaped breaks the sub-pattern. The copies are the whole date/time spec (line 54), `_format[1:]` (line 38), `_format[2:]` (line 40) and `_format[1:-1]` (lines 50 and 52). For example, `{x:%Y(}` gives an unclosed `(`, `{x:%Y*}` a repeated repeat, and `{x:>5)}` an unbalanced `)`.
- `Runtime.ParseOutcomes`: for the same reason, its outcomes hold as stated only when the labels are distinct identifiers and every spec's sub-pattern is a valid regular expression. Otherwise `parse_fstring` raises `re.error` instead.
- `datetime.strptime` is a foreign calendar parser. The `Strptime` decoder keeps only the text and the format it would receive.
- `float()` is floating point. The float decoders return the text `float()` would receive.
- `re.escape` is modelled character by character, with the special-character set of Python 3.7 and later. The proofs use these facts about it:
  - it distributes over concatenation;
  - what it does to braces;
  - it is injective;
  - its value on the concrete texts of the repository's tests (an escaped point, backslash, newline or space).
- `str.isdigit`, `str.strip` and `int()` are modelled on ASCII digits and ASCII whitespace only. So is `\d` in the test `re.match(r"\.\d+f", …)` at fstring_parser/fstring_parser.py:49. In Python, `\d` matches any Unicode decimal digit: the spec `.٣f` (U+0663) takes that rule and gives the quantifier `{٣}`, but `FormatSpec.EntryPatternAndDecoder` rejects it with `NotImplementedError`. The model's `int()`, `Numbers.ParseInt`, accepts only an optional `-` followed by ASCII digits. Python's `int()` also takes a leading `+`, surrounding whitespace and `_` between digits, but the integer decoders' patterns never let those through.
- The hash order of `set(entries)`. Every compiler property is stated for any duplicate-free order of the entries.
- The text of the `NotImplementedError` message, which interpolates the builtin `format` and not the spec.
- `self.match` holds Python's match object. The model keeps only its named groups.
- `TemplateCompiler.CompiledDecoders`: when two different entries share a label, the decoder the table keeps depends on the set's iteration order. The lemma states the decoder only for labels that are not shared. Such a table is never used in Python: the pattern then defines one group name twice, and `re.match` raises `re.error` first.
- Features the repository's tests exercise but this file does not implement are not modelled as behaviour: plain `{x}`, several placeholders on one line, doubled braces, `transform=`, and the `e`, `b`, `x`, `#x`, `X`, `o` and `#o` types. The lemmas in `SourceTests` state the exception the code raises for each such test that ends in one. The exception is test_fstring_parser, whose `transform=` keyword gives a `TypeError` at the call.
- `FormatSpec.Decode`: the `float()` and `strptime` decoders always succeed in the model. The `ValueError` they raise on text such as `1.2.3` or the date `2021-02-30` is not modelled.
- `Runtime.DecodeGroups`: "a dictionary exactly when every group decodes" overstates success for float and date/time groups, whose decoders the model never fails.
- `Runtime.ParseOutcomes`: for the same reason, a float or date/time group the real `float()` or `strptime` rejects gives a dictionary in the model instead of a raised `ValueError`.
- `TemplateLayout.CompileLines` covers templates with exactly one placeholder on each line, with no brace in the text around it, one `:` in it, and no backslash in its spec. Other templates are covered by the lemmas of `TemplateCompiler` only.

## Findings

| source | as written | input that shows it | evidently intended | confidence | as-written member | corrected member |
|---|---|---|---|---|---|---|
| fstring_parser/fstring_parser.py:52 | the `,.Nf` rule takes the quantifier text `_format[1:-1]`, copied from line 50, which for `,.Nf` is `.N` | `,.2f` gives `-?[0-9\|,]*\.[0-9]{.2}`; `{.2}` is no repetition count, so Python's `re` reads a literal `{`, any character, `2` and a literal `}`, and the text `1,234.56` that `format(1234.56, ",.2f")` writes never matches | `_format[2:-1]`, i.e. `N`, giving `[0-9]{2}` | high (not executed) | `FormatSpec.GroupedPrecisionAsWrittenKeepsPoint` | `FormatSpec.IntendedGroupedPrecisionSpec` |
