# German-to-Swiss text adaptation, modelled in Dafny

`translate.py` adapts German text to Swiss conventions with a chain of regular
expression substitutions:
- curly quotes become guillemets;
- `HH:MM` times become `HH.MM`;
- numbers lose their group separators, and a decimal comma becomes a point;
- currency amounts are put into the form `SYMBOL number`, with `.-` appended to
  whole amounts;
- digit runs are grouped by threes with the separator `\'` (a backslash and an
  apostrophe, see below);
- `ß` becomes `ss`;
- a vocabulary table is applied character by character.

This project models each of those substitutions as a hand-written scanner over
`string` (`seq<char>`). Each scanner follows the leftmost, non-overlapping
semantics of Python's `re.sub`. The project then proves what each rewriting
preserves, when it changes nothing, and how the steps compose.

Modules, one per rewriting, in source order:
- `Chars`: the character classes `\d`, `\s` and `\w`, the `Option` type, plus
  facts about runs of digits.
- `Numbers`: `standardize_number_in_text`, as three passes (`Rule`, `Apply`,
  `Standardize`).
- `Grouping`: `swiss_number_format` (`Group`). It is compared with a reference
  that chunks each digit run by threes from the right (`GroupNumber`,
  `GroupRuns`).
- `Currency`: `format_currency`.
  - The loop is the method `FormatCurrency`.
  - It is proved equal to the fold `FormatAll` over the symbols.
  - `FormatAll` is built from `re.search` (`FirstMatch`), `re.sub` (`SubAll`)
    and the two patterns (`MatchAt` with `Order`).
- `Quotes`: `replace_quotes` (`Quote`).
- `Times`: `format_time` (`FormatTime`).
- `Letters`: `convert_esszett` (`ConvertEsszett`) and the `str.translate` step of
  `convert_words` (`Translate`).
- `Pipeline`: `format_currency_handler` (`CurrencyHandler`) and
  `adapt_text_handler` (`AdaptText`).

Where the code disagrees with its docstrings or its test file, the model follows
the code:
- `format_time` has no range check, so `25:30` becomes `25.30`
  (`Times.NoRangeCheckExample`).
- `swiss_number_format` does group `1234567890` (`Grouping.GroupLongNumberExample`).
- The replacement of `swiss_number_format` is the raw string `\1\'`. Python's
  template parser expands `\1` and keeps the unknown escape `\'` as it is, so
  each separator is a backslash followed by an apostrophe (`Grouping.Mark`).
  `1234567890` becomes `1\'234\'567\'890`, not the Swiss `1'234'567'890`
  that the docstring describes.
- In `format_currency`, the variable `pattern_after` is the symbol-first pattern,
  whatever its comment says. It is searched and substituted first.
- Every match of a pattern is replaced with the one string built from the first
  match's number. `Rewrite` models this as written.
- Because `format_time` runs before the standardiser, a time ends as a grouped
  number: `10:30` becomes `1\'030` (`Pipeline.TimeBecomesNumber`).

## Model

| member | source | states |
|---|---|---|
| Numbers.MatchIsBetweenDigits | translate.py:15-21 | every match of a standardiser pass sits on a whitespace, `.` or `,` with a digit on each side; the two comma passes match only commas |
| Numbers.ApplyIsRewritten | translate.py:15-21 | each pass equals the position-by-position reference: a position is rewritten exactly when the pattern matches at the position before it (`Replaced`); its character is then deleted (passes 1 and 2) or turned into `.` (pass 3), and every other character is copied in place |
| Numbers.ReplacedIsBetweenDigits | translate.py:15-21 | every rewritten position is a whitespace, `.` or `,` with a digit on each side; the two comma passes rewrite only commas |
| Numbers.ApplyDecimalCommaAt | translate.py:21 | the decimal-comma pass keeps the length, puts `.` exactly at the matched commas and keeps every other position |
| Numbers.ApplyKeepsNonSeparators | translate.py:15-21 | every character that is not a whitespace, `.` or `,` survives each pass, in order |
| Numbers.ApplyLength | translate.py:15-21 | the deleting passes shorten the text exactly when they match; the decimal-comma pass keeps the length |
| Numbers.ApplyFixedIff | translate.py:15-21 | a pass leaves the text unchanged if and only if its pattern matches nowhere in it |
| Numbers.ApplyFixesDigits | translate.py:15-21 | no pass changes a run of digits |
| Numbers.StandardizeFixedIff | translate.py:15-21 | the standardiser changes the text if and only if some whitespace, `.` or `,` lies between two digits |
| Numbers.StandardizeKeepsNonSeparators | translate.py:15-21 | the digits, and every other non-separator character, come out exactly as they went in |
| Numbers.StandardizeFixesDigitsOrLetters | translate.py:15-21 | a text of digits only, or with no digit at all, is unchanged |
| Numbers.StandardizeDigitsExample | tests/test_german2swiss.py:3-6 | `1234567890` is unchanged |
| Numbers.StandardizeLettersExample | tests/test_german2swiss.py:9-12 | `abcdefghij` is unchanged |
| Numbers.SeparatorJoins | translate.py:15 | a single whitespace or `.` between two runs of digits is removed |
| Numbers.GroupSeparatorJoins | translate.py:15 | the first pass joins digit groups separated by single whitespace or `.` characters into one run |
| Numbers.StandardizeJoinsGroups | translate.py:15-21 | digit groups separated by single whitespace or `.` characters come out as the concatenation of the groups |
| Numbers.StandardizeSpacedExample | tests/test_german2swiss.py:15-18 | `12 345 67890` becomes `1234567890` |
| Numbers.StandardizeDecimalPointExample | translate.py:15 | an existing decimal point is removed too: `10.50` becomes `1050` |
| Grouping.GroupNumberCons | translate.py:33 | the reference grouping (chunks of three from the right, joined by `\'`) read from the left: the first digit is followed by `\'` exactly when the rest of the run is a positive multiple of three long |
| Grouping.GroupOfRun | translate.py:33 | on a run of digits followed by a non-digit, the substitution writes the reference grouping of the run, with `\'` separators, and goes on with the rest |
| Grouping.GroupIsGroupRuns | translate.py:33 | the substitution equals the reference on every text: each maximal digit run is cut into threes from the right, joined by `\'`, and everything else is kept |
| Grouping.GroupPlainNumber | translate.py:33 | a plain number is grouped by threes from the right, with `\'` separators |
| Grouping.LeadingDigitsOfGroup | translate.py:33 | the leading run of the output is the leftmost group, 1 to 3 digits long, of the leading run of the input |
| Grouping.GroupHasShortRuns | translate.py:33 | no run of digits in the output is longer than three |
| Grouping.GroupFixesShortRuns | translate.py:33 | a text whose digit runs have at most three digits is unchanged |
| Grouping.GroupIdempotent | translate.py:33 | grouping twice is grouping once |
| Grouping.GroupOnlyInsertsMarks | translate.py:33 | deleting the backslash-apostrophe pairs from the output gives the input with its own pairs deleted, and the input itself when it had no backslash |
| Grouping.GroupShortNumberExample | tests/test_german2swiss.py:21-24 | `123` is unchanged |
| Grouping.GroupGroupedNumberExample | tests/test_german2swiss.py:31-34 | `1'234` is unchanged |
| Grouping.GroupNumberExample | translate.py:33 | the reference grouping of `1234567890` is `1\'234\'567\'890` |
| Grouping.GroupLongNumberExample | translate.py:33 | `1234567890` becomes `1\'234\'567\'890` |
| Currency.NumberLen | translate.py:44-45 | the greedy `\d+\.?\d*` takes the longest prefix that is a number, and none when the text does not start with a digit |
| Currency.FirstMatch | translate.py:48 | `re.search` finds a match at the position it returns and at no earlier position; `None` means no match anywhere |
| Currency.FormatCurrency | translate.py:43-61 | the loop over the symbols computes the fold `FormatAll`: after k iterations the text is the first k symbols' rewrites applied in order |
| Currency.SubAllWithoutMatch | translate.py:53 | `re.sub` returns a text with no match unchanged |
| Currency.FormatSymbolWithoutAmount | translate.py:47-61 | a symbol with no amount next to it, in either order, leaves the text unchanged |
| Currency.FormatAllWithoutAmounts | translate.py:43-61 | the text is unchanged when no symbol has a number right before or after it, with one optional space |
| Currency.MatchNeedsDigitAndSymbol | translate.py:44-45 | every match of either pattern holds, between its start and its end, a digit and the symbol's first character |
| Currency.FormatAllWithoutDigits | translate.py:43-61 | a text without digits is a fixed point |
| Currency.FormatSymbolAbsent | translate.py:43-61 | a symbol whose first character does not occur in the text changes nothing |
| Currency.FormatAllAbsent | translate.py:43-61 | symbols whose first characters do not occur in the text change nothing |
| Currency.CanonicalOneDecimalPoint | translate.py:50-52 | the written-back number has exactly one `.`: `.-` is appended only when the number has none, so it never gets a second suffix |
| Currency.NumberLenOfNumber | translate.py:44-45 | the greedy number stops at the end of a number that no digit or `.` follows |
| Currency.RewriteWhole | translate.py:48-53 | a match covering the whole text is replaced by the symbol, a space and the canonical number |
| Currency.SymbolFirstWhole | translate.py:45 | `SYMBOL ?NUMBER` is matched whole, with NUMBER as its number group |
| Currency.SymbolFirstCanonical | translate.py:45-61 | one iteration turns `SYMBOL ?NUMBER` into `SYMBOL CANONICAL`, which the second pattern leaves alone |
| Currency.NumberFirstWhole | translate.py:44 | `NUMBER ?SYMBOL` is matched whole, with NUMBER as its number group |
| Currency.NumberFirstCanonical | translate.py:44-61 | one iteration turns `NUMBER ?SYMBOL` into `SYMBOL CANONICAL` |
| Currency.BothOrdersAgree | translate.py:43-61 | both orders of an amount, with or without the space, give the same output |
| Currency.SymbolFirstInText | translate.py:45-61 | inside running text, `SYMBOL ?NUMBER` becomes `SYMBOL CANONICAL` and the text before and after it is kept, when that text holds no other occurrence of the symbol's first character and does not run into the number |
| Currency.NumberFirstInText | translate.py:44-61 | inside running text, `NUMBER ?SYMBOL` becomes `SYMBOL CANONICAL` and the text before and after it is kept, under the same conditions |
| Currency.BothOrdersAgreeInText | translate.py:43-61 | inside running text, both orders of an amount, with or without the space, give the same output |
| Currency.FormatAllAppend | translate.py:43 | the loop over two lists of symbols is the loop over the first, then over the second |
| Currency.DefaultSymbolsArePlain | translate.py:35 | the default symbols contain no digit, space, `.` or `-` and satisfy the symbol restriction |
| Currency.UsdBeforeExample | tests/test_german2swiss.py:68-71 | `USD 10` becomes `USD 10.-` with the default symbols |
| Currency.UsdAfterExample | tests/test_german2swiss.py:73-76 | `10 USD` becomes `USD 10.-` with the default symbols |
| Currency.UsdInTextExample | translate.py:43-61 | `Preis 10 USD heute` becomes `Preis USD 10.- heute` with the default symbols |
| Quotes.CloseAt | translate.py:72 | the non-greedy `.+?”` stops at the first `”` with no line feed before it; with none, every `”` has a line feed before it |
| Quotes.QuoteKeepsText | translate.py:72 | the length is kept, and a character changes only from a curly quote to the guillemet of the same side |
| Quotes.QuoteRoundTrip | translate.py:72 | on a text without guillemets, turning guillemets back into quotes recovers the input |
| Quotes.QuoteFixedIff | translate.py:72 | the text changes if and only if some quoted span can be matched |
| Quotes.QuoteBalanced | translate.py:72 | as many opening guillemets as closing ones are added |
| Quotes.QuoteSpan | translate.py:72 | a quoted span followed by any text becomes its guillemet form followed by the conversion of that text |
| Quotes.QuoteSpanAfter | translate.py:72 | text without an opening quote before a span is copied, and the span is converted |
| Quotes.TwoSpans | translate.py:72 | two quoted spans are converted independently |
| Quotes.TwoSpansExample | translate.py:72 | `“a” und “b”` becomes `«a» und «b»` |
| Quotes.QuoteWithoutOpen | translate.py:72 | a text without `“` is unchanged |
| Quotes.UnclosedExample | translate.py:72 | a quote whose closing mark is on the next line is not converted |
| Times.FormatTimeAt | translate.py:82 | the length is kept; a position becomes `.` exactly when it is the colon of a converted time, and is kept otherwise |
| Times.HitIsTimeColon | translate.py:82 | only colons of `dd:dd` times standing apart from word characters are converted |
| Times.TimeConvertedOrShadowed | translate.py:82 | every time has its colon converted, unless it overlaps a converted time just before it |
| Times.FormatTimeFixedIff | translate.py:82 | the text is unchanged if and only if it contains no time |
| Times.FormatTimeSkip | translate.py:82 | a stretch where no time starts is copied |
| Times.NoColonNoTime | translate.py:82 | a text without a colon contains no time |
| Times.NoColonOrDigitNoTime | translate.py:82 | a text without digits contains no time |
| Times.FormatTimeFromSuffix | translate.py:82 | the scan of a suffix does not depend on what precedes it, unless a word character touches a leading digit |
| Times.TimeInText | translate.py:82 | a time standing apart, after colon-free text, is converted and the rest is scanned on its own |
| Times.TwoTimesInText | translate.py:82 | two times standing apart in one sentence are both converted |
| Times.MeetingExample | tests/test_german2swiss.py:36-45 | `The meeting is scheduled at 10:30` becomes `... at 10.30` |
| Times.TwoTimesExample | tests/test_german2swiss.py:47-56 | `at 09:45 and 14:30` becomes `at 09.45 and 14.30` |
| Times.NoRangeCheckExample | translate.py:82 | `The time is 25:30` becomes `The time is 25.30`: there is no range check |
| Times.OverlapExample | translate.py:82 | `12:34:56` becomes `12.34:56`: matches do not overlap |
| Letters.ConvertEsszettAppend | translate.py:105 | the conversion works character by character |
| Letters.ConvertEsszettRemovesAll | translate.py:105 | no `ß` is left |
| Letters.ConvertEsszettLength | translate.py:105 | the output length is the input length plus the number of `ß` |
| Letters.ConvertEsszettFixedIff | translate.py:105 | the text is unchanged if and only if it has no `ß` |
| Letters.ConvertEsszettWithout | translate.py:105 | a text without `ß` is unchanged |
| Letters.ConvertEsszettIdempotent | translate.py:105 | converting twice is converting once |
| Letters.ConvertEsszettIsTranslate | translate.py:105 | the conversion is the translation by the one-entry table `ß -> ss` |
| Letters.StrasseExample | translate.py:105 | `Straße` becomes `Strasse` |
| Letters.TranslateAppend | translate.py:119-120 | the translation works character by character |
| Letters.TranslateWithoutKeys | translate.py:119-120 | a text with no character in the table is unchanged |
| Letters.TranslateOneForOne | translate.py:119-120 | a table of single characters keeps the length and maps each position on its own |
| Letters.TranslateKeepsAbsent | translate.py:119-120 | a character that is neither in the text nor in any replacement is not in the output |
| Pipeline.CurrencyHandlerGrouped | translate.py:91-93 | the handler's output has no digit run longer than three, and grouping it again changes nothing |
| Pipeline.CurrencyHandlerWithoutDigits | translate.py:91-93 | a text without digits goes through the handler unchanged |
| Pipeline.CurrencyHandlerUsdExample | translate.py:91-93 | `10 USD` becomes `USD 10.-` through the whole handler |
| Pipeline.AdaptWithoutTriggers | translate.py:133-137 | a text with no digit, no `“`, no `ß` and no table key goes through the whole chain unchanged |
| Pipeline.AdaptRemovesEsszett | translate.py:133-137 | no `ß` survives the chain unless the table writes one |
| Pipeline.TimeBecomesNumber | translate.py:133-137 | because times are formatted first, `10:30` ends as `1\'030` |

## Left out

- Reading the vocabulary with `pickle` from `swiss_vocab.pkl` (translate.py:116-117) is file I/O. The table is a parameter of `Letters.Translate` and `Pipeline.AdaptText` instead.
- `str.maketrans` also accepts integer keys and `None` values, which delete a character. The table here maps characters to strings only.
- Letters.Translate: the `ValueError` that `str.maketrans` (translate.py:119) raises for a string key whose length is not 1 is not modelled. The table's type, `map<char, string>`, cannot hold a word key such as `Straße`, so `convert_words` and `adapt_text_handler` failing on such a vocabulary has no counterpart here.
- The default symbols are a Python set, whose iteration order depends on string hashing. They are an explicit `seq` (`Currency.DefaultSymbols`) in one possible order, and `Pipeline` takes the symbols as a parameter.
- `\d`, `\s` and `\w` are Unicode-aware in Python. Here `\d` is the ASCII digits and `\s` is exactly `str.isspace`. `\w` is exact up to U+00FF (the characters for which `str.isalnum` holds, and `_`); no character above U+00FF counts as a word character.
- Currency.FormatCurrency: requires every symbol to be non-empty, free of backslashes, and not to start with a digit, `.` or a space. For other symbols the regular expressions can backtrack into the number or the optional space, and `MatchAt` does not model that.
- Currency.FormatAll: no property is proved for texts that mention the same symbol more than once. Every such mention receives the first match's number, and the model reproduces this without claiming it is right.
- Currency.SymbolFirstInText, Currency.NumberFirstInText: say nothing about an amount whose neighbouring text runs into it. For example, `5USD 10` becomes `USD 5.- 10.-`.
- Times.TimeConvertedOrShadowed: does not claim that every time is converted. An overlapping time such as `34:56` in `12:34:56` keeps its colon, as in the code.
- Times.TwoTimesExample: uses the shorter sentence `at 09:45 and 14:30`. `Times.TwoTimesInText` covers any colon-free text around the two times.
- Test expectations that the code does not meet are not encoded:
  - `1234567890` left ungrouped (tests/test_german2swiss.py:26-29);
  - `25:30` left unchanged (tests/test_german2swiss.py:58-66);
  - scientific notation and a conversion to `$` (tests/test_german2swiss.py:78-81).
- The tests call `time_format` and import `..german2swiss`, neither of which exists in translate.py.
- Whole-word vocabulary substitution, Italian apostrophes and hour or minute validation are not modelled, because translate.py does none of them.
