# Floor-plan dimension and code extraction, modelled in Dafny

This project models the core of a floor-plan PDF extractor. The extractor reads
every text token of every page of a PDF. From each token it pulls out two things:

- Dimensions: `25"`, `2' 6"`, `34 (1/2)"`, `25 3/4"`. Each one is converted to a
  number of inches.
- Cabinet and appliance codes such as `DB24`, `SB42FH` or `MW30`.

It then collects one record per page.

## The model

The model follows the three Python classes.

- **`Chars`** (chars.dfy) holds the character classes of the patterns (`\d`,
  `\s`, `\w`, `[A-Z]`, the inch and foot marks). It also holds the greedy run
  `SplitRun`, `str.upper()` on ASCII, and the values of digit strings.
- **`DimensionGrammar`** (dimension_grammar.dfy) writes the three dimension
  patterns as derivations. A derivation says which characters fill which part
  of a pattern. `WellFormed` says which derivations the pattern allows, and
  `Render` gives the text a derivation spells.
  - One greedy scanner per pattern (`ScanFeet`, `ScanFraction`, `ScanSimple`)
    computes the derivation a backtracking regex engine settles on at the start
    of a text.
  - Completeness lemmas prove that each scanner finds every derivation of its
    pattern. For the mixed fraction, the scanner finds the one with the longest
    whole part, which is the one the engine prefers.
  - `Value` is the arithmetic of `parse_dimension` and `parse_fraction`. It
    includes the zero-denominator handler, which makes the whole fraction worth
    0.
- **`DimensionParser`** (dimension_parser.dfy) holds three parts.
  - The combined pattern at one position, `MatchAt`: feet and inches, then the
    fraction, then simple inches.
  - `finditer` as the scan `Scan`, proved equal to an independent leftmost-first
    description, and the loop `FindMatches`.
  - `parse_dimension`, as `Strip` and three `Search`es, and the loop of
    `extract_dimensions_from_text`.
- **`CodeDetector`** (code_detector.dfy) holds `detect_codes`. `FindCodes` walks
  the upper-cased text word by word, and its result is proved equal, as a set,
  to the set of whole words that satisfy the code grammar.
- **`PdfProcessor`** (pdf_processor.dfy) holds the page loops of both
  back-ends and the document loops.
  - A pdfplumber page is its word list.
  - A PyMuPDF page is its block / line / span tree.
  - A document is its list of pages, and each page either loads or raises.
- **`DimensionExamples`** and **`CodeExamples`** state the cases of
  tests/test_extractor.py and a few edge cases of the code pattern.

No lookahead or backtracking engine is modelled. Instead, the scanners are
proved to agree with the grammar:

- the feet and simple patterns have a unique derivation;
- for the fraction pattern, the scanner's derivation has the longest whole part.

One consequence of that preference is proved (`DimensionGrammar.JoinedLongerWhole`,
`DimensionExamples.JoinedFractionExample`). Suppose the numerator is written
straight after the whole part, with no space or parenthesis. Then the whole part
takes every digit but the last, so `123/4"` is read as 12 and 3/4.

## Model

| member | source | states |
|---|---|---|
| Chars.SplitRun | src/dimension_parser.py:12-30 | The greedy `cls*` of the patterns splits a text into a run of the class and a rest that does not start with that class. |
| Chars.SplitRunUnique | src/dimension_parser.py:12-30 | Any split into a run of the class and a rest that stops the run is the greedy split. |
| Chars.SplitRunLongest | src/dimension_parser.py:12-30 | No prefix of the class is longer than the greedy run. |
| Chars.UpperChar | src/code_detector.py:16 | `upper()` maps lower-case letters to capitals and keeps everything else. Its result is never lower-case. |
| Chars.UpperCase | src/code_detector.py:16 | Upper-casing keeps the length and works character by character. |
| Chars.UpperIdempotent | src/code_detector.py:16 | Upper-casing twice is upper-casing once. |
| Chars.UpperCaseConcat | src/code_detector.py:16 | Upper-casing a concatenation is concatenating the upper-cased parts. |
| Chars.UpperKeepsWordChars | src/code_detector.py:12-16 | A character is a word character (`\w`) exactly when its upper-case form is. |
| Chars.DigitsValue | src/dimension_parser.py:50-57 | The decimal value of a run of digits, as `float` reads a digit group. Bounded by `DigitsValueBound`. |
| Chars.DigitsValueBound | src/dimension_parser.py:50-57 | A run of `n` digits is worth less than `10^n`. |
| Chars.DecimalsValue | src/dimension_parser.py:51 | The digits after a decimal point are worth at least 0 and less than 1. |
| DimensionGrammar.DecimalValue | src/dimension_parser.py:51 | `float()` of a `\d+(?:\.\d+)?` group is non-negative. |
| DimensionGrammar.FractionValue | src/dimension_parser.py:34-41 | `parse_fraction` is non-negative. A zero denominator makes the whole result 0.0, whole part included. |
| DimensionGrammar.Value | src/dimension_parser.py:50-62 | The inches `parse_dimension` computes from a derivation's groups are non-negative. |
| DimensionGrammar.SameGroupsSameValue | src/dimension_parser.py:50-62 | The value depends only on the captured groups, not on spacing, parentheses or which mark was used. |
| DimensionGrammar.ScanDecimal | src/dimension_parser.py:15 | `\d+(?:\.\d+)?` at the start of a text: it succeeds exactly when the text starts with a digit. It spells the text read, and it stops before a further digit. |
| DimensionGrammar.ScanInchMark | src/dimension_parser.py:12 | `\s*["″]`: whitespace, then an inch mark, then the rest, which together make up the text. |
| DimensionGrammar.ScanCloseMark | src/dimension_parser.py:18 | `\s*[\)]?\s*["″]`, read back into the text it came from. |
| DimensionGrammar.ScanTail | src/dimension_parser.py:18 | The part of a fraction after the numerator, well formed and read back into its text. |
| DimensionGrammar.ScanOpen | src/dimension_parser.py:18 | `\s*[\(]?\s*` between whole part and numerator, read back into its text. |
| DimensionGrammar.ScanFeet | src/dimension_parser.py:15 | A success is a well-formed feet-and-inches derivation of a prefix of the text. |
| DimensionGrammar.ScanFraction | src/dimension_parser.py:18 | A success is a well-formed mixed-fraction derivation of a prefix of the text. |
| DimensionGrammar.ScanFractionAfter | src/dimension_parser.py:18 | Given the whole digit run, a success is a well-formed mixed fraction of that run and what follows. |
| DimensionGrammar.ScanSeparatedFraction | src/dimension_parser.py:18 | The mixed fraction whose whole part is the entire digit run, spelling the text it read. |
| DimensionGrammar.ScanJoinedFraction | src/dimension_parser.py:18 | The fallback after backtracking: the whole part is every digit but the last, and the numerator is that last digit. |
| DimensionGrammar.ScanSimple | src/dimension_parser.py:12 | A success is a well-formed simple-inches derivation of a prefix of the text. |
| DimensionGrammar.DecimalComplete | src/dimension_parser.py:15 | Every decimal followed by neither a digit nor a dot is read back exactly. |
| DimensionGrammar.InchMarkComplete | src/dimension_parser.py:12 | Whitespace and an inch mark are read back exactly. |
| DimensionGrammar.CloseMarkComplete | src/dimension_parser.py:18 | The closing part of a fraction is read back, leaving the same rest. |
| DimensionGrammar.TailComplete | src/dimension_parser.py:18 | Every fraction tail is read back with its denominator and the same rest. |
| DimensionGrammar.FeetComplete | src/dimension_parser.py:15 | Every feet-and-inches derivation is exactly the one the feet scanner finds in its text (the pattern is unambiguous). |
| DimensionGrammar.SimpleComplete | src/dimension_parser.py:12 | Every simple-inches derivation is exactly the one the simple scanner finds in its text. |
| DimensionGrammar.OpenComplete | src/dimension_parser.py:18 | The separator before a numerator is read up to the numerator. |
| DimensionGrammar.SeparatedComplete | src/dimension_parser.py:18 | A mixed fraction whose whole part ends the digit run is found with the same numerator, denominator and extent. |
| DimensionGrammar.SeparatedScan | src/dimension_parser.py:18 | The separated scanner reads a given numerator and tail after any separator. |
| DimensionGrammar.NumeratorRun | src/dimension_parser.py:18 | A numerator is a whole digit run. |
| DimensionGrammar.FractionPreferred | src/dimension_parser.py:18 | Wherever some mixed fraction matches, the scanner succeeds with a whole part at least as long. When the lengths agree, the numerator, denominator and extent are the same. |
| DimensionGrammar.ScanFractionRun | src/dimension_parser.py:18 | On a text starting with a digit run, the fraction scanner reads on from the end of that run. |
| DimensionGrammar.NoNumeratorBeforeTail | src/dimension_parser.py:18 | Right before a fraction tail there is no numerator, so the separated reading fails. |
| DimensionGrammar.FractionExact | src/dimension_parser.py:18 | A mixed fraction with a separator, or with a one-digit numerator, is read back with the same groups and extent. |
| DimensionGrammar.JoinedExact | src/dimension_parser.py:18 | A joined whole part and one-digit numerator are read back with the same groups and extent. |
| DimensionGrammar.JoinedLongerWhole | src/dimension_parser.py:18 | A joined numerator of two or more digits is not read as written: the whole part takes all its digits but the last. |
| DimensionGrammar.JoinedScan | src/dimension_parser.py:18 | A digit run right before a fraction tail reads as a whole part of all digits but the last, plus a one-digit numerator and the tail. |
| DimensionGrammar.FractionFallsBack | src/dimension_parser.py:18 | When no separated fraction follows a digit run, the scanner falls back to the joined reading. |
| DimensionGrammar.JoinedRun | src/dimension_parser.py:18 | Without a separator, the whole part and the numerator form one digit run. |
| DimensionGrammar.RenderConcat | src/dimension_parser.py:12-18 | A derivation's text followed by a rest is the derivation's text, then the rest. |
| DimensionGrammar.FractionHasNoFootMark | src/dimension_parser.py:18 | A mixed fraction's text contains no foot mark. |
| DimensionGrammar.SimpleHasNoFootMarkOrSlash | src/dimension_parser.py:12 | A simple-inches text contains neither a foot mark nor a slash. |
| DimensionGrammar.FeetHasFootMark | src/dimension_parser.py:15 | A feet-and-inches text has a foot mark right after the feet and spaces. |
| DimensionGrammar.FractionHasSlash | src/dimension_parser.py:18 | A mixed-fraction text contains a slash. |
| DimensionGrammar.RenderEnds | src/dimension_parser.py:12-18 | Every dimension text starts with a digit and ends with an inch mark. |
| DimensionParser.ScanForm | src/dimension_parser.py:24-30 | Each alternative's scanner returns a well-formed derivation of that alternative, spelling a prefix of the text. |
| DimensionParser.SuffixDerives | src/dimension_parser.py:24-30 | A scanned derivation spells exactly the characters between the position and the unread rest. |
| DimensionParser.ScanFormIffMatches | src/dimension_parser.py:24-30 | An alternative's scanner succeeds at a position exactly when that alternative can match there (both directions). |
| DimensionParser.MatchAt | src/dimension_parser.py:21-32 | A match of the combined pattern at `i` is non-empty and spells exactly its characters. |
| DimensionParser.FoundAt | src/dimension_parser.py:21-32 | A scanned derivation becomes a match that ends where the unread rest begins. |
| DimensionParser.MatchAtFeet | src/dimension_parser.py:24 | Where feet and inches can match, the combined pattern takes exactly that derivation. |
| DimensionParser.MatchAtFraction | src/dimension_parser.py:27 | Where feet and inches cannot match but a mixed fraction can, the combined pattern takes a mixed fraction whose whole part is at least as long. When the lengths agree, it has the same groups and the same end. |
| DimensionParser.MatchAtSimple | src/dimension_parser.py:30 | Where only simple inches can match, the combined pattern takes exactly that derivation. |
| DimensionParser.MatchAtThird | src/dimension_parser.py:30 | When the first two scanners fail, the match is the simple scanner's result. |
| DimensionParser.MatchAtOrder | src/dimension_parser.py:21-32 | The combined pattern matches exactly when some alternative can, and it reports the first alternative that can, in feet, fraction, simple order. |
| DimensionParser.OrderedPairwise | src/dimension_parser.py:71 | The matches of a scan lie inside the text, are non-empty and do not overlap. |
| DimensionParser.Scan | src/dimension_parser.py:71 | `finditer` yields ordered, non-overlapping, well-formed matches inside the text. |
| DimensionParser.ConsInOrder | src/dimension_parser.py:71 | A match followed by the matches from its end on is still in order. |
| DimensionParser.NoMatchBetweenAt | src/dimension_parser.py:71 | A stretch of positions with no match has no match at any position inside it. |
| DimensionParser.ScanIsLeftmostFirst | src/dimension_parser.py:71 | The scan is leftmost-first. Each match starts at the least position from the previous end where the pattern matches, and nothing matches after the last one. |
| DimensionParser.LeftmostFirstIsScan | src/dimension_parser.py:71 | The leftmost-first sequence of matches is unique: it is the scan. |
| DimensionParser.LeftmostFirstStep | src/dimension_parser.py:71 | One position of a leftmost-first sequence advances as the scan does. |
| DimensionParser.FindMatches | src/dimension_parser.py:71 | The loop that advances past each match (or one position) returns the scan. |
| DimensionParser.StripStart | src/dimension_parser.py:45 | Drops leading whitespace: the result is a suffix that does not start with whitespace, and everything dropped in front of it is whitespace. Text without leading whitespace is unchanged. |
| DimensionParser.StripEnd | src/dimension_parser.py:45 | Drops trailing whitespace: the result is a prefix that does not end with whitespace, and everything dropped after it is whitespace. Text without trailing whitespace is unchanged. |
| DimensionParser.Strip | src/dimension_parser.py:45 | `strip()`: the result is a substring `s[a..a + \|r\|]` of the text with only whitespace before and after it, and it neither starts nor ends with whitespace. Text already stripped is unchanged. |
| DimensionParser.Search | src/dimension_parser.py:47-62 | `pattern.search` for one alternative returns a well-formed match of that alternative, at or after the start position. |
| DimensionParser.SearchNone | src/dimension_parser.py:47-62 | A search fails exactly when the alternative matches nowhere from the start position on. |
| DimensionParser.SearchFound | src/dimension_parser.py:47-62 | A successful search stops at the least position where the alternative matches, with the scanner's derivation there. |
| DimensionParser.SearchHere | src/dimension_parser.py:47-62 | Where the scanner succeeds, the search stops there. |
| DimensionParser.SearchSkip | src/dimension_parser.py:47-62 | Where the scanner fails, the alternative cannot match there and the search moves on. |
| DimensionParser.SearchSpec | src/dimension_parser.py:47-62 | A search fails exactly when nothing matches. Otherwise it reports the leftmost match with the scanner's derivation. |
| DimensionParser.DimensionReading | src/dimension_parser.py:43-64 | The derivation `parse_dimension` reads is well formed. |
| DimensionParser.ParseDimension | src/dimension_parser.py:43-64 | `parse_dimension` returns a non-negative number of inches or None. |
| DimensionParser.ParseDimensionNone | src/dimension_parser.py:43-64 | `parse_dimension` returns None exactly when no alternative matches anywhere in the stripped text. |
| DimensionParser.ParseDimensionFeet | src/dimension_parser.py:47-52 | If feet and inches occur anywhere, the reading is the leftmost feet-and-inches expression. |
| DimensionParser.ParseDimensionFraction | src/dimension_parser.py:54-57 | If there are no feet and inches but a fraction occurs, the reading is the leftmost fraction, with the longest whole part possible there. |
| DimensionParser.ScannedLongest | src/dimension_parser.py:18 | The fraction scanner's whole part is the longest of any mixed fraction at that position. |
| DimensionParser.ParseDimensionSimple | src/dimension_parser.py:59-62 | If neither of the first two alternatives occurs, the reading is the leftmost simple-inches expression. |
| DimensionParser.SearchAtStart | src/dimension_parser.py:47-62 | A search over a text where the alternative matches at the start stops at once. |
| DimensionParser.NoFeetIn | src/dimension_parser.py:48 | A text without a foot mark gives no feet-and-inches match. |
| DimensionParser.NoFractionIn | src/dimension_parser.py:55 | A text without a slash gives no fraction match. |
| DimensionParser.StripRender | src/dimension_parser.py:45 | The text of a dimension has nothing to strip. |
| DimensionParser.ReadFeetText | src/dimension_parser.py:47-52 | A stripped text starting with feet and inches reads as what the feet scanner finds. |
| DimensionParser.ReadFractionText | src/dimension_parser.py:54-57 | A stripped text without feet and inches that starts with a fraction reads as that fraction. |
| DimensionParser.FractionReading | src/dimension_parser.py:54-57 | When the feet search fails, the reading is the first fraction found. |
| DimensionParser.ReadSimpleText | src/dimension_parser.py:59-62 | A stripped text without the first two alternatives that starts with simple inches reads as them. |
| DimensionParser.RereadFeet | src/dimension_parser.py:43-52 | The text of a feet-and-inches derivation reads back as that derivation. |
| DimensionParser.RereadSimple | src/dimension_parser.py:43-62 | The text of a simple-inches derivation reads back as that derivation. |
| DimensionParser.RereadFraction | src/dimension_parser.py:43-57 | The text of a mixed fraction reads as the derivation the fraction scanner finds at its start. |
| DimensionParser.ReparseFeet | src/dimension_parser.py:43-52 | The text of a feet-and-inches expression parses to its value: feet × 12 + inches. |
| DimensionParser.ReparseSimple | src/dimension_parser.py:43-62 | The text of a simple-inches expression parses to its value. |
| DimensionParser.ReparseFraction | src/dimension_parser.py:34-57 | The text of a mixed fraction with a separator, or with a one-digit numerator, parses to its value. |
| DimensionParser.MatchAtScansFraction | src/dimension_parser.py:27 | A fraction match of the combined pattern is what the fraction scanner reads there. |
| DimensionParser.RereadMatch | src/dimension_parser.py:74-75 | Re-reading the raw text of a combined-pattern match on its own gives a derivation with the same groups. |
| DimensionParser.ReparseMatch | src/dimension_parser.py:74-75 | `parse_dimension` of a match's raw text is the value of the derivation the combined pattern read, so it is never None. |
| DimensionParser.ValueOfReading | src/dimension_parser.py:43-64 | A reading with the same groups as a derivation parses to that derivation's value. |
| DimensionParser.RereadFractionGroups | src/dimension_parser.py:74-75 | A fraction read from a fraction match's text has the groups of the match. |
| DimensionParser.FractionGroupsAt | src/dimension_parser.py:74-75 | Two fraction readings of the same text, with the scanner's whole part no longer, have the same groups. |
| DimensionParser.FractionAgree | src/dimension_parser.py:18 | Two fraction readings of one text, with the scanner's whole part no longer, agree on all groups. |
| DimensionParser.DimensionFor | src/dimension_parser.py:74-82 | A match gives at most one dimension. It carries the match's raw text, the token's box and non-negative inches. |
| DimensionParser.DimensionsOf | src/dimension_parser.py:73-84 | The matches give at most one dimension each, all with the token's box. |
| DimensionParser.BoxedConcat | src/dimension_parser.py:73-84 | Lists of dimensions with the token's box concatenate to one. |
| DimensionParser.ExtractDimensionsFromText | src/dimension_parser.py:66-84 | The loop over `finditer` returns the dimensions of the scan's matches, in match order. |
| DimensionParser.AppendDimension | src/dimension_parser.py:74-82 | One loop step appends the match's dimension when `parse_dimension` reads one, and nothing otherwise. |
| DimensionParser.DimensionForParse | src/dimension_parser.py:75-82 | The loop step's test on `inches_value` decides the match's dimension. |
| DimensionParser.DimensionsStep | src/dimension_parser.py:73-82 | The dimensions of the remaining matches are the next match's dimension, then those of the rest. |
| DimensionParser.DimensionsCons | src/dimension_parser.py:73-82 | A match that gives a dimension contributes it in front of the rest's dimensions. |
| DimensionParser.MatchDimension | src/dimension_parser.py:74-82 | The dimension of a combined-pattern match is its raw text with the value of the derivation read there. |
| DimensionParser.Readings | src/dimension_parser.py:73-82 | The candidate dimension of each match: its matched text, the value of its form and the token's box. Characterised by `ReadingsCons` and used by `ExtractedDimensions`. |
| DimensionParser.ReadingsCons | src/dimension_parser.py:73-82 | One reading per match, in order. |
| DimensionParser.ScanDimensions | src/dimension_parser.py:71-84 | The scan yields exactly one dimension per match, worth the match's derivation. |
| DimensionParser.ExtractedDimensions | src/dimension_parser.py:66-84 | `extract_dimensions_from_text` returns one dimension per `finditer` match, in order. Each has the matched text, the value of the alternative that matched and the token's box; no match is dropped. |
| DimensionParser.NoMatchWithoutInchMark | src/dimension_parser.py:21-32 | Every alternative ends in an inch mark, so without one the combined pattern never matches. |
| DimensionParser.ScanWithoutInchMark | src/dimension_parser.py:71 | A text without an inch mark has no matches. |
| DimensionParser.NoDimensionsWithoutInchMark | src/dimension_parser.py:66-84 | A token without an inch mark yields no dimensions. |
| CodeDetector.MatchesCode | src/code_detector.py:12 | A word that passes has 4 to 11 characters and starts with a capital. `MatchesCodeIff` proves that it decides the code grammar. |
| CodeDetector.MatchesCodeSound | src/code_detector.py:12 | A word passing the greedy letters/digits/letters check satisfies the code grammar. |
| CodeDetector.MatchesCodeComplete | src/code_detector.py:12 | Every word of the code grammar passes the greedy check. |
| CodeDetector.MatchesCodeIff | src/code_detector.py:12 | The greedy check decides the code grammar (both directions). |
| CodeDetector.CodeLength | src/code_detector.py:12 | A code is 4 to 11 characters long. |
| CodeDetector.WordEnd | src/code_detector.py:12 | From a word character, finds the end of the maximal run of word characters. |
| CodeDetector.WordEndRun | src/code_detector.py:12 | The greedy word run ends at a non-word character or the end of the text. |
| CodeDetector.WordAtBoundary | src/code_detector.py:12 | The word found at a boundary is a whole word (`\b` on both sides). |
| CodeDetector.NoWordInside | src/code_detector.py:12 | No whole word starts strictly inside another word. |
| CodeDetector.WordIsRun | src/code_detector.py:12 | A whole word is the greedy word run at its start. |
| CodeDetector.WordEndUnique | src/code_detector.py:12 | A run of word characters that ends at a boundary is the word the scanner finds. |
| CodeDetector.ShiftWordEnd | src/code_detector.py:12 | Word ends shift with a prefix. |
| CodeDetector.FindCodes | src/code_detector.py:16 | `findall` of the code pattern from a word boundary. `FindCodesSound` and `FindCodesComplete` prove that it finds exactly the whole words that satisfy the code grammar. |
| CodeDetector.FindCodesShift | src/code_detector.py:16 | `findall` does not look behind a boundary, so a prefix does not change the codes found after it. |
| CodeDetector.FindCodesFirstWord | src/code_detector.py:16 | A text starting with a whole word gives that word (if it is a code), then the codes of the rest. |
| CodeDetector.FindCodesAtWord | src/code_detector.py:16 | One scanning step at a word character. |
| CodeDetector.FindCodesSeparator | src/code_detector.py:16 | A leading non-word character contributes nothing. |
| CodeDetector.FindCodesSound | src/code_detector.py:16 | Every code found is a whole word of the text that satisfies the code grammar. |
| CodeDetector.FindCodesComplete | src/code_detector.py:16 | Every whole word of the text that satisfies the code grammar is found. |
| CodeDetector.Dedup | src/code_detector.py:17 | `list(set(...))` has no duplicates and has exactly the elements of its input. |
| CodeDetector.DetectCodes | src/code_detector.py:14-17 | `detect_codes` returns no duplicates. |
| CodeDetector.DetectCodesSpec | src/code_detector.py:14-17 | `detect_codes` returns exactly the distinct whole words of the upper-cased text that satisfy the code grammar. |
| CodeDetector.DetectedAreCodes | src/code_detector.py:12-17 | Every returned code satisfies the grammar and has 4 to 11 characters. |
| CodeDetector.DetectCodesIgnoresCase | src/code_detector.py:16 | Detection does not depend on the case of the input. |
| CodeExamples.KitchenExample | tests/test_extractor.py:24-28 | "The kitchen has DB24, SB42FH, and MW30 cabinets" yields DB24, SB42FH and MW30. |
| CodeExamples.DB24Code | tests/test_extractor.py:27 | `DB24` is an upper-case word that satisfies the code pattern. |
| CodeExamples.SB42FHCode | tests/test_extractor.py:27 | `SB42FH` is an upper-case word that satisfies the code pattern. |
| CodeExamples.MW30Code | tests/test_extractor.py:27 | `MW30` is an upper-case word that satisfies the code pattern. |
| CodeExamples.DistinctCodes | tests/test_extractor.py:27-28 | Deduplicating the three expected codes keeps all three. |
| CodeExamples.WordThen | src/code_detector.py:16 | A text made of a word, a separator (a space or a comma and a space) and a rest gives that word if it is a code, then the codes of the rest. |
| CodeExamples.OnlyWord | src/code_detector.py:16 | A one-word text yields its upper-case form if that is a code, and nothing otherwise. |
| CodeExamples.LettersOnly | src/code_detector.py:12 | A word of letters only is never a code. |
| CodeExamples.OpeningWords | tests/test_extractor.py:25 | "The kitchen has" contributes no code. |
| CodeExamples.ClosingWords | tests/test_extractor.py:25 | "and MW30 cabinets" yields MW30 only. |
| CodeExamples.CodeWords | tests/test_extractor.py:25 | "DB24, SB42FH, and MW30 cabinets" yields the three codes in order. |
| CodeExamples.SingleWord | src/code_detector.py:14-17 | A one-word text is detected as its upper-case form when that is a code. |
| CodeExamples.GreedyShape | src/code_detector.py:12 | A word of capitals, digits and a non-digit rest is a code exactly when it has 2-4 letters, 2-4 digits and at most 3 trailing capitals. |
| CodeExamples.FiveLettersExample | src/code_detector.py:12 | `ABCDE12` yields no code, not even `BCDE12`, because of the leading `\b`. |
| CodeExamples.TrailingUnderscoreExample | src/code_detector.py:12 | `DB24_` yields no code, because `_` is a word character. |
| CodeExamples.ExtraLettersExample | src/code_detector.py:12 | `DB24ABCD` yields no code: four trailing letters are too many. |
| CodeExamples.EmbeddedExample | src/code_detector.py:12 | `XDB24Y` is one code, and `DB24` is not found inside it. |
| CodeExamples.LowerCaseExample | src/code_detector.py:16 | `db24` yields `DB24`. |
| DimensionExamples.SimpleInchesExample | tests/test_extractor.py:12 | `25"` parses to 25 inches. |
| DimensionExamples.FeetInchesExample | tests/test_extractor.py:14 | `2' 6"` parses to 30 inches. |
| DimensionExamples.FeetDecimalInchesExample | tests/test_extractor.py:15 | `3' 4.5"` parses to 40.5 inches. |
| DimensionExamples.ParenthesisedFractionExample | tests/test_extractor.py:13 | `34 (1/2)"` parses to 34.5 inches. |
| DimensionExamples.SpacedFractionExample | tests/test_extractor.py:16 | `25 3/4"` parses to 25.75 inches. |
| DimensionExamples.JoinedFractionExample | src/dimension_parser.py:18 | `123/4"` parses to 12.75 inches (12 and 3/4), not 123/4. |
| DimensionExamples.SameJoinedText | src/dimension_parser.py:18 | Joined fractions that split the same digit run differently have the same text. |
| DimensionExamples.ZeroDenominatorExample | src/dimension_parser.py:38-41 | A zero denominator, as in `5 1/0"`, parses to 0 inches. |
| DimensionExamples.SimpleInchesValue | src/dimension_parser.py:60-62 | The value of `25` is 25. |
| DimensionExamples.FeetInchesValue | src/dimension_parser.py:50-52 | 2 feet 6 inches is 30 inches. |
| DimensionExamples.FeetDecimalInchesValue | src/dimension_parser.py:50-52 | 3 feet 4.5 inches is 40.5 inches. |
| DimensionExamples.FractionValueOf | src/dimension_parser.py:34-39 | 34 + 1/2, 25 + 3/4 and 12 + 3/4 are 34.5, 25.75 and 12.75. |
| DimensionExamples.ZeroDenominatorValue | src/dimension_parser.py:38-41 | A zero denominator gives the value 0. |
| PdfProcessor.WordTokens | src/pdf_processor.py:52-54 | Each pdfplumber word gives one token, in order, with the box `[x0, top, x1, bottom]`. |
| PdfProcessor.SpanTokens | src/pdf_processor.py:81-83 | Each span gives one token, in order, with its own text and box. |
| PdfProcessor.LoadedPages | src/pdf_processor.py:16-36 | The pages read are the document's pages up to the first one that raises, which is never read. |
| PdfProcessor.AddToken | src/pdf_processor.py:56-62 | One loop body extends the dimensions and the codes with those of the token. |
| PdfProcessor.LineTokens | src/pdf_processor.py:80-83 | The spans of a block's lines, line after line. `LineTokensStep` states the order. |
| PdfProcessor.BlockTokens | src/pdf_processor.py:78-83 | The spans of the text blocks, in block, line and span order; other blocks give nothing. `BlockTokensStep` and `BlockTokensAppend` state the order. |
| PdfProcessor.WordTokensStep | src/pdf_processor.py:52-54 | One more word adds its token at the end. |
| PdfProcessor.SpanTokensStep | src/pdf_processor.py:81-83 | One more span adds its token at the end. |
| PdfProcessor.LineTokensStep | src/pdf_processor.py:80-81 | One more line adds its spans at the end. |
| PdfProcessor.BlockTokensStep | src/pdf_processor.py:78-80 | One more block adds its content at the end. |
| PdfProcessor.ProcessPagePlumber | src/pdf_processor.py:44-68 | The page record is the page number, the dimensions of every word in order, and the distinct codes of every word. |
| PdfProcessor.ProcessPagePyMuPDF | src/pdf_processor.py:70-97 | The page record is built the same way from the spans in block, line and span order. |
| PdfProcessor.AddLines | src/pdf_processor.py:80-91 | The loop over a block's lines adds the tokens of all their spans. |
| PdfProcessor.AddSpans | src/pdf_processor.py:81-91 | The loop over a line's spans adds their tokens. |
| PdfProcessor.Records | src/pdf_processor.py:18-36 | The records a document yields, one per page read, numbered from 1. `RecordsSpec` characterises them. |
| PdfProcessor.RecordsSpec | src/pdf_processor.py:16-36 | Record `k` is that of loaded page `k + 1`; the records stop at the end of the document or at the first page that raises. |
| PdfProcessor.RecordsStep | src/pdf_processor.py:18-36 | Reading one more page appends its record, numbered after the pages before it. |
| PdfProcessor.RecordsStop | src/pdf_processor.py:22-42 | Once the loop stops, at the end or at a page that raises, the records read are all the records. |
| PdfProcessor.LoadedPagesFailing | src/pdf_processor.py:23-42 | Nothing after the first page that raises is read. |
| PdfProcessor.RecordsFailing | src/pdf_processor.py:23-42 | The records of a document are those of its pages before the first one that raises. |
| PdfProcessor.ExtractWithPdfplumber | src/pdf_processor.py:12-25 | A document that cannot be opened gives no pages. Otherwise there is one record per page, numbered from 1, up to the first page that raises. |
| PdfProcessor.ExtractWithPymupdf | src/pdf_processor.py:27-42 | The same for PyMuPDF, whose pages are block trees. |
| PdfProcessor.Collect | src/pdf_processor.py:56-62 | The `extend` of a per-token result over the tokens. `CollectSound` and `CollectComplete` prove that it holds exactly what the tokens yield. |
| PdfProcessor.CollectSnoc | src/pdf_processor.py:56-62 | Collecting one more token appends its results. |
| PdfProcessor.CollectAppend | src/pdf_processor.py:56-62 | Collecting over two runs of tokens is collecting over each in turn. |
| PdfProcessor.CollectSound | src/pdf_processor.py:56-62 | Everything collected comes from some token. |
| PdfProcessor.CollectComplete | src/pdf_processor.py:56-62 | Everything any token yields is collected. |
| PdfProcessor.PageOf | src/pdf_processor.py:64-68 | The record of a page from its tokens. `PageDimensions` and `PageCodes` state its dimensions and codes. |
| PdfProcessor.PageDimensions | src/pdf_processor.py:52-58 | A page's dimensions are exactly those of its tokens, and each carries the box of a token of the page. |
| PdfProcessor.PageCodes | src/pdf_processor.py:52-67 | A page's codes have no duplicates and are exactly the codes of its tokens. |
| PdfProcessor.EmptyPage | src/pdf_processor.py:64-68 | A page without words has no dimensions and no codes. |
| PdfProcessor.PlumberBoxes | src/pdf_processor.py:52-58 | Each dimension of a pdfplumber page carries the `[x0, top, x1, bottom]` box of one of its words. |
| PdfProcessor.BlockTokensAppend | src/pdf_processor.py:78-91 | The tokens of two runs of blocks are those of each run in turn. |
| PdfProcessor.OtherBlockIgnored | src/pdf_processor.py:79 | A block without lines (an image block) contributes nothing. |
| PdfProcessor.OtherBlockEmpty | src/pdf_processor.py:79 | A block without lines has no tokens. |

## Left out

- Floating point: `float()` conversions and `round(inches_value, 2)` are not modelled. `inches` is the exact rational value before rounding.
- Unicode: `\d`, `\s`, `\w` and `str.upper()` are restricted to ASCII. In the model `\s` and `strip()` both mean the six characters space, tab, line feed, vertical tab, form feed and carriage return. The inch marks are `"` and U+2033 and the foot marks are `'` and U+2032, as in the patterns.
- The separators U+001C to U+001F count as whitespace for `re`'s `\s` and for `str.strip()`, but not in the model. For example, `parse_dimension` reads `25\x1c"` as 25.0 in the source, while `DimensionParser.ParseDimension` gives no value for it. The combined pattern uses the `regex` module, whose `\s` need not agree with `re` on these characters.
- The regex engines (`re`, `regex`) are not modelled. Per-alternative scanners take their place, and lemmas tie the scanners to the grammar and to leftmost-first search.
- `parse_fraction` with an empty whole part is not modelled: the pattern always captures at least one digit, so that path is unreachable.
- `parse_fraction`'s `ValueError` branch is not modelled: captured digit groups always convert.
- The PDF libraries are replaced by their output. pdfplumber's `extract_words()` is a list of words; PyMuPDF's `get_text("dict")` is a block / line / span tree.
- Opening a document is an `Option`: `None` when it raises. Reading a page is a `PageSource`: `Failing` when it raises.
- The printed error message and `doc.close()` are not modelled.
- CodeDetector.Dedup: keeps first occurrences. Python's `list(set(...))` order is unspecified, so the contracts state the elements and the absence of duplicates, not the order.
- PdfProcessor.ProcessPagePlumber: `codes` are deduplicated by the same first-occurrence `Dedup`. The source's order is unspecified; `PdfProcessor.PageCodes` states the elements and the absence of duplicates only.
- PdfProcessor.ProcessPagePyMuPDF: its `codes` are treated as for ProcessPagePlumber.
- The `__init__` constructors only build patterns. They hold no state that changes, so the classes are modelled as modules of functions.
- The constants `simple_inches`, `feet_inches` and `fraction_pattern` become the scanners `ScanSimple`, `ScanFeet` and `ScanFraction`.
- The repository's command-line entry point, output formatting and other modules are not part of this model.
