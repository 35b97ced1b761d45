# String calculator: a Dafny model of `StringCalculator.Add`

`StringCalculator.Add(string numbers)` turns a text of delimited integers into
their sum. It works in five stages:

1. A blank input (empty or whitespace only) gives 0.
2. A header of the form `//spec` followed by a line feed may append one
   custom delimiter to the configured ones. It appends `d` for `//[d]` and
   `spec` itself otherwise; an empty delimiter is never appended. The rest
   of the input is then the payload.
3. The payload is split with .NET's `String.Split(string[], None)`.
4. Every token is trimmed and read with `int.TryParse`; a token that does
   not parse counts as 0.
5. Any negative value makes the call fail with all the negatives in input
   order. Otherwise the values not above the configured maximum are summed
   with `Enumerable.Sum`, whose additions are overflow-checked.

The model is split into modules that follow those stages:

- `Text` holds the .NET string primitives: `Char.IsWhiteSpace` with its
  full character set, `IsNullOrWhiteSpace`, `Trim`, `StartsWith`/`EndsWith`
  and the search for the first line feed.
- `Tokenizer` is `String.Split` as .NET implements it:
  - the scan goes left to right, and at each position the separators are
    tried in array order, so the first one that occurs there wins;
  - empty separators never match;
  - an empty separator array splits on whitespace characters;
  - empty tokens are kept.

  It is written once as a pure scan (`Split`, `SplitPieces`) and once as a
  loop (`SplitScan`).
- `Int32` holds `int.TryParse` (an optional sign, ASCII digits, then white
  characters and NULs; Int32 range), its inverse `ToString`, and the checked
  sum.
- `Sequences` holds the LINQ `Where` and the mathematical sum.
- `StringCalculator` holds the configuration, the header stage, the
  coercion, the validation, the reduction and `Add` itself.
  - `Add` returns an `Outcome`: `Ok(sum)`, `NegativesNotAllowed(negatives)`
    for the `ArgumentException`, or `Overflow` for the `OverflowException`
    of the checked sum.
  - `Config` carries the two settings `Add` reads. One is the delimiter
    list; `None` stands for a null list, which `Add` replaces with `,` and
    line feed. The other is the maximum value that is still added.
- `CalculatorScenarios` works out the unit tests' concrete calls, plus calls
  that pin down the header and split rules.

The code departs from the usual string-calculator kata rules in several
ways, and the model follows the code:

- **Separator matching.** `String.Split` takes the first delimiter in list
  order that occurs at a position, not the longest one.
  `CalculatorScenarios.FirstListedSeparatorWins` shows this.
- **Bracket groups.** The code strips only one outer bracket pair. So
  `//[a][b]` declares the single delimiter `a][b`, not the two delimiters
  `a` and `b`. `CalculatorScenarios.OneBracketPairOnly` shows this.
- **Other operations.** The code only ever sums. It has no product,
  difference or quotient, no switch that allows negatives, and no trace text
  of the calculation.
- **Settings.** `Models/CalculatorSettings.cs` declares `DefaultDelimiter`,
  `DenyNegatives`, `UpperBound` and `Operation`. `Add` instead reads
  `Delimiters` and `MaxNumberValue`. The model takes those two as `Config`.
  The scenarios use no delimiter list and a maximum of 1000, which are the
  defaults the unit tests rely on.

## Model

| member | source | states |
|---|---|---|
| Text.IsWhiteSpace | Services/StringCalculator.cs:18 | `Char.IsWhiteSpace`: the control characters U+0009 to U+000D, U+0085, and the Unicode space, line and paragraph separators |
| Text.IsBlank | Services/StringCalculator.cs:18-21 | `IsNullOrWhiteSpace` for a non-null string: it is empty or holds only whitespace characters |
| Text.StartsWith | Services/StringCalculator.cs:26 | ordinal `StartsWith`: it holds exactly when the prefix is no longer than the text and matches its first characters one by one |
| Text.EndsWith | Services/StringCalculator.cs:33 | ordinal `EndsWith`: it holds exactly when the suffix is no longer than the text and matches its last characters one by one |
| Text.Trim | Services/StringCalculator.cs:58 | `Trim` removes only surrounding whitespace: the result is an infix of the input with whitespace only on both sides of it, it neither starts nor ends with whitespace, and it is empty exactly when the input is blank |
| Text.TrimPadded | Services/StringCalculator.cs:58 | trimming a text with non-whitespace ends that is padded with any whitespace on both sides gives back exactly that text |
| Text.TrimUnpadded | Services/StringCalculator.cs:58 | a text that neither starts nor ends with whitespace is unchanged by `Trim` |
| Text.IndexOf | Services/StringCalculator.cs:28 | the header cut is at the first line feed: the index is a line feed or the end, and no line feed comes before it |
| Text.IndexOfAfter | Services/StringCalculator.cs:28 | for a prefix without a line feed, the first line feed is the one right after that prefix |
| Sequences.Filter | Services/StringCalculator.cs:61 | `Where` keeps exactly the elements that satisfy the predicate |
| Sequences.FilterAppend | Services/StringCalculator.cs:61 | `Where` keeps the original order: filtering a concatenation is the concatenation of the filtered parts |
| Sequences.SumAppend | Services/StringCalculator.cs:67-69 | the sum of a concatenation is the sum of the sums of its parts |
| Int32.TryParse | Services/StringCalculator.cs:58 | a parsed value is always inside the Int32 range, the empty text does not parse, and a negative result needs a leading `-` |
| Int32.ParseNumeral | Services/StringCalculator.cs:58 | a text made of no sign, `+` or `-`, then a non-empty ASCII numeral, then white characters and then NULs, parses to its signed value when that is an Int32; when it is not, the parse fails rather than clamping |
| Int32.ParsedShape | Services/StringCalculator.cs:58 | conversely, every text that parses has that shape, and its value is the signed value of its numeral |
| Int32.OutOfRangeRejected | Services/StringCalculator.cs:58 | a numeral outside the Int32 range does not parse, whatever its sign |
| Int32.ParseFormat | Services/StringCalculator.cs:58 | `TryParse` inverts `ToString`: the rendering of every Int32 parses back to it |
| Int32.ParseFormatPadded | Services/StringCalculator.cs:58 | white characters and then NULs after a rendered Int32 are skipped, and it still parses back to the same value |
| Int32.TryParseRejects | Services/StringCalculator.cs:58 | a character other than a digit, a NUL, a white character or a leading sign makes the parse fail |
| Int32.DropTrailingNuls | Services/StringCalculator.cs:58 | removes exactly the trailing NULs: the result is a prefix, everything after it is NUL, and it does not end with one |
| Int32.DropTrailingWhite | Services/StringCalculator.cs:58 | removes exactly the trailing white characters: the result is a prefix, everything after it is white, and it does not end with one |
| Int32.CheckedSum | Services/StringCalculator.cs:69 | a checked `Sum` that succeeds returns the mathematical sum, and that sum is an Int32 |
| Int32.CheckedSumOfNaturals | Services/StringCalculator.cs:67-69 | for non-negative values, the checked `Sum` fails exactly when the mathematical sum exceeds Int32.MaxValue, and otherwise equals it |
| Tokenizer.FirstSeparatorFrom | Services/StringCalculator.cs:55 | finds the first separator in list order that occurs at the position, or reports that none does |
| Tokenizer.MatchAt | Services/StringCalculator.cs:55 | what is cut at a position: a separator that occurs there, and the first in list order that does; with no separators it is a single whitespace character |
| Tokenizer.Split | Services/StringCalculator.cs:55 | `String.Split` returns at least one token, and the empty string gives the single empty token |
| Tokenizer.SplitJoins | Services/StringCalculator.cs:55 | splitting loses nothing: the tokens joined back with the separators cut between them give the input again |
| Tokenizer.SplitTokensFree | Services/StringCalculator.cs:55 | no returned token contains any of the separators, or any whitespace when splitting on whitespace |
| Tokenizer.SplitSeparatorsCuttable | Services/StringCalculator.cs:55 | every text cut out is one of the listed separators, or a single whitespace character when none is listed |
| Tokenizer.SplitIgnoresDuplicate | Services/StringCalculator.cs:39-55 | appending a delimiter that is already in the list does not change the split |
| Tokenizer.SplitWithoutMatch | Services/StringCalculator.cs:55 | a text in which no separator occurs anywhere comes back as its only token |
| Tokenizer.SplitSingleToken | Services/StringCalculator.cs:55 | a text none of whose characters starts a separator comes back as its only token |
| Tokenizer.SplitAtSeparator | Services/StringCalculator.cs:55 | where the split first cuts: when nothing is cut inside a text `t` and `seps[k]` is the first listed separator that occurs right after it, `t` is the first token and the rest is split on its own |
| Tokenizer.SplitFirstToken | Services/StringCalculator.cs:55 | a special case of the above: a token none of whose characters begins a separator, then a separator whose first character no earlier listed separator shares, splits off as the first token |
| Tokenizer.SplitAfterPrefix | Services/StringCalculator.cs:55 | matching only looks forward: the scan of a text resumed after a prefix is the split of the rest |
| Tokenizer.MatchIgnoresDuplicate | Services/StringCalculator.cs:55 | a repeated separator never changes which text is cut at a position |
| Tokenizer.FirstSeparatorIsFirst | Services/StringCalculator.cs:55 | the search returns the first listed separator that occurs at the position |
| Tokenizer.NoSeparatorFound | Services/StringCalculator.cs:55 | when no listed separator occurs at the position, the search finds nothing |
| Tokenizer.SplitScan | Services/StringCalculator.cs:55 | the left-to-right loop with its cursor and token start returns the tokens of the pure split |
| StringCalculator.BaseDelimiters | Services/StringCalculator.cs:23 | the list a call starts from is the configured delimiter list, or `,` and line feed when that list is null |
| StringCalculator.IsBracketed | Services/StringCalculator.cs:33 | a specification counts as bracketed exactly when it opens with `[` and closes with `]`, which needs at least two characters |
| StringCalculator.CustomDelimiter | Services/StringCalculator.cs:31-49 | a bracketed specification yields the text inside the brackets and any other yields itself; the result is never empty, and there is none exactly for an empty specification or `[]` |
| StringCalculator.ExtractHeader | Services/StringCalculator.cs:26-53 | without a `//` prefix or without a line feed, the input and the delimiters are left unchanged; otherwise the input is `//` + specification + line feed + payload, the specification holds no line feed, and at most one non-empty delimiter is appended after the configured ones |
| StringCalculator.HeaderOf | Services/StringCalculator.cs:26-53 | a specification without a line feed is read back exactly, and everything after the first line feed is the payload |
| StringCalculator.BracketedHeader | Services/StringCalculator.cs:33-51 | `//[d]` and a line feed append `d` whatever its length, and leave the payload |
| StringCalculator.BracketedSpec | Services/StringCalculator.cs:33-40 | the delimiter of `[d]` is `d` for every non-empty `d` |
| StringCalculator.PlainHeader | Services/StringCalculator.cs:42-51 | `//d` and a line feed append `d` as it stands when `d` is not bracketed |
| StringCalculator.EmptyHeader | Services/StringCalculator.cs:33-51 | `//` or `//[]` followed by a line feed only strips the header and appends nothing |
| StringCalculator.NoHeaderUsesBaseDelimiters | Services/StringCalculator.cs:23-55 | without a complete header, the whole input is split on the configured delimiters, or on `,` and line feed when none are configured |
| StringCalculator.ParseOrZero | Services/StringCalculator.cs:57-59 | every token yields an Int32, and a blank token yields 0 |
| StringCalculator.ParseAll | Services/StringCalculator.cs:57-59 | there is exactly one value per token, in token order, each the token's trimmed parse or 0 |
| StringCalculator.ParseOrZeroFormat | Services/StringCalculator.cs:58 | any Int32 rendering padded with whitespace reads as that Int32 |
| StringCalculator.ParseOrZeroNumeral | Services/StringCalculator.cs:57-59 | a whitespace-padded numeral with an optional sign counts as its value when that is an Int32, and as 0 when it is out of range |
| StringCalculator.MalformedTokenIsZero | Services/StringCalculator.cs:58 | a token whose trimmed text holds a character that can belong to no number counts as 0 |
| StringCalculator.Negatives | Services/StringCalculator.cs:61 | the negatives `Where` keeps are exactly the negative values |
| StringCalculator.Admitted | Services/StringCalculator.cs:68 | the values `Where` keeps for the sum are exactly those not above the maximum |
| StringCalculator.NegativesExactly | Services/StringCalculator.cs:61-62 | the report holds every negative value and nothing else, and it is empty exactly when no value is negative |
| StringCalculator.NegativesAppend | Services/StringCalculator.cs:61 | the negatives are reported in input order |
| StringCalculator.AdmittedNonNegative | Services/StringCalculator.cs:61-68 | once no value is negative, no value that takes part in the sum is negative |
| StringCalculator.AboveMaximumIgnored | Services/StringCalculator.cs:67-68 | a value above the maximum adds nothing to the sum, wherever it stands |
| StringCalculator.UpToMaximumAdded | Services/StringCalculator.cs:67-69 | a value not above the maximum, the maximum itself included, adds exactly itself to the sum |
| StringCalculator.Evaluate | Services/StringCalculator.cs:61-69 | after validation and reduction, a sum is never negative and fits Int32, and a rejection names at least one value and only negative ones |
| StringCalculator.EvaluateOutcome | Services/StringCalculator.cs:61-69 | the values are rejected exactly when one is negative, and the report is exactly the negatives; otherwise the result is the sum of the values not above the maximum, or an overflow exactly when that sum exceeds Int32.MaxValue |
| StringCalculator.Add | Services/StringCalculator.cs:16-70 | a blank input gives 0, a sum is never negative and fits Int32, and a rejection lists only negative values and at least one |
| StringCalculator.AddOutcome | Services/StringCalculator.cs:16-70 | for a non-blank input: the call fails exactly when some value is negative, reporting exactly the negatives; otherwise it returns the sum of the values not above the maximum, or fails with an overflow exactly when that sum exceeds Int32.MaxValue |
| CalculatorScenarios.BlankInputs | StringCalculatorApp.Tests/Services/StringCalculatorTests.cs:21-29 | `""` and `"  "` give 0 |
| CalculatorScenarios.SingleNumber | StringCalculatorApp.Tests/Services/StringCalculatorTests.cs:31-36 | `"20"` gives 20 |
| CalculatorScenarios.TwoNumbers | StringCalculatorApp.Tests/Services/StringCalculatorTests.cs:38-43 | `"1,500"` gives 501 |
| CalculatorScenarios.OneNegative | StringCalculatorApp.Tests/Services/StringCalculatorTests.cs:45-51 | `"4,-3"` is rejected and reports `-3` |
| CalculatorScenarios.AllNegativesInOrder | StringCalculatorApp.Tests/Services/StringCalculatorTests.cs:53-59 | `"1,-2,3,-4"` is rejected and reports `-2, -4` in that order |
| CalculatorScenarios.InvalidNumberIsZero | StringCalculatorApp.Tests/Services/StringCalculatorTests.cs:61-66 | `"5,tytyt"` gives 5 |
| CalculatorScenarios.AboveMaximumIsIgnored | StringCalculatorApp.Tests/Services/StringCalculatorTests.cs:75-80 | `"2,1001,6"` gives 8 |
| CalculatorScenarios.MaximumIsIncluded | StringCalculatorApp.Tests/Services/StringCalculatorTests.cs:82-87 | `"2,1000,6"` gives 1008 |
| CalculatorScenarios.SingleCharacterDelimiter | StringCalculatorApp.Tests/Services/StringCalculatorTests.cs:89-94 | `"//#\n2#5"` gives 7 |
| CalculatorScenarios.MultiCharacterDelimiter | StringCalculatorApp.Tests/Services/StringCalculatorTests.cs:96-101 | `"//[***]\n11***22***33"` gives 66 |
| CalculatorScenarios.DuplicateDelimiter | StringCalculatorApp.Tests/Services/StringCalculatorTests.cs:103-108 | `"//,\n2,ff,100"` gives 102 |
| CalculatorScenarios.OneBracketPairOnly | Services/StringCalculator.cs:33-36 | `//[a][b]` declares the one delimiter `a][b` |
| CalculatorScenarios.UnterminatedHeader | Services/StringCalculator.cs:26-29 | `"//;1;2"` has no line feed, so it is one token that does not parse, and the call gives 0 |
| CalculatorScenarios.FirstListedSeparatorWins | Services/StringCalculator.cs:55 | with `*` listed before `**`, `"1**2"` splits into `1`, an empty token and `2` |
| CalculatorScenarios.UnmatchedSeparatorSkipped | Services/StringCalculator.cs:55 | with `**` listed before `*`, `"1*2"` splits into `1` and `2`: a separator listed first but absent does not block a later one |
| CalculatorScenarios.SeparatorHeadInsideToken | Services/StringCalculator.cs:55 | with `,`, line feed and `***`, `"1*2***3"` splits into `1*2` and `3`: a lone `*` inside a token cuts nothing |

## Left out

- A null input is not representable: Dafny strings are values. The blank check at Services/StringCalculator.cs:18 treats null like the empty string.
- `Program.cs`, the dependency-injection wiring and the `IOptions` lookup are left out. The settings are the `Config` parameter of `Add`.
- The text of the exception messages is left out. A rejection carries the list of negatives, which the message joins with `", "`.
- `StartsWith("//")`, `StartsWith("[")` and `EndsWith("]")` use the current culture in .NET, which can ignore zero-width characters. They are modelled as ordinal comparisons.
- `int.TryParse` is modelled for the invariant culture: `-` and `+` are the only signs.
- Strings are sequences of UTF-16 code units. The model's characters are Unicode scalar values, so unpaired surrogates are not represented.
- `Int32.TryParse`: modelled only for tokens that do not start with whitespace, which is what `Trim` leaves. The .NET parser would also skip leading white characters.
- The twelve-number unit test (StringCalculatorApp.Tests/Services/StringCalculatorTests.cs:68-73) is not worked out as a concrete lemma. Evaluating its literal tokens is beyond what the prover handles cheaply. `StringCalculator.AddOutcome` and the split lemmas cover that input generally.
- Kata features that the code does not implement are not modelled: several bracket groups, longest-match splitting, operations other than the sum, a switch that allows negatives, and a trace text.
