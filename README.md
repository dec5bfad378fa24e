# Thousand separators for large numbers in markdown text

`scripts/format-numbers.js` rewrites gas-benchmark reports so that large
numbers read more easily. For each report it reads the text,
runs

    content.replace(/\b\d{5,}\b/g, m => numberFormatter.format(Number.parseInt(m)))

with `numberFormatter = new Intl.NumberFormat("en-US")`, and writes the result
back. This project models that text transformation in Dafny and proves what it
does to a string. The file I/O around it is not modelled.

The model is built from these modules, one file each:

- `CharClasses` (`chars.dfy`): `\d` is `[0-9]` and `\w` is `[A-Za-z0-9_]`, ASCII
  only, because the pattern has neither the `u` nor the `i` flag.
- `Decimal` (`decimal.dfy`) models `Number.parseInt` on a non-empty digit string.
  It reads the digits as a base-10 numeral, leading zeros included, in exact
  arithmetic. `DecimalString` is the canonical numeral that the parse inverts.
- `UsGrouping` (`grouping.dfy`) models `GroupDigits(n)`, the en-US rendering of
  a non-negative integer, together with its shape.
- `NumberPattern` (`pattern.dfy`) tries the pattern at one position the way a
  backtracking matcher does. `\b` is checked first. Then `\d{5,}` takes the
  whole digit run. Then the second `\b` is tried, giving back one digit at a
  time while five remain.
- `Format` (`format.dfy`) defines `FormatNumbers(s)` as the global replace in
  the order the engine runs it. Where the pattern matches, the match is
  replaced and the scan resumes after it. Elsewhere one character is copied. It
  also gives `FormatTokens`, the same transformation stated on tokens: a token
  is a maximal run of word characters (`Tokens`, `tokens.dfy`) or a single
  non-word character.
- `FormatProperties` and `FormatExamples` (`properties.dfy`, `examples.dfy`)
  hold the properties and the worked inputs.

The central facts are these:

- A match is exactly a maximal word that is all digits and at least five long
  (`MatchEndIsNumberSpan`). Greedy `\d{5,}` followed by `\b` can never stop
  inside a digit run.
- The replace therefore equals the token view (`FormatNumbersByTokens`).
- The grouped rendering is the unique string of the en-US shape whose digits
  are those of `n` (`GroupDigits`, `GroupDigitsUnique`).
- Formatting is idempotent (`FormatNumbersIdempotent`).

A digit run glued to a letter or an underscore, as in `0x12345`, `v12345` or
`_12345`, is never rewritten. `\b` does not hold between two word characters.
The model follows the code on this point (`HexLiteralExample`).

## Model

| member | source | states |
|---|---|---|
| `Format.FormatNumbers` | scripts/format-numbers.js:20-22 | The replaced text: the global replace run over the whole string. What it computes is stated by `FormatNumbersByTokens` and the lemmas below. |
| `Format.ReplaceFrom` | scripts/format-numbers.js:20-22 | The global replace from position p on. A match at p is replaced and the scan resumes at its end. Otherwise the character at p is copied. `\b` sees the characters before p. |
| `Decimal.ParseInt` | scripts/format-numbers.js:21 | `Number.parseInt` of a matched string: reads a non-empty string of ASCII digits as an exact base-10 value, leading zeros included. Its properties are stated by `ParseIntBounds`, `ParseDecimalString`, `DecimalStringOfParse` and `ParseIntLeadingZeros`. |
| `Decimal.ParseIntBounds` | scripts/format-numbers.js:21 | A numeral of k digits parses to less than 10^k, and to at least 10^(k-1) when it does not start with '0'. |
| `Format.Replacement` | scripts/format-numbers.js:20-22 | The replacement callback: the match parsed by `Number.parseInt`, then rendered by the en-US formatter. What its result is, is stated by `ReplacementKeepsValue`. |
| `Format.ReplacementKeepsValue` | scripts/format-numbers.js:20-22 | The replacement has the en-US shape, and its digits, commas removed, parse back to the value of the match. |
| `UsGrouping.GroupDigits` | scripts/format-numbers.js:8 | The en-US grouping of n has the en-US shape (`IsUsGrouped`). It starts with '0' exactly when n = 0. Deleting its commas gives the canonical decimal numeral of n. |
| `UsGrouping.GroupDigitsUnique` | scripts/format-numbers.js:8 | Any string with the en-US shape whose digits, commas removed, are the canonical numeral of n equals GroupDigits(n). Shape plus digits determine the rendering. |
| `UsGrouping.GroupDigitsRoundTrip` | scripts/format-numbers.js:21 | Parsing the grouped form with its commas removed gives back n. |
| `Decimal.DecimalStringIsCanonical` | scripts/format-numbers.js:21 | The canonical numeral of n is non-empty digits with no leading zero unless it is "0", and it starts with '0' only for n = 0. |
| `Decimal.ParseDecimalString` | scripts/format-numbers.js:21 | `Number.parseInt` of the canonical numeral of n is n. |
| `Decimal.DecimalStringOfParse` | scripts/format-numbers.js:21 | Rendering the parsed value of a canonical numeral gives the same numeral back. |
| `Decimal.ParseIntLeadingZeros` | scripts/format-numbers.js:21 | Leading zeros do not change the value `Number.parseInt` gives. |
| `NumberPattern.DigitRunEnd` | scripts/format-numbers.js:20 | The greedy `\d{5,}` first stops at the first non-digit at or after i. Every position before it holds a digit. |
| `NumberPattern.Backtrack` | scripts/format-numbers.js:20 | Backtracking the closing `\b` gives the last boundary in [i + 5, e] if there is one. No position after it up to e is a boundary. If there is none, no position in that range is a boundary. |
| `NumberPattern.MatchEnd` | scripts/format-numbers.js:20 | A match that starts at i spans at least five characters and stays within s, and all of them are digits. |
| `NumberPattern.MatchEndIsNumberSpan` | scripts/format-numbers.js:20 | The pattern matches s[i..e] if and only if s[i..e] is all digits, at least five long, and has a non-word character or an end of s on each side. |
| `Tokens.TokenizeSound` | scripts/format-numbers.js:20 | Tokenizing loses nothing. Each word is a non-empty run of word characters, each other token is a non-word character, and no word directly follows a word. |
| `Tokens.TokenizeFlatten` | scripts/format-numbers.js:20 | Every well-formed token sequence is the tokenization of its own text, so the tokenization is unique. |
| `Tokens.TokenizeSplit` | scripts/format-numbers.js:20 | A non-word character splits the tokenization: the two sides are tokenized apart. |
| `Format.FormatNumbersByTokens` | scripts/format-numbers.js:20-22 | The replace rewrites every maximal all-digit word of length at least five into GroupDigits(ParseInt(word)) and copies every other token unchanged. |
| `Format.FormatNumbersSplit` | scripts/format-numbers.js:20 | A non-word character is kept in place, and the text on each side of it is formatted independently. |
| `Format.FormatNumbersWord` | scripts/format-numbers.js:20 | A string made only of word characters is one token: it is rewritten whole or left alone. |
| `FormatProperties.ShortRunUnchanged` | scripts/format-numbers.js:19-20 | A run of one to four digits is left unchanged. |
| `FormatProperties.LongRunGrouped` | scripts/format-numbers.js:19-21 | A standalone run of five or more digits becomes the grouped rendering of its value. |
| `FormatProperties.MixedWordUnchanged` | scripts/format-numbers.js:20 | A word that holds a letter or `_` is left unchanged, even when it contains five or more digits. |
| `FormatProperties.LeadingZerosDropped` | scripts/format-numbers.js:21 | A zero-padded run of five or more characters is rendered from the value of its digits, so the padding disappears. |
| `FormatProperties.NumberInPlace` | scripts/format-numbers.js:20-21 | A number between two non-word characters is replaced in place. The characters around it are kept, and the text on each side is formatted by itself. |
| `FormatProperties.RewriteKeepsValue` | scripts/format-numbers.js:21 | Rewriting a digit word keeps its value: with commas removed, the output still consists of digits and parses to the same integer. |
| `FormatProperties.NoNumberWordUnchanged` | scripts/format-numbers.js:20 | Text with no all-digit word of five or more digits is returned unchanged. |
| `FormatProperties.GroupedIsFixed` | scripts/format-numbers.js:20-21 | A grouped rendering is not changed by a second pass. |
| `FormatProperties.FormatNumbersIdempotent` | scripts/format-numbers.js:20-22 | Formatting the formatted text changes nothing. |
| `FormatExamples.FourDigitsExample` | scripts/format-numbers.js:19-20 | "1234" is left as it is. |
| `FormatExamples.FiveDigitsExample` | scripts/format-numbers.js:19-21 | "12345" becomes "12,345". |
| `FormatExamples.LetterBeforeExample` | scripts/format-numbers.js:20 | "v12345" is left as it is. |
| `FormatExamples.LettersAfterExample` | scripts/format-numbers.js:20 | "12345px" is left as it is. |
| `FormatExamples.UnderscoreBeforeExample` | scripts/format-numbers.js:20 | "_12345" is left as it is. |
| `FormatExamples.HexLiteralExample` | scripts/format-numbers.js:20 | "0x12345" is left as it is. |
| `FormatExamples.PaddedNumberExample` | scripts/format-numbers.js:21 | "000012345" becomes "12,345". |
| `FormatExamples.ZerosExample` | scripts/format-numbers.js:21 | "00000" becomes "0". |

## Left out

- Reading and writing the report files (scripts/format-numbers.js:16, 25) is file I/O. The model is the string transformation between the two steps. Decoding the file as UTF-8 is left out as well.
- The five top-level calls of `format` (scripts/format-numbers.js:28-32) are left out. They are started without `await`, so they run concurrently, and a missing file ends in an unhandled rejection. This is I/O and concurrency.
- Decimal.ParseInt: it is exact. `Number.parseInt` returns the nearest double, so the model agrees with the script whenever every matched value is at most 2^53 (more generally, whenever the value is exactly a double, such as 10^20, since `Intl.NumberFormat` prints a double's exact value). Other values are rounded to the nearest double before grouping, and values beyond the largest double become `Infinity`, which `Intl.NumberFormat` renders as "∞".
- Decimal.ParseInt: it requires a non-empty string of ASCII digits. Every match is such a string; `Number.parseInt("")` (NaN) cannot arise.
- UsGrouping.GroupDigits: it covers only en-US grouping of non-negative integers, the only values the pattern can produce. Other locales, signs, fractions and the rest of `Intl.NumberFormat` are not modelled.
- JavaScript strings are sequences of UTF-16 code units, while a Dafny string is a sequence of Unicode scalar values. This changes nothing here: a surrogate is never a word character, so `\b` gives the same answer either way.
- The threshold is the constant `NumberPattern.MinDigits` = 5, as in this script. Variants with a threshold of four digits, or with per-file error handling, are not part of this model.
