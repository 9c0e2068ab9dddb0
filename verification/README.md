# Roman numeral converter — a Dafny model

This project models the Roman numeral converter of `app.py`: the two constant
tables, the integer-to-numeral conversion `int_to_roman` and the
numeral-to-integer conversion `roman_to_int`, and, as a small pure function,
the form handler `index` that dispatches between them.

- `int_to_roman` walks the 13-row table `ROMAN_MAP` (values 1000 down to 1,
  the seven base symbols interleaved with the subtractive pairs CM, CD, XC,
  XL, IX, IV) greedily: while the remainder is at least a row's value it
  emits the row's symbol and subtracts the value. Inputs outside 1..3999 get
  an error instead of a numeral.
- `roman_to_int` upper-cases its input and scans it left to right. At each
  position it tries a subtractive pair first, then a base symbol from
  `ROMAN_VALUES`. Any other character rejects the string. The total is
  accepted only if `int_to_roman(total)` gives back exactly the upper-cased
  input. That last comparison is what rejects "IIII", "VV", "IC" and the
  empty string.

Layout, one module per file:

- `wrappers.dfy` (`Wrappers`): `Option` and `Result`. They replace the
  source's convention of returning an error message string.
- `numerals.dfy` (`Numerals`): the error kinds and both tables. It also
  holds the recognised subtractive pairs (`PairValue`) and the token view
  of a numeral. A token is an index of a table row (`Row`). `Spell`
  concatenates the rows' symbols and `Total` sums their values.
- `encode.dfy` (`Encode`): the greedy walk `Greedy`, the conversion
  `IntToRoman` and the source's nested loops, `IntToRomanLoop`.
- `decode.dfy` (`Decode`): ASCII upper-casing and the scan `Scan`, written
  as recursion on suffixes. It also holds the conversion `RomanToInt` and
  the source's index loop, `ScanLoop` / `RomanToIntLoop`.
- `positional.dfy` (`Positional`): an independent reference definition of
  the numeral, digit by digit (thousands as M's, then a nine/five/four/one
  pattern per decimal position). It proves the greedy walk produces exactly
  that numeral. The concrete examples rest on this.
- `inverse.dfy` (`Inverse`): the round trip and the exact set of accepted
  strings, plus the worked examples.
- `handler.dfy` (`FormHandler`): the POST branch of `index` as a pure
  function from the submitted fields to the page's result and error slots.

## Model

| member | source | states |
|---|---|---|
| `Numerals.PairValue` | app.py:43-49 | A recognised pair is a smaller base symbol before a larger one and is worth their difference (CM=900, CD=400, XC=90, XL=40, IX=9, IV=4); that no other two characters form a pair is stated by `Numerals.PairsAreRows` |
| `Numerals.PairsAreRows` | app.py:43 | The pairs the scan recognises are exactly the two-character rows of the greedy table |
| `Numerals.TableShape` | app.py:8-13 | The greedy table has 13 rows, strictly descending in value, ending with value 1 |
| `Numerals.EntryMeaning` | app.py:8-19 | Every table row is one or two characters; a one-character row is a base symbol with the same value in the symbol table, a two-character row is a subtractive pair of the row's value |
| `Numerals.NoPairAcross` | app.py:8-13 | A single-symbol row is never followed, in table order, by a row whose first character would form a subtractive pair with it |
| `Numerals.SpellShape` | app.py:27-30 | A spelled token sequence has one or two characters per token, all of them base symbols |
| `Numerals.SpellAppend` | app.py:29 | Appending symbols one by one spells the concatenation of the token sequences |
| `Numerals.SortedPairwise` | app.py:27-30 | Tokens in table order on neighbours are in table order on every pair |
| `Encode.Greedy` | app.py:27-30 | The greedy walk; its meaning is stated by `Encode.GreedyTotal` (the emitted values sum to the input), `Encode.GreedySorted` (rows in table order) and `Positional.GreedyIsPositional` (the digit-by-digit numeral) |
| `Encode.GreedyTotal` | app.py:26-31 | The greedy walk ends with nothing left over: the values of the emitted rows add up to the input |
| `Encode.GreedySorted` | app.py:27-30 | The walk emits rows in table order, never returning to an earlier row |
| `Encode.IntToRoman` | app.py:21-31 | Fails with OutOfRange exactly when the input is outside 1..3999; otherwise the numeral is non-empty and uses only the seven base symbols |
| `Encode.GreedyShape` | app.py:26-31 | For valid input the numeral spells a non-empty token sequence, non-increasing in value, whose values sum to the input |
| `Encode.IntToRomanLoop` | app.py:21-31 | The source's for/while loops compute the same result as the greedy function, error case included |
| `Decode.Upper` | app.py:38 | Upper-casing keeps the length, maps a-z to A-Z and leaves every other character alone |
| `Decode.UpperIdempotent` | app.py:38 | Upper-casing twice is upper-casing once |
| `Decode.Scan` | app.py:41-55 | The left-to-right scan; its meaning is stated by `Decode.ScanFailsExactly` (when it rejects), `Inverse.ScanSpell` (what it reads from a numeral in table order) and `Decode.ScanLoop` (the source's index loop) |
| `Decode.ScanFailsExactly` | app.py:41-55 | The scan rejects a string exactly when some character is not one of I, V, X, L, C, D, M |
| `Decode.RomanToInt` | app.py:33-61 | Any failure is MalformedNumeral; a success is a value in 1..3999 whose numeral is exactly the upper-cased input |
| `Decode.CaseInsensitive` | app.py:38 | A string and its upper-cased form decode to the same result |
| `Decode.ForeignCharRejected` | app.py:51-55 | A character that is not a base symbol after upper-casing makes the conversion fail, wherever it stands |
| `Decode.EmptyRejected` | app.py:39-61 | The empty string is rejected: its total 0 has no numeral |
| `Decode.ScanAt` | app.py:43-55 | One step of the scan at index i: a pair adds its value and moves on by two, a base symbol adds its value and moves on by one, anything else fails |
| `Decode.ScanLoop` | app.py:39-55 | The source's index loop keeps its index within the string and computes the same total, or the same rejection, as the recursive scan |
| `Decode.RomanToIntLoop` | app.py:33-61 | Upper-case, scan, re-encode and compare, as the source runs them, gives the same result as the functional conversion |
| `Positional.GreedyRepeat` | app.py:28-30 | The inner loop emits a row once per whole multiple of its value in what is left |
| `Positional.GreedyDigit` | app.py:27-30 | Over one decimal position the walk emits the digit's rows (nine, five then ones, four, or ones) and moves on to the next position with the lower digits |
| `Positional.GreedyIsPositional` | app.py:21-31 | For 1..3999 the greedy numeral equals the digit-by-digit numeral (M's for thousands, then the pattern of each lower digit) |
| `Inverse.ScanSpell` | app.py:41-53 | A token sequence spelled in table order is read back token by token, so the scan finds exactly its total |
| `Inverse.RoundTrip` | app.py:21-61 | For every n in 1..3999, decoding the numeral of n gives n |
| `Inverse.EncodeAfterDecode` | app.py:57-61 | For a numeral produced by the encoder, encoding its decoded value gives back the same numeral |
| `Inverse.AcceptedExactly` | app.py:57-61 | A string is accepted if and only if, upper-cased, it is the numeral of some integer in 1..3999, and then it decodes to that integer |
| `Inverse.NumeralsDistinct` | app.py:21-31 | Distinct integers in range have distinct numerals |
| `Inverse.ScanRun` | app.py:51-53 | A run of one repeated base symbol is never read as a pair, so the scan adds up every copy |
| `Inverse.NotCanonicalRejected` | app.py:57-61 | A string whose scan total has a numeral other than the upper-cased string is rejected |
| `Inverse.Example1994` | app.py:21-31 | 1994 encodes to MCMXCIV |
| `Inverse.ExampleLower` | app.py:33-61 | "mcmxciv" decodes to 1994 |
| `Inverse.ExampleOutOfRange` | app.py:23-24 | 0, 4000 and -5 have no numeral |
| `Inverse.ExampleFourOnes` | app.py:57-61 | "IIII" scans to 4, whose numeral is IV, so it is rejected |
| `Inverse.ExampleTwoFives` | app.py:57-61 | "VV" scans to 10, whose numeral is X, so it is rejected |
| `Inverse.ExampleOneBeforeHundred` | app.py:43-61 | "IC" is not a subtractive pair; it scans to 101, whose numeral is CI, so it is rejected |
| `FormHandler.Submit` | app.py:64-90 | Exactly one of result and error is set. The error is EmptyInput iff the input is empty, InvalidConversionType iff the selector is unknown, NotAnInteger iff a to_roman input does not parse, OutOfRange iff it parses outside 1..3999. An in-range to_roman input is shown as exactly its numeral, which decodes back to it; a to_int input is shown as its value exactly when it decodes, and otherwise gets MalformedNumeral; a shown number re-encodes to the upper-cased input |

## Left out

- The Flask plumbing of `index` (app.py:64-90): reading the form, the GET request, rendering the template and `app.run`. `FormHandler.Submit` takes the already stripped `input_value` and `convert_type` as parameters and returns which slot of the page is filled.
- Python's `int(input_value)` parsing (app.py:77-80) is a library call. Its outcome is the parameter `parsed` of `FormHandler.Submit`: `None` stands for the `ValueError`.
- The `isinstance` checks (app.py:23, 35): the typed signatures make them vacuous. Python's `bool`-is-`int` quirk is not modelled.
- The error message texts, and the search for "Geçersiz" or "Hata" in the result (app.py:86). Each message becomes a constructor of `Numerals.Error`, and the source's check for error-like text becomes the `Failure` branch of a `Result`. A numeral never contains those words, so nothing is lost. In the same way, the source's comparison of `int_to_roman(total)` with the input is modelled as comparing a `Result` with `Success(u)`. When `total` is out of range the source compares an error message with the input, and that comparison can never succeed, because the upper-cased input cannot equal the mixed-case message.
- Decode.Upper: upper-casing is ASCII only (a-z to A-Z), where Python's `str.upper()` follows the Unicode tables. The one difference that matters here is the Turkish dotless 'ı', which Python maps to 'I'. As a result the source accepts "ıv" as 4, while the model rejects it.
