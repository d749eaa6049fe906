# Open Location Code (Plus Codes) in Dafny

This project models the Plus Codes codec of the live-view repository
(`src/Core/Location/PlusCodes/openlocationcode.cpp` and `codearea.cpp`), a C++
port of Google's Open Location Code. A Plus Code names a latitude/longitude
rectangle. It has up to 15 significant digits from a 20-symbol alphabet:

- five base-20 latitude/longitude pairs;
- then up to five digits that each pick one cell of a 4-column, 5-row grid.

A `+` goes after the eighth character. Codes with fewer than eight digits are
padded with `0` up to the separator.

The model covers:

- the alphabet lookup;
- `Encode` and `Decode`;
- the syntax checks `IsValid`, `IsShort`, `IsFull` and `CodeLength`, with
  `clean_code_chars`;
- `Shorten` and `RecoverNearest`;
- the `CodeArea` value.

The code that changes state step by step is written as methods with the
source's loops. Each method is proved equal to a specification function:

- `Encode` writes into a 15-character `array` buffer and divides the
  fixed-point coordinates in loops. It is proved to return `EncodedLocation`.
- `Decode` runs the source's accumulator loops. It is proved to return
  `DecodedArea`.
- `IsValid` makes the source's checks in the source's order. It is proved to
  decide the grammar `ValidCode`.
- `normalize_longitude` keeps its two loops. It is proved to return
  `NormalizedLongitude`.
- `Shorten` keeps its loop over the removal lengths 8, 6 and 4.
- `RecoverNearest` keeps the source's steps.

The properties are proved about those functions:

- round-trip containment;
- validity and fullness of every encoded code;
- the precision of decoded areas;
- the rejection rules;
- the short/full classification;
- the shortening bands;
- the moves of the recovered centre.

Modules, one per file:

| module | file | contents |
|---|---|---|
| `Arithmetic` | `arithmetic.dfy` | powers, division lemmas, positional digits |
| `Text` | `text.dfy` | `find`, `find_last_of`, erase/remove, `substr`, `toupper` |
| `Symbols` | `symbols.dfy` | constants, alphabet and `get_alphabet_position` |
| `Precision` | `precision.dfy` | `pow_neg`, `compute_precision_for_length`, `adjust_latitude`, `normalize_longitude`, the fixed-point conversion |
| `CodeAreas` | `codearea.dfy` | `CodeArea` and `LatLng` |
| `Validator` | `validator.dfy` | `clean_code_chars`, `IsValid`, `IsShort`, `IsFull`, `CodeLength` |
| `Encoder` | `encoder.dfy` | `Encode` |
| `Decoder` | `decoder.dfy` | `Decode` |
| `RoundTrip` | `roundtrip.dfy` | encode-then-decode lemmas |
| `Shortener` | `shortener.dfy` | `Shorten`, `RecoverNearest` |

Coordinates are Dafny `real`s, so arithmetic is exact. The double-to-`int64`
conversion of `Encode` is truncation toward zero of an exact real
(`TruncateToInt`). After that, the encoder and decoder work on integers, as
the source does.

The model follows the code where the code and the documented format differ:

- **Padding position.** `IsValid` rejects a first padding character at index
  0 or at an odd index, so padding starts at an even index (2, 4 or 6). The
  comment above that check speaks of an "odd position", which holds only when
  positions are counted from one.
- **Padding at the front.** `clean_code_chars` tests the result of `find`
  for truth. Padding at index 0 is therefore not cut off, and "no padding"
  (`npos`) cuts nowhere. `Validator.CleanCode` does the same. No valid code
  has padding at index 0.
- **Valid but neither short nor full.** A valid code can be neither short nor
  full. `"XX000000+"` is valid, but its first digit puts it beyond latitude
  90 (`Validator.ValidButNeitherShortNorFull`).
- **Shorten can return a lone separator.** `Shorten` may drop 8 characters
  from a full code with nothing after its separator. The result is `"+"`,
  which is not a valid code (`Shortener.ShortenedForms`). Every other removal
  leaves a short code.
- **Odd digit counts.** When a code of ten or fewer digits has an odd digit
  count, `Decode`'s pair loop does not read the last digit, but it still
  divides the place value once more. The height is then the precision of
  n + 1 digits, although only n - 1 digits were read
  (`Decoder.DecodedAreaSize`).

## Model

| member | source | states |
|---|---|---|
| Arithmetic.SizeDivModFour | src/Core/Location/PlusCodes/openlocationcode.cpp:331-332 | an int divided by, or taken modulo, the size_t 4 and converted back to int gives the floor quotient and the non-negative remainder, for negative values too |
| Symbols.AlphabetPosition | src/Core/Location/PlusCodes/openlocationcode.cpp:105-114 | the lookup gives -1 or an index into the 20-symbol alphabet |
| Symbols.AlphabetRoundTrip | src/Core/Location/PlusCodes/openlocationcode.cpp:105-114 | the lookup inverts the alphabet: the position of the i-th symbol is i |
| Symbols.TableEntryNamesCharacter | src/Core/Location/PlusCodes/openlocationcode.cpp:44-46 | every table entry that is not -1 is the index of the character 'C' + j it is looked up by |
| Symbols.LowerCaseSamePosition | src/Core/Location/PlusCodes/openlocationcode.cpp:107-110 | a lower-case letter has the same position as its upper case |
| Symbols.PositionIdentifiesSymbol | src/Core/Location/PlusCodes/openlocationcode.cpp:105-114 | a non-negative position names the upper-cased character; -1 is returned exactly for characters whose upper case is not in the alphabet |
| Symbols.SeparatorAndPaddingAreNotSymbols | src/Core/Location/PlusCodes/openlocationcode.cpp:10-12 | '+' and '0' are not alphabet symbols and the lookup rejects both |
| Text.FirstIndex | src/Core/Location/PlusCodes/openlocationcode.cpp:488 | `find`: the index holds the character and no earlier index does |
| Text.FirstIndexAt | src/Core/Location/PlusCodes/openlocationcode.cpp:488 | an occurrence with none before it is what `find` returns |
| Text.IndexOf | src/Core/Location/PlusCodes/openlocationcode.cpp:488-492 | `npos` exactly when the character is absent, otherwise the first index |
| Text.LastIndex | src/Core/Location/PlusCodes/openlocationcode.cpp:494-495 | `find_last_of`: the index holds the character and no later index does |
| Text.LastIndexOf | src/Core/Location/PlusCodes/openlocationcode.cpp:494-495 | `npos` exactly when absent, otherwise the last index |
| Text.RemoveAll | src/Core/Location/PlusCodes/openlocationcode.cpp:170-172 | erase/remove: no occurrence is left, nothing new appears, and the result is empty exactly when every character was removed |
| Text.RemoveAllAppend | src/Core/Location/PlusCodes/openlocationcode.cpp:170-172 | removal distributes over concatenation |
| Text.RemoveAllAbsent | src/Core/Location/PlusCodes/openlocationcode.cpp:170-172 | removing an absent character changes nothing |
| Text.RemoveAllSingle | src/Core/Location/PlusCodes/openlocationcode.cpp:170-172 | removing the only occurrence joins the parts on either side |
| Text.Substring | src/Core/Location/PlusCodes/openlocationcode.cpp:175 | `substr(pos, len)`: the slice from pos of length len, cut at the end of the string |
| Text.Repeat | src/Core/Location/PlusCodes/openlocationcode.cpp:262-264 | n copies of the padding character |
| Text.UpperChar | src/Core/Location/PlusCodes/openlocationcode.cpp:425 | `::toupper` moves 'a'..'z' to 'A'..'Z' and leaves every other character alone |
| Text.ToUpper | src/Core/Location/PlusCodes/openlocationcode.cpp:425 | the transform upper-cases each character in place, keeping the length |
| Precision.PowNeg | src/Core/Location/PlusCodes/openlocationcode.cpp:66-73 | positive; the power for a non-negative exponent, its reciprocal for a negative one |
| Precision.ComputePrecisionForLength | src/Core/Location/PlusCodes/openlocationcode.cpp:87-92 | the precision of a code length is positive |
| Precision.PrecisionValues | src/Core/Location/PlusCodes/openlocationcode.cpp:87-92 | at most 20 degrees from two digits on; 20^(2 - n/2) up to ten digits; 1/(8000 * 5^(n-10)) beyond |
| Precision.AdjustLatitude | src/Core/Location/PlusCodes/openlocationcode.cpp:146-156 | the result is in [-90, 90) for lengths of at least 2; a latitude inside is kept; one below -90 becomes -90; one at or above 90 becomes 90 less half the precision |
| Precision.NormalizedLongitude | src/Core/Location/PlusCodes/openlocationcode.cpp:124-132 | the result is in [-180, 180), differs from the input by whole turns, and equals the input when the input is already in range |
| Precision.TurnsBounds | src/Core/Location/PlusCodes/openlocationcode.cpp:124-132 | subtracting the floored number of turns lands in [-180, 180) |
| Precision.NormalizedLongitudeUnique | src/Core/Location/PlusCodes/openlocationcode.cpp:124-132 | only one value that is a whole number of turns away from the longitude lies in [-180, 180) |
| Precision.NormalizeLongitude | src/Core/Location/PlusCodes/openlocationcode.cpp:124-132 | the two loops end on NormalizedLongitude |
| Precision.TruncateToInt | src/Core/Location/PlusCodes/openlocationcode.cpp:219-224 | for a non-negative value, the conversion to int64 is the floor |
| Precision.LatitudeToFixed | src/Core/Location/PlusCodes/openlocationcode.cpp:219-223 | lat_val is the floor of (latitude + 90) * 25000000, and below 180 * 25000000 when the latitude is in [-90, 90) |
| Precision.LongitudeToFixed | src/Core/Location/PlusCodes/openlocationcode.cpp:221-224 | lng_val is the floor of (longitude + 180) * 8192000, and below 360 * 8192000 when the longitude is in [-180, 180) |
| CodeAreas.CodeArea.GetCenter | src/Core/Location/PlusCodes/codearea.cpp:82-90 | each coordinate is min(midpoint, axis maximum): never above 90 or 180, the midpoint or the maximum, and the exact midpoint inside the bounds when lo <= hi <= maximum |
| CodeAreas.GettersReturnConstructorArguments | src/Core/Location/PlusCodes/codearea.cpp:22-71 | each getter returns the constructor argument in its position |
| Validator.CleanCode | src/Core/Location/PlusCodes/openlocationcode.cpp:168-178 | the code without separators, cut before the first padding unless the padding is at index 0; no separator remains |
| Validator.CodeLength | src/Core/Location/PlusCodes/openlocationcode.cpp:619-622 | the digit count is at most the number of characters other than separators; `Validator.ValidCodeCleansToSymbols` gives its exact value on valid codes |
| Validator.ValidCode | src/Core/Location/PlusCodes/openlocationcode.cpp:484-547 | the grammar the checks decide (`Validator.IsValid`); a valid code has at least three characters, and `Validator.InvalidCodes` shows each rejection rule excludes a code |
| Validator.IsValid | src/Core/Location/PlusCodes/openlocationcode.cpp:484-547 | the checks return true exactly on codes of the ValidCode grammar |
| Validator.PaddingChecksSuffice | src/Core/Location/PlusCodes/openlocationcode.cpp:506-533 | the padding checks passed mean the padding runs from an even non-zero index up to the separator at 8 |
| Validator.ChecksSuffice | src/Core/Location/PlusCodes/openlocationcode.cpp:484-545 | all checks passed mean the code is valid |
| Validator.SeparatorIndex | src/Core/Location/PlusCodes/openlocationcode.cpp:488-505 | a valid code has exactly one separator, at an even index of at most 8 |
| Validator.InvalidCodes | src/Core/Location/PlusCodes/openlocationcode.cpp:484-545 | each rejection rule makes a code invalid: empty, no '+', two '+', only '+', separator past 8 or odd, padding in a short code, first padding at 0 or odd, non-padding after the first padding, anything after '+' in a padded code, one character after '+', an illegal character |
| Validator.StrippedValidCode | src/Core/Location/PlusCodes/openlocationcode.cpp:170-172 | removing the separator of a valid code joins the parts on either side |
| Validator.ValidCodeCleansToSymbols | src/Core/Location/PlusCodes/openlocationcode.cpp:619-622 | a valid code cleans to at least two symbols; CodeLength is the length less one without padding, the first padding index with it |
| Validator.CleanValidCode | src/Core/Location/PlusCodes/openlocationcode.cpp:168-178 | a valid code cleans to the characters around its separator, or with padding to those before the padding |
| Validator.IsShort | src/Core/Location/PlusCodes/openlocationcode.cpp:559-569 | a valid code with its separator before 8; a short code has no padding, and `Validator.ShortCodeFacts` gives its digit count |
| Validator.IsFull | src/Core/Location/PlusCodes/openlocationcode.cpp:583-608 | a valid code that is not short, with first digits below latitude 90 and longitude 180; its separator is at 8, and `Validator.FullCodeFacts` and `Validator.ShortAndFullExclusive` state the rest |
| Validator.ShortCodeFacts | src/Core/Location/PlusCodes/openlocationcode.cpp:559-569 | a short code has no padding and all of its characters but the separator are digits |
| Validator.NotShortSeparatorAtEight | src/Core/Location/PlusCodes/openlocationcode.cpp:559-569 | a valid code that is not short has its separator at 8 |
| Validator.FullCodeFacts | src/Core/Location/PlusCodes/openlocationcode.cpp:583-608 | a full code is valid and not short, has its separator at 8 and first digits below 9 and 18, and has 2, 4, 6, 8 or at least 10 digits |
| Validator.ShortAndFullExclusive | src/Core/Location/PlusCodes/openlocationcode.cpp:583-590 | no code is both short and full |
| Validator.ValidButNeitherShortNorFull | src/Core/Location/PlusCodes/openlocationcode.cpp:583-597 | "XX000000+" is valid, not short and not full |
| Encoder.EffectiveLength | src/Core/Location/PlusCodes/openlocationcode.cpp:198-204 | the length used is legal (2 to 15, even below 10): the least legal length not below the request, or 15 |
| Encoder.EffectiveLengthKeepsLegal | src/Core/Location/PlusCodes/openlocationcode.cpp:198-204 | a legal request is kept |
| Encoder.DigitIndex | src/Core/Location/PlusCodes/openlocationcode.cpp:229-252 | every pair digit and grid index (row * 4 + column) is below 20 |
| Encoder.SignificantDigits | src/Core/Location/PlusCodes/openlocationcode.cpp:226-252 | fifteen digits, each the alphabet symbol of its index |
| Encoder.FormatCode | src/Core/Location/PlusCodes/openlocationcode.cpp:254-266 | n + 1 characters from 8 digits on, 9 below |
| Encoder.GridDigit | src/Core/Location/PlusCodes/openlocationcode.cpp:229-237 | round i of the grid loop writes digit 14 - i: the latitude's base-5 digit times 4 plus the longitude's base-4 digit |
| Encoder.PairDigits | src/Core/Location/PlusCodes/openlocationcode.cpp:239-252 | digit 2j is the j-th base-20 latitude digit and digit 2j + 1 the j-th longitude digit, once the grid part is divided off |
| Encoder.PairLongitudeDigit | src/Core/Location/PlusCodes/openlocationcode.cpp:244-251 | round i of the pair loop writes at index 9 - 2i the i-th lowest longitude digit |
| Encoder.PairLatitudeDigit | src/Core/Location/PlusCodes/openlocationcode.cpp:244-251 | round i of the pair loop writes at index 8 - 2i the i-th lowest latitude digit |
| Encoder.EncodeFixedPoint | src/Core/Location/PlusCodes/openlocationcode.cpp:210-266 | the buffer, the loops, the separator insertion and the padding give EncodedCode |
| Encoder.WriteGridDigits | src/Core/Location/PlusCodes/openlocationcode.cpp:228-237 | fills indices 10 to 14 with the grid digits, leaves 0 to 9 alone, and returns the values divided by 5^5 and 4^5 |
| Encoder.WritePairDigits | src/Core/Location/PlusCodes/openlocationcode.cpp:242-252 | fills indices 0 to 9 with the pair digits and leaves 10 to 14 alone |
| Encoder.InsertSeparator | src/Core/Location/PlusCodes/openlocationcode.cpp:255 | '+' at index 8, the digits before it in place and those after it shifted by one |
| Encoder.AlphabetSymbolsRecognised | src/Core/Location/PlusCodes/openlocationcode.cpp:105-114 | every symbol the encoder writes is recognised at its own index |
| Encoder.FormattedCodeValid | src/Core/Location/PlusCodes/openlocationcode.cpp:254-266 | the laid-out code is valid with its separator at 8; it has padding from index n on below 8 digits, and none otherwise |
| Encoder.FormattedCodeUnpadded | src/Core/Location/PlusCodes/openlocationcode.cpp:258-259 | from eight digits on the code holds no padding |
| Encoder.FormattedCodeSeparator | src/Core/Location/PlusCodes/openlocationcode.cpp:255 | all characters are legal and the only separator is at 8 |
| Encoder.FormattedCodePadding | src/Core/Location/PlusCodes/openlocationcode.cpp:261-266 | below eight digits the padding starts at n and is well placed |
| Encoder.FormattedCodeCleans | src/Core/Location/PlusCodes/openlocationcode.cpp:254-266 | the laid-out code cleans back to its first n digits, so CodeLength is n |
| Encoder.FormattedCodeShape | src/Core/Location/PlusCodes/openlocationcode.cpp:254-266 | one separator at 8, padding in [n, 8), alphabet symbols elsewhere |
| Encoder.EncodedCodeValid | src/Core/Location/PlusCodes/openlocationcode.cpp:197-267 | the encoded code is valid, has n digits and cleans to the first n significant digits |
| Encoder.FirstDigitsInRange | src/Core/Location/PlusCodes/openlocationcode.cpp:219-252 | in-range fixed-point values give a first latitude digit below 9 and a first longitude digit below 18 |
| Encoder.EncodedCodeFull | src/Core/Location/PlusCodes/openlocationcode.cpp:592-605 | in-range fixed-point values encode to a full code |
| Encoder.LatitudeValue | src/Core/Location/PlusCodes/openlocationcode.cpp:206-223 | the clamped fixed-point latitude is below 180 * 25000000 |
| Encoder.LongitudeValue | src/Core/Location/PlusCodes/openlocationcode.cpp:207-224 | the normalised fixed-point longitude is below 360 * 8192000 |
| Encoder.EncodedLocationFull | src/Core/Location/PlusCodes/openlocationcode.cpp:197-267 | Encode always returns a full code with as many digits as the effective length |
| Encoder.EncodedLocationShape | src/Core/Location/PlusCodes/openlocationcode.cpp:254-266 | Encode's output has one separator, at 8, and n + 1 characters (9 below eight digits); positions n to 7 are padding and every other character is a symbol |
| Encoder.EncodedLocation | src/Core/Location/PlusCodes/openlocationcode.cpp:197-267 | what Encode returns, longer than the separator position; `Encoder.EncodedLocationFull` and `Encoder.EncodedLocationShape` prove it full and well formed, `RoundTrip.EncodeDecodeRoundTrip` that it decodes around the location |
| Encoder.Encode | src/Core/Location/PlusCodes/openlocationcode.cpp:197-267 | clamping, adjusting, normalising, fixed-point conversion and the buffer loops give EncodedLocation |
| Encoder.EncodePairs | src/Core/Location/PlusCodes/openlocationcode.cpp:278-280 | the default length is 10: a full code of 11 characters |
| Decoder.DecodedDigits | src/Core/Location/PlusCodes/openlocationcode.cpp:295-299 | the cleaned code cut to min(CodeLength, 15) |
| Decoder.PairCount | src/Core/Location/PlusCodes/openlocationcode.cpp:309-318 | the pair loop reads at most five whole pairs |
| Decoder.GridCount | src/Core/Location/PlusCodes/openlocationcode.cpp:323-329 | the grid loop reads the digits past ten, at most five |
| Decoder.LatitudeColumn | src/Core/Location/PlusCodes/openlocationcode.cpp:313 | one latitude position per pair read |
| Decoder.LongitudeColumn | src/Core/Location/PlusCodes/openlocationcode.cpp:314 | one longitude position per pair read |
| Decoder.GridRowColumn | src/Core/Location/PlusCodes/openlocationcode.cpp:330-331 | one row per grid digit: the position divided by the size_t 4, so a -1 position gives row -1 |
| Decoder.GridColumnColumn | src/Core/Location/PlusCodes/openlocationcode.cpp:330-332 | one column per grid digit: the position modulo the size_t 4, so a -1 position gives column 3 |
| Decoder.IllegalGridDigit | src/Core/Location/PlusCodes/openlocationcode.cpp:330-334 | a grid character outside the alphabet adds row -1 and column 3, as the unsigned division and remainder give |
| Decoder.PairPlaceValue | src/Core/Location/PlusCodes/openlocationcode.cpp:311-318 | the place value the pair loop ends on is positive |
| Decoder.PairColumnsStep | src/Core/Location/PlusCodes/openlocationcode.cpp:312-318 | one more pair adds each digit times 20^(4-m) |
| Decoder.SectionStep | src/Core/Location/PlusCodes/openlocationcode.cpp:313-314 | a digit appended to a section is added at the next place value |
| Decoder.GridColumnsStep | src/Core/Location/PlusCodes/openlocationcode.cpp:329-339 | one more grid digit adds its row times 5^(4-g) and its column times 4^(4-g) |
| Decoder.DecodedArea | src/Core/Location/PlusCodes/openlocationcode.cpp:294-355 | what Decode returns: a box of positive height and width with as many digits as were read; `Decoder.DecodedAreaInUnits` and `Decoder.DecodedAreaSize` give its bounds and height |
| Decoder.Decode | src/Core/Location/PlusCodes/openlocationcode.cpp:294-355 | the accumulator loops give DecodedArea |
| Decoder.DecodePairs | src/Core/Location/PlusCodes/openlocationcode.cpp:302-318 | the pair loop gives the pair sums less the pole and antimeridian offsets, and the place value it ends on |
| Decoder.DecodeGrid | src/Core/Location/PlusCodes/openlocationcode.cpp:323-339 | the grid loop, dividing in size_t as the source does, gives the row and column sums and the place values 5^(5-g) and 4^(5-g) |
| Decoder.ValidCodeDecodable | src/Core/Location/PlusCodes/openlocationcode.cpp:295-312 | a valid code meets Decode's precondition and cleans to symbols only |
| Decoder.DecodedAreaInUnits | src/Core/Location/PlusCodes/openlocationcode.cpp:344-349 | the bounds are integer counts of the smallest grid cell over 25000000 and 8192000 |
| Decoder.DecodedAreaSides | src/Core/Location/PlusCodes/openlocationcode.cpp:320-354 | the sides of the area are the two precisions |
| Decoder.DecodedAreaSize | src/Core/Location/PlusCodes/openlocationcode.cpp:320-343 | the height is the precision of n digits (of n + 1 for an odd n of at most ten); past ten digits the width is 1/(8000 * 4^(n-10)) |
| Decoder.PrecisionOfDigits | src/Core/Location/PlusCodes/openlocationcode.cpp:320-342 | the two precisions against compute_precision_for_length |
| Decoder.PairCellPrecision | src/Core/Location/PlusCodes/openlocationcode.cpp:320-321 | pv / 8000 is the precision of the even digit count |
| Decoder.GridCellPrecision | src/Core/Location/PlusCodes/openlocationcode.cpp:341-342 | row_pv / 25000000 is the precision of the length; col_pv / 8192000 is 1/(8000 * 4^g) |
| Decoder.GridRowPrecision | src/Core/Location/PlusCodes/openlocationcode.cpp:341 | row_pv / 25000000 is the precision of the length |
| Decoder.GridColumnPrecision | src/Core/Location/PlusCodes/openlocationcode.cpp:342 | col_pv / 8192000 is 1/(8000 * 4^g) |
| RoundTrip.PairSection | src/Core/Location/PlusCodes/openlocationcode.cpp:312-318 | m pair digits, read back, round a value down to a multiple of 20^(5-m) within one cell |
| RoundTrip.GridSection | src/Core/Location/PlusCodes/openlocationcode.cpp:329-339 | g grid digits, read back, round a value down to a multiple of b^(5-g), less its part above b^5 |
| RoundTrip.AxisContainment | src/Core/Location/PlusCodes/openlocationcode.cpp:302-349 | on one axis the decoded lower bound is the value rounded down to a whole number of cells, so the value is within lower bound + cell |
| RoundTrip.PairAxisContainment | src/Core/Location/PlusCodes/openlocationcode.cpp:302-321 | the same when only pairs are read |
| RoundTrip.GridAxisContainment | src/Core/Location/PlusCodes/openlocationcode.cpp:323-349 | the same when grid digits are read |
| RoundTrip.EncodedGridDigit | src/Core/Location/PlusCodes/openlocationcode.cpp:330-332 | dividing a written grid index by 4 gives back the latitude digit, and the remainder gives the longitude digit |
| RoundTrip.EncodedSymbol | src/Core/Location/PlusCodes/openlocationcode.cpp:313-314 | the decoder's lookup gives back the index the encoder wrote |
| RoundTrip.EncodedColumns | src/Core/Location/PlusCodes/openlocationcode.cpp:302-339 | the columns the decoder reads are the leading digits the encoder wrote |
| RoundTrip.EncodedPairColumns | src/Core/Location/PlusCodes/openlocationcode.cpp:244-252 | the pair columns are the leading base-20 digits |
| RoundTrip.EncodedGridColumns | src/Core/Location/PlusCodes/openlocationcode.cpp:229-237 | the grid rows and columns are the leading base-5 and base-4 digits |
| RoundTrip.LatitudeCellsTile | src/Core/Location/PlusCodes/openlocationcode.cpp:302-347 | every latitude cell size, pairs or grid, divides the 180 degrees between the poles |
| RoundTrip.LongitudeCellsTile | src/Core/Location/PlusCodes/openlocationcode.cpp:304-349 | every longitude cell size divides the 360 degrees of a turn |
| RoundTrip.LatitudeContainment | src/Core/Location/PlusCodes/openlocationcode.cpp:302-347 | the decoded latitude cell of an encoded code holds the fixed-point latitude and lies between the poles |
| RoundTrip.LongitudeContainment | src/Core/Location/PlusCodes/openlocationcode.cpp:304-349 | the decoded longitude cell of an encoded code holds the fixed-point longitude and lies within one turn from the antimeridian |
| RoundTrip.EncodeDecodeUnits | src/Core/Location/PlusCodes/openlocationcode.cpp:294-349 | decoding an encoded code reads its first n digits and gives a lower bound <= value < lower bound + cell on each axis, with the cell inside the globe |
| RoundTrip.LegalLengthCounts | src/Core/Location/PlusCodes/openlocationcode.cpp:309-329 | a legal length reads one to five pairs, and all five before any grid digit |
| RoundTrip.EvenPairCells | src/Core/Location/PlusCodes/openlocationcode.cpp:315-321 | for an even count the final pv is the place value of the last pair read |
| RoundTrip.EncodeDecodeRoundTrip | src/Core/Location/PlusCodes/openlocationcode.cpp:197-355 | Decode(Encode(location, len)) has the effective length, contains the clamped and normalised location, and is as high as the precision of that length |
| RoundTrip.EncodedAreaWithinGlobe | src/Core/Location/PlusCodes/openlocationcode.cpp:146-157 | the area Decode gives for any code Encode returns lies within latitude -90..90 and longitude -180..180; at the north pole this is what the half-precision step of adjust_latitude secures |
| Shortener.Abs | src/Core/Location/PlusCodes/openlocationcode.cpp:387-388 | `fabs`: non-negative, the value or its negation |
| Shortener.ShortenRange | src/Core/Location/PlusCodes/openlocationcode.cpp:380-388 | the range is the larger of the two axis distances from the code's centre to the adjusted reference |
| Shortener.FirstRemoval | src/Core/Location/PlusCodes/openlocationcode.cpp:390-402 | the removal chosen is one of the lengths tried, or none |
| Shortener.RemovalBands | src/Core/Location/PlusCodes/openlocationcode.cpp:390-402 | 8 below 0.00075 degrees, 6 below 0.015, 4 below 0.3, otherwise nothing; the longest removal whose threshold is met |
| Shortener.Shorten | src/Core/Location/PlusCodes/openlocationcode.cpp:373-404 | a code that is not full, or that is padded, is returned unchanged; otherwise the code less its first FirstRemoval characters |
| Shortener.ShortenedForms | src/Core/Location/PlusCodes/openlocationcode.cpp:398-400 | a removal leaves a short code with k fewer digits, except a lone '+' when 8 are dropped from a code with nothing after its separator |
| Shortener.SuffixValid | src/Core/Location/PlusCodes/openlocationcode.cpp:399 | dropping an even k <= 8 digits from a valid unpadded code leaves a valid code whose separator is k places earlier |
| Shortener.PaddingLength | src/Core/Location/PlusCodes/openlocationcode.cpp:433-434 | a short code lacks 2, 4, 6 or 8 digits: 8 less its separator index |
| Shortener.Resolution | src/Core/Location/PlusCodes/openlocationcode.cpp:436-437 | the resolution of the padded area is positive |
| Shortener.LeadingSymbolDecodable | src/Core/Location/PlusCodes/openlocationcode.cpp:443-445 | a code starting with a symbol can be decoded |
| Shortener.PaddedCode | src/Core/Location/PlusCodes/openlocationcode.cpp:440-445 | the padded code is the reference's first p characters followed by the short code, and it can be decoded |
| Shortener.PaddingPrefix | src/Core/Location/PlusCodes/openlocationcode.cpp:442-445 | the code built from the encoded reference is the padded code |
| Shortener.DecodePadded | src/Core/Location/PlusCodes/openlocationcode.cpp:440-445 | encoding the reference, prefixing and decoding give the area of the padded code |
| Shortener.NearestCenter | src/Core/Location/PlusCodes/openlocationcode.cpp:449-468 | each coordinate of the centre moves by at most one resolution; `Shortener.NearestCenterMoves` states the direction and the pole guard |
| Shortener.MoveTowardsReference | src/Core/Location/PlusCodes/openlocationcode.cpp:449-468 | the shifts give NearestCenter |
| Shortener.NearestCenterMoves | src/Core/Location/PlusCodes/openlocationcode.cpp:446-467 | each coordinate moves by one cell or not at all, only towards the reference; latitude stays strictly between the poles; longitude moves exactly when it is more than half a cell away |
| Shortener.RecoveredCode | src/Core/Location/PlusCodes/openlocationcode.cpp:421-470 | what RecoverNearest returns; a code that is not short keeps its length, and `Shortener.RecoveredCodeLength` shows a recovered short code is full |
| Shortener.RecoverySteps | src/Core/Location/PlusCodes/openlocationcode.cpp:428-469 | the values RecoverNearest computes step by step are those of RecoveredCode |
| Shortener.RecoverNearest | src/Core/Location/PlusCodes/openlocationcode.cpp:421-470 | a code that is not short comes back upper-cased; a short one is Encode of the moved centre at CodeLength + padding length |
| Shortener.RecoveredCodeLength | src/Core/Location/PlusCodes/openlocationcode.cpp:469 | a recovered code is full, with the short code's digits plus the missing ones, at most 15 |
| Shortener.RecoveryLengthAnyCenter | src/Core/Location/PlusCodes/openlocationcode.cpp:469 | the same for whatever centre is encoded |
| Shortener.RecoveredAreaContainsCenter | src/Core/Location/PlusCodes/openlocationcode.cpp:468-469 | decoding the recovered code gives an area that holds the chosen centre, clamped and normalised |

## Left out

- Decode's rounding of the bounds to 14 decimal places (openlocationcode.cpp:351-354) is not modelled. `DecodedArea` gives the exact bounds.
- IEEE doubles are modelled as exact reals, so floating-point rounding is not captured. This covers the constants the source derives with `log`, `pow` and `floor` (openlocationcode.cpp:24-35); `kInitialExponent` and `kGridSizeDegrees` are unused and left out. NaN and infinite coordinates are also left out.
- Precision.NormalizeLongitude: terminates for every real input, while over doubles the source's loops never end once the longitude is so large that adding or subtracting 360 leaves it unchanged (magnitudes above 2^62, about 4.6e18 degrees). Exact reals cannot show that hang.
- Encode's double-to-`int64` conversion is truncation of an exact real. The clamped values cannot overflow `int64`, so that overflow is not modelled.
- `lat_val /= pow(5, 5)` and `lng_val /= pow(4, 5)` (openlocationcode.cpp:239-240) divide in double and convert back. They are modelled as integer division, which gives the same value at these magnitudes.
- Decoder.Decode: requires a non-empty cleaned code. On an empty one, the source's `size_t` expression `digits - 1` wraps around and the loop reads past the string. A character outside the alphabet is summed as -1 by the pair loop. In the grid loop the division and remainder by the `size_t` `kGridColumns` turn it into row -1 and column 3 (`Decoder.IllegalGridDigit`). This takes `size_t` as 64 bits and `int` as 32 bits, with the conversion back to `int` keeping the low 32 bits.
- `IsShort`, `IsFull` and `ValidCode` are predicates. `CodeLength` is the length of `CleanCode` for every string, valid or not. The `size_t` wrap of a -1 lookup in `IsFull` is modelled as failing the bound check, which is what the wrap does.
- A Dafny `char` stands for one byte of the source's `std::string`, and the model only gives meaning to ASCII. For other input, `size()` counts UTF-8 bytes, so lengths and `CodeLength` can differ, and `::toupper` on a negative `char` is undefined behaviour in the source.
- Shortener.Shorten, Shortener.RecoverNearest: that RecoverNearest undoes Shorten for a nearby reference is not proved; the model stops at each side's own behaviour (`Shortener.RemovalBands`, `Shortener.ShortenedForms`, `Shortener.NearestCenterMoves`, `Shortener.RecoveredCodeLength`). The inverse does not hold for every input. A lower-case full code keeps its case through Shorten, but RecoverNearest upper-cases it. When Shorten returns a lone "+", that is not a short code, so RecoverNearest hands it back upper-cased as "+".
- `Geolocation.cpp`, the database layer, the models, the application entry point and the tests are not part of this model.
- The `CodeArea` getters and the constructor have no contracts. As a datatype, `CodeArea` cannot change after it is built; `CodeAreas.GettersReturnConstructorArguments` states what the getters return.
