# Code 39 encoder of BarcodeSelected

BarcodeSelected is a user script that turns the text the user highlights
into a Code 39 barcode. Its core is the function `Code39(strDataToEncode,
blnAddCheckDigit)`, which takes the text and returns a string of units. Each
unit is a narrow bar (`1`) or a narrow space (`0`). The function works in
these steps:

- It normalises the text. Spaces become `_`, asterisks (the start/stop
  character) are removed, and the text is upper-cased.
- It checks each character against the validation class: letters, digits and
  `- . _ $ / + %`. At the first character outside the class it gives up and
  returns the empty string.
- It maps each character to its index in the 43-entry character table. The
  symbols take 36..42, digits their value, and letters their character code
  minus 55.
- It appends that index's nine-bit pattern (`1` wide, `0` narrow) and adds
  the index to the modulo-43 check digit.
- If the caller asks for it, the check digit's pattern follows the data.
- The guard `010010100` is added at both ends.
- Every group of nine bits is expanded. Even positions are bars and odd
  positions are spaces; a wide element is three units and a narrow one is a
  single unit. One narrow space (the inter-character gap) follows each group.

The model keeps the function's imperative shape, and each part is proved
against a pure specification:

- `Normalization.NormalizeInput` runs the two `indexOf`/`replace` loops and
  the upper-casing.
- `Code39.ScanData` is the validating and summing loop.
- `Code39.Code39` adds the check digit and the guards.
- `Expansion.ExpandUnits` holds the nested expansion loops.

These methods are proved equal to the functions `Normalize`, `Concat` of
`DataPatterns`, `Framed` and `Expand`. The whole encoder is proved equal to
the function `Code39.Encode`, which returns `None` where the script returns
`""`. On top of that, lemmas state:

- validation, both at the character level and against the raw input;
- the layout of the bits and of the units (guards, one group per character,
  the check digit);
- 16 units per character;
- the guard's fixed units;
- a left inverse of the expansion, so no two bit strings expand alike;
- idempotence of normalisation.

Files:

- `wrappers.dfy`: `Option`.
- `charset.dfy`: character classes, indices, the pattern table.
- `normalize.dfy`: normalisation.
- `expand.dfy`: expansion into units and its inverse.
- `frame.dfy`: groups between guards, for any list of three-of-nine groups.
- `encoder.dfy`: the encoder.

Only U+0020 becomes `_` (`indexOf(" ")`, line 72). Any other whitespace
character (tab, newline, U+00A0) fails the test at line 83, and so does
`Code39.Encode` (see `Code39.EncodeFailsOnRawInput`).

## Model

| member | source | states |
|---|---|---|
| CharSet.DigitValue | old-tools/barcodeselected.user.js:97 | `eval` of a digit character gives the digit v < 10 whose numeral is that character |
| CharSet.MatchesAllowed | old-tools/barcodeselected.user.js:18 | definition: the class of the validation expression tested at line 83; once the string literal's escapes collapse (`\-`, `\$`, `\/`, `\%` are the plain characters) it holds a-z, A-Z, 0-9 and `- . _ $ / + %` |
| CharSet.CharIndex | old-tools/barcodeselected.user.js:89-99 | the switch maps every encodable character to an index below 43, and the character table's alphabet holds that character at that index |
| CharSet.CharIndexBlocks | old-tools/barcodeselected.user.js:89-99 | the index is below 10 exactly for digits, in 10..35 exactly for upper-case letters (and then equals the character code minus 55), in 36..42 exactly for the seven symbols |
| CharSet.AlphabetRoundTrip | old-tools/barcodeselected.user.js:22-67 | every table index 0..42 is the index of exactly one encodable character, so the switch is a bijection onto the table |
| CharSet.Code39CharsAreAlphabet | old-tools/barcodeselected.user.js:18 | a character is encodable exactly when it is one of the 43 characters of the table's alphabet |
| CharSet.Patterns | old-tools/barcodeselected.user.js:23-67 | the 43 patterns in index order, entry for entry |
| CharSet.Guard | old-tools/barcodeselected.user.js:19 | the start/stop pattern `010010100` |
| CharSet.PatternsAreThreeOfNine | old-tools/barcodeselected.user.js:10-67 | the table has exactly 43 entries; each entry, and the guard, is nine bits with exactly three wide elements |
| CharSet.Pattern | old-tools/barcodeselected.user.js:101 | a lookup in the table at a valid index is a three-of-nine pattern |
| Normalization.IndexOf | old-tools/barcodeselected.user.js:72-73 | `indexOf` is -1 exactly when the character is absent, and otherwise the position of its first occurrence |
| Normalization.ReplaceFirst | old-tools/barcodeselected.user.js:72-73 | `replace` with a string pattern leaves text without the character unchanged; otherwise the first occurrence becomes the replacement, the text before and after it is kept, and the length changes accordingly |
| Normalization.ReplaceSpaces | old-tools/barcodeselected.user.js:72 | definition: every space replaced in place by `_`, every other character kept at its position |
| Normalization.RemoveStars | old-tools/barcodeselected.user.js:73 | definition: the text with its asterisks dropped and the other characters kept in order |
| Normalization.ToUpper | old-tools/barcodeselected.user.js:74 | definition: each ASCII lower-case letter replaced by its capital, everything else kept |
| Normalization.Normalize | old-tools/barcodeselected.user.js:72-74 | definition: the three steps in the script's order, spaces first, then asterisks, then upper-casing |
| Normalization.ReplaceSpaceStep | old-tools/barcodeselected.user.js:72 | one pass of the space loop keeps the fully replaced text the same and removes one space, so the loop terminates |
| Normalization.RemoveStarStep | old-tools/barcodeselected.user.js:73 | one pass of the asterisk loop keeps the asterisk-free text the same |
| Normalization.ReplaceAllSpaces | old-tools/barcodeselected.user.js:72 | the space loop ends with every space replaced by `_` and every other character in place |
| Normalization.RemoveAllStars | old-tools/barcodeselected.user.js:73 | the asterisk loop ends with every asterisk removed and the other characters kept in order |
| Normalization.NormalizeInput | old-tools/barcodeselected.user.js:72-74 | the three normalising statements compute `Normalize` of the input |
| Normalization.RemoveStarsLength | old-tools/barcodeselected.user.js:73 | removing asterisks shortens the text by exactly its number of asterisks |
| Normalization.RemoveStarsMembers | old-tools/barcodeselected.user.js:73 | a character survives asterisk removal exactly when it occurs in the text and is not an asterisk |
| Normalization.NormalizeShape | old-tools/barcodeselected.user.js:72-74 | normalised text holds no space, no asterisk and no lower-case letter, and is shorter than the input by exactly its asterisks |
| Normalization.NormalizePerCharacter | old-tools/barcodeselected.user.js:72-74 | the three whole-text steps equal the character-by-character reference: an asterisk gives nothing, any other character its own normalised form, in order |
| Normalization.NormalizeIdempotent | old-tools/barcodeselected.user.js:72-74 | normalising normalised text changes nothing |
| Expansion.Element | old-tools/barcodeselected.user.js:124-128 | a wide element (`1`) is three units and a narrow one a single unit |
| Expansion.ElementColour | old-tools/barcodeselected.user.js:124-128 | every unit of the element at an even position is a bar (`1`) and at an odd position a space (`0`) |
| Expansion.Gap | old-tools/barcodeselected.user.js:20 | the one narrow space `0` appended after each group |
| Expansion.ExpandGroup | old-tools/barcodeselected.user.js:118-130 | definition: the nine elements of a group in order, then the one-unit gap |
| Expansion.Expand | old-tools/barcodeselected.user.js:117-131 | definition: the bits taken nine at a time from the front, each group expanded in turn |
| Expansion.ExpandUnits | old-tools/barcodeselected.user.js:117-131 | the nested loops produce `Expand` of the bits: each group's elements in order, then the gap |
| Expansion.ExpandGroupLength | old-tools/barcodeselected.user.js:117-131 | a group expands to 10 units plus two per wide element, so 16 for a three-of-nine pattern |
| Expansion.ExpandGuard | old-tools/barcodeselected.user.js:19-20 | the guard expands to the units `1000101110111010` |
| Expansion.ExpandAppend | old-tools/barcodeselected.user.js:117-131 | expanding whole groups one after another expands each part in turn |
| Expansion.ExpandFramed | old-tools/barcodeselected.user.js:108 | bits framed by the guard expand to the guard units, the expanded bits, the guard units |
| Expansion.CollapseExpand | old-tools/barcodeselected.user.js:117-131 | reading the units back (three of a colour wide, one narrow, then a gap) recovers the bits exactly |
| Expansion.ExpandInjective | old-tools/barcodeselected.user.js:117-131 | two different bit strings never expand to the same units |
| Framing.ConcatSnoc | old-tools/barcodeselected.user.js:101 | appending one more pattern appends its nine bits |
| Framing.Concat | old-tools/barcodeselected.user.js:101 | the patterns written one after another in order; nine bits per pattern |
| Framing.Framed | old-tools/barcodeselected.user.js:108 | the patterns between two copies of the guard; 9(N+2) bits, a whole number of groups |
| Framing.ConcatGroups | old-tools/barcodeselected.user.js:101 | bits 9k..9k+9 of the appended patterns are pattern k |
| Framing.ExpandConcat | old-tools/barcodeselected.user.js:117-131 | the appended patterns expand to 16 units each, units 16k..16k+16 being the expansion of pattern k |
| Framing.FramedLayout | old-tools/barcodeselected.user.js:108 | the framed bits are the guard, pattern k at bits 9(k+1)..9(k+2), then the guard |
| Framing.FramedUnits | old-tools/barcodeselected.user.js:108-131 | the framed bits expand to 16 units per group and begin and end with the guard units |
| Framing.FramedUnitGroups | old-tools/barcodeselected.user.js:108-131 | units 16(k+1)..16(k+2) of the expansion are the expansion of pattern k |
| Code39.CheckDigit | old-tools/barcodeselected.user.js:100-104 | the sum of the indices modulo 43 is always a valid table index |
| Code39.SumIndices | old-tools/barcodeselected.user.js:100 | the sum of the indices of the characters, in order; at most 42 per character |
| Code39.DataPatterns | old-tools/barcodeselected.user.js:101 | one three-of-nine pattern per data character |
| Code39.Groups | old-tools/barcodeselected.user.js:101-106 | one pattern per data character, plus one for the check digit when requested |
| Code39.Encode | old-tools/barcodeselected.user.js:9-133 | definition of the whole encoder: `None` when a normalised character has no pattern, otherwise the expansion of the framed groups |
| Code39.LegacyString | old-tools/barcodeselected.user.js:85 | definition: the script's way of reporting the outcome, the units on success and `""` on failure |
| Code39.PrefixStep | old-tools/barcodeselected.user.js:79-102 | one more accepted character keeps the prefix encodable, adds its index to the sum and appends its pattern |
| Code39.ScanData | old-tools/barcodeselected.user.js:79-102 | the loop succeeds exactly when every character is encodable, and then yields the sum of the indices and the patterns in order |
| Code39.CheckStep | old-tools/barcodeselected.user.js:104-106 | the check-digit pattern, when requested, is appended after the data patterns |
| Code39.Code39 | old-tools/barcodeselected.user.js:9-133 | the encoder returns the units of `Encode` on success and `""` exactly when `Encode` fails |
| Code39.GroupsLayout | old-tools/barcodeselected.user.js:101-106 | group k is the pattern of data character k; group N is the check-digit pattern when requested |
| Code39.BitsLayout | old-tools/barcodeselected.user.js:100-108 | the bits are 9(N+2) long, or 9(N+3) with the check digit; the guard comes first and last, data character k is in group k+1, the check digit in group N+1 |
| Code39.EncodeFraming | old-tools/barcodeselected.user.js:9-133 | a successful encoding is 16(N+2) or 16(N+3) units and begins and ends with the guard units, so it is never the failure value `""` |
| Code39.EncodeUnitGroups | old-tools/barcodeselected.user.js:79-131 | in a successful encoding, units 16(k+1)..16(k+2) are data character k's pattern expanded, and units 16(N+1)..16(N+2) are the check digit's when requested |
| Code39.EncodeFailsOnDisallowed | old-tools/barcodeselected.user.js:79-86 | encoding fails exactly when some normalised character is outside the validation class |
| Code39.NormalizeCharValid | old-tools/barcodeselected.user.js:18 | a kept input character normalises to an encodable one exactly when it is a space or in the validation class |
| Code39.EncodeFailsOnRawInput | old-tools/barcodeselected.user.js:18-86 | encoding fails exactly when the raw input holds a character that is not a space, not an asterisk and not in the validation class |
| Code39.EncodeNormalized | old-tools/barcodeselected.user.js:72-74 | the encoding depends on the input only through its normalised form |

## Left out

- The rendering of the units as page elements (`makeOnBit`, `makeOffBit`, `makeQuietZone`, `MakeBarcode`, lines 136-247) and the selection and click listeners (lines 248-294). They are presentation code that consumes the encoder's output.
- The `alert` on an invalid character is a user-interface side effect. The model keeps only its outcome: `None` from `Encode`, `""` from the method.
- Normalization.ToUpper: upper-cases ASCII letters only. JavaScript's `toUpperCase` also maps some non-ASCII characters into the validation class ('ı' to 'I', 'ſ' to 'S', 'ß' to "SS", ligatures such as 'ﬀ' to "FF"), and the script would encode those. The model rejects them.
- JavaScript strings are sequences of UTF-16 code units, while Dafny's `char` is a Unicode scalar value. A character outside the Basic Multilingual Plane fails validation in both, so the outcome is the same.
- CharSet.DigitValue: replaces `eval` of a one-character digit string by the digit's value. `isNaN` and `eval` are not modelled for other strings, which cannot reach that case.
- Expansion.Expand: requires a multiple of nine bits. The script's `substr(i, 9)` on a shorter final group is never reached, because `Framing.Framed` always has 9(N+2) bits.
- Code39.Code39: takes `blnAddCheckDigit` as a boolean. The script tests `blnAddCheckDigit != 0`, and its only caller passes `0`.
- Code39.SumIndices: the script's check sum is a JavaScript number, which is exact up to 2^53. The model's sum is an unbounded natural number; the two differ only for inputs of more than 2^47 characters.
