# easy-exam utilities: CSS class mapping, hex colours, kebab case

A Dafny model of the integer-only helpers in `src/utils/index.ts` of the
easy-exam front end:

- **CSS class mapping** (`pickCssClass`, `extractCssClass` and their string
  and object helpers). A Vue class value is a whitespace-separated string, a
  conditional object (class name -> "is active") or an array of class values
  that may hold `undefined`. Its class names are rewritten through a
  CSS-module style table. Pick mode passes names missing from the table
  through. Extract mode looks every name up, so a missing name becomes
  `undefined` (or the key `"undefined"` in an object).
- **Hex colour codec** (`hexToRgb`, `hexToRgba`, `rgbToHex`, `rgbaToHex`),
  together with the JavaScript primitives it rests on: `Number.parseInt(s, 16)`
  (NaN is `None`), `String.prototype.substring`, `Number.prototype.toString(16)`
  and `padStart(2, "0")`.
- **`toKebabCase`**, a global regular-expression replace.

Files:

- `wrappers.dfy`: module `Wrappers`, the `Option` type.
- `chars.dfy`: module `Chars`, with the character classes `\s`, `[A-Z]` and
  `[a-z]`, hexadecimal digits and lower-casing.
- `class_values.dfy`: module `ClassValues`, covering class values, the
  `/\s+/` splitter and plain objects as ordered key lists. It holds
  `Rewrite`, the specification of both class mappers, and the lemmas about
  what each mode does.
- `class_mapper.dfy`: module `ClassMapper`, the four mappers as the source
  writes them. They are `reduce` folds over an accumulator that is updated in
  place, written here as loops, and each is proved to compute the
  specification.
- `hex_color.dfy`: module `HexColor`, the codec, its round trips, and the
  four-digit alpha finding below.
- `kebab_case.dfy`: module `KebabCase`. The scan is modelled the way the
  regular-expression engine runs it. It is proved equal to a reference
  definition that works one character at a time, and the properties are
  proved about that definition.

A plain object is an ordered sequence of `(key, value)` entries whose keys are
distinct. This is the order in which `Object.keys` lists them. Assigning to a
key already present changes its value in place; assigning to a new key appends
it. One specification, `Rewrite`, is parameterised by the mode, so the two
modes share their proofs. A lemma gives a condition under which the two
modes agree: every token and every key is in the table.

## Model

| member | source | states |
|---|---|---|
| ClassValues.FirstSpace | src/utils/index.ts:22 | where the next `\s+` match starts: no whitespace from the given position up to it, and whitespace at it unless it is the end |
| ClassValues.SpaceRunEnd | src/utils/index.ts:22 | where the greedy `\s+` match ends: whitespace from its start up to it, and no whitespace at it unless it is the end |
| ClassValues.Split | src/utils/index.ts:22 | `split(/\s+/)` gives at least one token and no token holds whitespace |
| ClassValues.Separators | src/utils/index.ts:22 | the maximal whitespace runs that `split(/\s+/)` cuts out, in order (defines them; `SplitReconstructs` states their properties) |
| ClassValues.Interleave | src/utils/index.ts:22 | tokens with the separators put back between neighbours (defines it; used by `SplitReconstructs`) |
| ClassValues.SplitReconstructs | src/utils/index.ts:22 | for every string: there is one separator between each pair of neighbouring tokens, each a non-empty run of whitespace, and putting the separators back between the tokens gives the input exactly |
| ClassValues.SeparatorsAreRuns | src/utils/index.ts:22 | one separator per gap between neighbouring tokens, each a non-empty run of whitespace |
| ClassValues.InterleaveSplit | src/utils/index.ts:22 | putting the separators back between the tokens gives the input exactly |
| ClassValues.SplitIsShaped | src/utils/index.ts:22 | every token list `split` returns has no whitespace in any token and no empty token except possibly the first and last, so `SplitJoin` applies to it |
| ClassValues.SplitJoin | src/utils/index.ts:22 | splitting a list of non-empty, whitespace-free tokens joined by single spaces gives back exactly that list |
| ClassValues.SplitEdges | src/utils/index.ts:22 | a class string with leading (trailing) whitespace splits to an empty first (last) token |
| ClassValues.PickToken | src/utils/index.ts:22 | `classname in styleObject ? styleObject[classname] : classname` (defines it) |
| ClassValues.ExtractToken | src/utils/index.ts:60 | `styleObject[classname]`, `undefined` when the name is missing (defines it) |
| ClassValues.StringItems | src/utils/index.ts:49 | the tokens of a class string, mapped in the given mode, as array elements to splice in (defines it) |
| ClassValues.MapClassNameString | src/utils/index.ts:21-22 | one result per token, in order; a token in the table becomes its table value, any other token is kept |
| ClassValues.PickJoinedTokens | src/utils/index.ts:21-22 | a space-separated class string is picked token for token, in order |
| ClassValues.ExtractClassNameString | src/utils/index.ts:59-60 | one result per token, in order; it is defined exactly when the token is in the table, and then it is the token's table value |
| ClassValues.ObjectKey | src/utils/index.ts:26 | the key an object entry is assigned under: the table value, or in pick mode the key itself and in extract mode `"undefined"` when missing (defines it) |
| ClassValues.Get | src/utils/index.ts:26 | reading a key of an object, `undefined` when absent (defines it; `PutProperties` states how it sees `Put`) |
| ClassValues.Put | src/utils/index.ts:26 | `accumulator[key] = value`: an existing key keeps its position and takes the value, a new key is appended (defines it; `PutProperties` states its effect) |
| ClassValues.KeyIndex | src/utils/index.ts:26 | the position of a key in an object, or none exactly when no entry has that key |
| ClassValues.KeyIndexUnique | src/utils/index.ts:26 | in an object with distinct keys, the entry holding a key is the one found |
| ClassValues.PutProperties | src/utils/index.ts:26-28 | `accumulator[key] = value` keeps the keys distinct, makes the key read `value`, and leaves every other key's value unchanged |
| ClassValues.RekeyObject | src/utils/index.ts:23-30 | the `reduce` over `Object.keys` that assigns each entry under its new key, in the given mode (defines it; the `RekeyObject*` lemmas state its properties) |
| ClassValues.RekeyObjectSnoc | src/utils/index.ts:23-30 | rekeying one more entry is assigning it, under its new name, to the rekeyed prefix (one step of the fold) |
| ClassValues.RekeyObjectDistinct | src/utils/index.ts:23-30 | a rekeyed object has distinct keys |
| ClassValues.RekeyObjectPresence | src/utils/index.ts:23-30 | a key is absent from the result exactly when no entry is renamed to it |
| ClassValues.RekeyObjectLastValue | src/utils/index.ts:23-30 | a key carries the value of the last entry renamed to it |
| ClassValues.RekeyObjectLastWins | src/utils/index.ts:61-65 | both modes: distinct keys; a key is present exactly when some entry is renamed to it; when two entries rename to one key, the later entry's value wins |
| ClassValues.RekeyObjectApart | src/utils/index.ts:23-30 | when no two entries rename to one key, the result keeps every entry in place: same length, position i holds entry i's new name and its unchanged boolean |
| ClassValues.PickObjectUnmapped | src/utils/index.ts:28 | pick mode leaves an object none of whose keys is in the table unchanged |
| ClassValues.Rewrite | src/utils/index.ts:37-57 | the result is never a bare string; it is a conditional object exactly when the input is one, and an array otherwise |
| ClassValues.RewriteItems | src/utils/index.ts:45-56 | the `reduce` over an array: each element's contribution, left to right (defines it) |
| ClassValues.Contribution | src/utils/index.ts:46-53 | what one element adds: nothing for `undefined`, the spliced tokens of a string, one rewritten element for an array or object (defines it) |
| ClassValues.RewriteItemsAppend | src/utils/index.ts:45-56 | the array fold distributes over concatenation, so surviving elements keep their relative order |
| ClassValues.Defined | src/utils/index.ts:46-47 | the array without its `undefined` elements holds only defined elements and is no longer; a one-element array is kept when its element is defined and emptied when it is `undefined` |
| ClassValues.DefinedAppend | src/utils/index.ts:46-47 | dropping `undefined` distributes over concatenation; with the one-element case of `Defined` this makes it the order-preserving filter |
| ClassValues.RewriteItemsSkipsUndefined | src/utils/index.ts:46-47 | rewriting an array gives the same result as rewriting it with its `undefined` elements removed |
| ClassValues.AllDefinedAppend | src/utils/index.ts:49 | a concatenation holds no `undefined` exactly when neither part does |
| ClassValues.PickHasNoUndefined | src/utils/index.ts:37-57 | pick mode never puts an `undefined` element into any array of its result |
| ClassValues.PickItemsHaveNoUndefined | src/utils/index.ts:45-56 | the pick fold over an array produces no `undefined` element |
| ClassValues.PickContributionHasNoUndefined | src/utils/index.ts:46-53 | what one array element contributes in pick mode holds no `undefined` |
| ClassValues.ExtractUndefinedIffMissing | src/utils/index.ts:71-90 | extract mode's result holds no `undefined` array element exactly when every token of every class string in the input is in the table |
| ClassValues.ExtractItemsUndefinedIffMissing | src/utils/index.ts:79-89 | the extract fold over an array holds no `undefined` element exactly when every defined element's string tokens are in the table |
| ClassValues.ExtractContributionUndefinedIffMissing | src/utils/index.ts:80-87 | one element's extract contribution holds no `undefined` exactly when its string tokens are in the table |
| ClassValues.RekeyModesAgree | src/utils/index.ts:61-65 | when every key is in the table, the two object mappers produce the same object |
| ClassValues.StringModesAgree | src/utils/index.ts:59-60 | when every token is in the table, the two string mappers agree |
| ClassValues.ItemsModesAgree | src/utils/index.ts:79-89 | when every name is in the table, the two array folds agree |
| ClassValues.ContributionModesAgree | src/utils/index.ts:80-87 | when its names are in the table, one element contributes the same in both modes |
| ClassValues.PickAgreesWithExtract | src/utils/index.ts:71-90 | on a class value whose names are all in the table, `pickCssClass` and `extractCssClass` agree |
| ClassMapper.MapClassNameObject | src/utils/index.ts:23-30 | the fold's accumulator ends as the object rekeyed in pick mode |
| ClassMapper.ExtractClassNameObject | src/utils/index.ts:61-65 | the fold's accumulator ends as the object rekeyed in extract mode (missing names become `"undefined"`) |
| ClassMapper.PickCssClass | src/utils/index.ts:37-57 | returns `Rewrite` in pick mode: strings are mapped, objects rekeyed, arrays folded with `undefined` dropped, strings spliced flat and nested arrays and objects pushed as one element |
| ClassMapper.ExtractCssClass | src/utils/index.ts:71-90 | returns `Rewrite` in extract mode; the `concat` of an object appends it as one element |
| Chars.IsSpace | src/utils/index.ts:22 | the `\s` class of `split(/\s+/)`, which is also what `parseInt` skips at line 261: ECMAScript's WhiteSpace and LineTerminator code points (defines it) |
| Chars.IsUpper | src/utils/index.ts:243 | the class `[A-Z]` of the kebab-case pattern (defines it) |
| Chars.IsLower | src/utils/index.ts:243 | the class `[a-z]` of the lookahead `(?![a-z])` (defines it) |
| Chars.IsHexDigit | src/utils/index.ts:261 | the digits `parseInt` accepts in radix 16, either case (defines it) |
| Chars.ToLower | src/utils/index.ts:243 | the result is never a capital; a capital becomes its lower-case letter, anything else is kept |
| Chars.HexValue | src/utils/index.ts:261 | a hexadecimal digit of either case has a value below 16 |
| Chars.HexChar | src/utils/index.ts:274 | `toString(16)` prints a lower-case digit whose value is the digit given |
| Chars.LowerHex | src/utils/index.ts:274 | a digit re-printed by `toString(16)` is the digit itself when it is already lower case |
| HexColor.Substring | src/utils/index.ts:260 | `substring` clamps both ends to the string's length |
| HexColor.TrimStart | src/utils/index.ts:261 | the whitespace skip at the start of `parseInt`: the result is no longer than the input (`TrimStartSkipsSpace` pins it) |
| HexColor.TrimStartSuffix | src/utils/index.ts:261 | what the whitespace skip leaves is a suffix of the input |
| HexColor.TrimStartSkipsSpace | src/utils/index.ts:261 | `parseInt` skips exactly the leading whitespace: it keeps a suffix, everything before that suffix is whitespace, and the suffix does not start with whitespace |
| HexColor.HexDigitsValue | src/utils/index.ts:261 | the base-16 value of a digit string, most significant digit first (defines it; `ParseAllDigits` and `HexDigitsRoundTrip` state its properties) |
| HexColor.HexPrefix | src/utils/index.ts:261 | `parseInt` reads a prefix of its input made only of hex digits, and the longest one: the character after it, if any, is not a hex digit |
| HexColor.ParseInt16 | src/utils/index.ts:261 | `Number.parseInt(s, 16)`: skip leading whitespace, one sign, an optional `0x`, then the longest run of hex digits; NaN when that run is empty (defines it) |
| HexColor.HexPrefixAll | src/utils/index.ts:261 | a string made only of hex digits is read whole |
| HexColor.ParseAllDigits | src/utils/index.ts:261 | a non-empty string of hex digits parses to its base-16 value |
| HexColor.ParseAfterMinus | src/utils/index.ts:261 | a `-` followed by hex digits parses to the negated value of the digits |
| HexColor.HexDigits | src/utils/index.ts:274 | `toString(16)` of a natural number: at least one digit (`HexDigitsLowerCase` and `HexDigitsRoundTrip` state the rest) |
| HexColor.HexDigitsLowerCase | src/utils/index.ts:274 | `toString(16)` of a natural number prints only hex digits, none upper case |
| HexColor.HexDigitsRoundTrip | src/utils/index.ts:274 | parsing what `toString(16)` prints gives back the number |
| HexColor.NumberToHex | src/utils/index.ts:274 | `n.toString(16)` for an integer: lower-case digits, no leading zeros, a `-` before a negative number (defines it) |
| HexColor.NumberRoundTrip | src/utils/index.ts:274 | for every integer `n`, `parseInt(n.toString(16), 16) == n` |
| HexColor.PadStart2 | src/utils/index.ts:274 | `padStart(2, "0")` keeps a string of two or more characters as it is and puts `"0"` or `"00"` in front of a shorter one, making it two long |
| HexColor.ByteHex | src/utils/index.ts:274 | one channel as `rgbToHex` prints it, `toString(16).padStart(2, "0")` (defines it) |
| HexColor.StripHash | src/utils/index.ts:260 | the input without one leading `#` (defines it) |
| HexColor.ChannelText | src/utils/index.ts:261-263 | the text parsed for a channel: its digit written twice in the three- or four-digit shorthand, otherwise the pair at offset 2i (defines it) |
| HexColor.AlphaText | src/utils/index.ts:271 | `input.substring(6, 8)` (defines it) |
| HexColor.HexToRgb | src/utils/index.ts:259-265 | the three channels parsed from `ChannelText` (defines it; the round-trip and shorthand lemmas below state its properties) |
| HexColor.HexToRgba | src/utils/index.ts:266-273 | `HexToRgb`'s channels and an alpha parsed from `AlphaText` when the length is 4 or 8, otherwise 0 (defines it) |
| HexColor.RgbToHex | src/utils/index.ts:274 | `#` and the three padded channels (defines it) |
| HexColor.RgbaToHex | src/utils/index.ts:275 | `#` and the four padded channels (defines it) |
| HexColor.ByteHexDigits | src/utils/index.ts:274 | a byte prints as exactly its high and low nibble digits |
| HexColor.ParseTwoDigits | src/utils/index.ts:261 | two hex digits parse to 16 times the first plus the second |
| HexColor.ParseNoDigits | src/utils/index.ts:271 | a string with no hex digit parses to NaN |
| HexColor.ByteRoundTrip | src/utils/index.ts:274 | a byte printed by `toString(16).padStart(2, "0")` parses back to itself |
| HexColor.RgbToHexFormat | src/utils/index.ts:274 | `rgbToHex` of three bytes is `#` followed by six lower-case digits, two per channel |
| HexColor.RgbaToHexFormat | src/utils/index.ts:275 | `rgbaToHex` of four bytes is `#` followed by eight lower-case digits, two per channel |
| HexColor.RgbRoundTrip | src/utils/index.ts:259-265 | `hexToRgb(rgbToHex(r, g, b)) == [r, g, b]` for bytes |
| HexColor.RgbaRoundTrip | src/utils/index.ts:266-273 | `hexToRgba(rgbaToHex(r, g, b, a)) == [r, g, b, a]` for bytes |
| HexColor.PairRoundTrip | src/utils/index.ts:261 | two hex digits parse to a byte that prints back as the same digits in lower case |
| HexColor.LongChannel | src/utils/index.ts:261-263 | outside the shorthand, channel i is read from characters 2i and 2i+1 |
| HexColor.LongChannelRoundTrip | src/utils/index.ts:261-263 | a channel of a six- or eight-digit colour parses to a byte that prints back as its two digits in lower case |
| HexColor.HexRoundTrip | src/utils/index.ts:259-265 | a six-digit colour parses to three defined channels, each a byte, and `rgbToHex` of them gives back `#` and the digits in lower case |
| HexColor.AlphaRoundTrip | src/utils/index.ts:271 | the alpha pair of an eight-digit input parses to a byte that prints back as the same two digits in lower case |
| HexColor.HexaRoundTrip | src/utils/index.ts:266-273 | an eight-digit colour parses to four defined channels, each a byte, and `rgbaToHex` of them gives back `#` and the digits in lower case |
| HexColor.ShorthandChannel | src/utils/index.ts:261 | in the three- or four-digit shorthand, a channel is its digit doubled, so 17 times the digit |
| HexColor.ShorthandChannels | src/utils/index.ts:259-265 | `#rgb` and `#rgba` parse to 17 times each of the first three digits |
| HexColor.NonHexPairIsNaN | src/utils/index.ts:261-263 | outside the shorthand, a channel whose two characters hold no hex digit is NaN |
| HexColor.HexToRgbaAlpha | src/utils/index.ts:266-273 | `hexToRgba` has `hexToRgb`'s channels; its alpha is 0 unless the length is 4 or 8, and NaN for the four-digit shorthand |
| HexColor.HexToRgbaIntended | src/utils/index.ts:266-273 | the corrected `hexToRgba`: the four-digit shorthand takes alpha from its fourth digit written twice (defines it) |
| HexColor.DoubledFourthDigit | src/utils/index.ts:271 | in the corrected reading, the fourth shorthand digit written twice parses to 17 times its value |
| HexColor.IntendedShorthandAlpha | src/utils/index.ts:271 | the corrected `hexToRgba` agrees with the source except on four digits, where alpha is 17 times the fourth digit |
| HexColor.ShorthandAlphaExample | src/utils/index.ts:271 | `#abcd` has alpha NaN as written and 0xdd once corrected |
| KebabCase.RunLength | src/utils/index.ts:243 | the run of capitals at a position stays inside the string |
| KebabCase.RunLengthIsMaximal | src/utils/index.ts:243 | `[A-Z]+` matches greedily: every character in the run is a capital and the next one is not |
| KebabCase.MatchLength | src/utils/index.ts:243 | a match takes at least one capital and either the whole run or all of it but its last capital. It stops one short exactly when the run is longer than one and a lower-case letter follows it, the `(?![a-z])` backtrack |
| KebabCase.LowerSlice | src/utils/index.ts:243 | `$.toLowerCase()` on a match: the same length, and character k is the lower case of the match's character k |
| KebabCase.Replacement | src/utils/index.ts:243 | the replacer callback: the lower-cased match after a `-` unless its offset is 0 (defines it; `ReplacementPieces` relates it to the reference) |
| KebabCase.KebabFrom | src/utils/index.ts:243 | the global replace from an offset on: a character that is not a capital is copied, a match is replaced and skipped (defines it) |
| KebabCase.ToKebabCase | src/utils/index.ts:243 | `toKebabCase`: the global replace from offset 0 (defines it; the `Kebab*` lemmas state its properties) |
| KebabCase.MatchInterior | src/utils/index.ts:243 | no match starts strictly inside another, and the scan resumes where the reference definition would |
| KebabCase.SpecInsideMatch | src/utils/index.ts:243 | inside a match, the reference definition only lower-cases |
| KebabCase.SpecOverMatch | src/utils/index.ts:243 | over a whole match, the reference definition produces the dash and the lower-cased match |
| KebabCase.ReplacementPieces | src/utils/index.ts:243 | the replacement string of a match is the reference's output over that match |
| KebabCase.CopyStep | src/utils/index.ts:243 | a character that is not a capital is copied by both definitions |
| KebabCase.MatchStep | src/utils/index.ts:243 | a match is replaced the same by both definitions |
| KebabCase.KebabFromSpec | src/utils/index.ts:243 | from every point where the scan can stand, it equals the reference definition |
| KebabCase.StartsMatch | src/utils/index.ts:243 | the reference definition's test for where a match of `[A-Z]+(?![a-z])|[A-Z]` starts: a capital that opens a run of capitals, or the last capital of a run followed by a lower-case letter (defines it; `KebabFromSpec` ties it to the scan) |
| KebabCase.Piece | src/utils/index.ts:243 | what the reference definition makes of one character: it lower-cased, after a `-` where a match starts at a non-zero offset (defines it) |
| KebabCase.SpecFrom | src/utils/index.ts:243 | the reference definition: the pieces of every character from a position on, in order (defines it; `KebabFromSpec` proves the scan equal to it) |
| KebabCase.KebabCaseSpec | src/utils/index.ts:243 | `toKebabCase` lower-cases every character and puts `-` before each character at a non-zero offset where a match starts |
| KebabCase.SpecNoUpper | src/utils/index.ts:243 | the reference definition produces no capital |
| KebabCase.KebabNoUpper | src/utils/index.ts:243 | the result holds no ASCII capital |
| KebabCase.SpecUnchanged | src/utils/index.ts:243 | without capitals, the reference definition copies its input |
| KebabCase.KebabUnchanged | src/utils/index.ts:243 | a string is returned unchanged exactly when it holds no ASCII capital |
| KebabCase.KebabIdempotent | src/utils/index.ts:243 | applying `toKebabCase` twice gives the same as applying it once |
| KebabCase.RemoveDashes | src/utils/index.ts:243 | deleting dashes leaves no dash and does not lengthen a string; a one-character string is emptied if it is `-` and kept otherwise |
| KebabCase.RemoveDashesAppend | src/utils/index.ts:243 | deleting dashes distributes over concatenation |
| KebabCase.SpecKeepsCharacters | src/utils/index.ts:243 | apart from dashes, the reference's output from a point is the rest of the input lower-cased, in order |
| KebabCase.KebabKeepsCharacters | src/utils/index.ts:243 | with dashes removed, the result is the input lower-cased: every character is kept, in order |
| KebabCase.KebabAcronym | src/utils/index.ts:243 | `"XMLHttp"` becomes `"xml-http"` |

## Left out

- Floating-point colour conversions (`rgbToHsl`, `hslToRgb`, `rgbToHsv`, `hsvToRgb`, src/utils/index.ts:277-374) are not modelled: they are float division, `Math.round` and NaN sentinels.
- The theme palette derived at start-up (src/utils/index.ts:376-412) is not modelled: it is built from the float HSL conversions.
- `hexColorToAlphaHexColor` (src/utils/index.ts:258) is not modelled: it takes a float alpha through `Math.floor(alpha * 255)`.
- Locale formatting (`formatDate`, `formatTime` and the rest, src/utils/index.ts:116-238) is not modelled: it wraps the foreign `Intl` library.
- The date helpers (`getCurrentDate`, `getEndOfDay`, `getEndOfWeek`, `getEndOfMonth`) are not modelled: they read the system clock and depend on the time zone rules of `Date`.
- `isNumeric` is not modelled: it relies on JavaScript number coercion and `parseFloat`.
- `getParentBackgroundColor` is not modelled: it reads the DOM through `window.getComputedStyle`.
- `computedWithPrevious` is not modelled: it is Vue reactivity glue.
- src/router/index.ts is not part of this model: it is a static route table with no logic.
- Objects are modelled without a prototype chain. `in` and lookups see only the table's own entries, so keys such as `"toString"` or `"__proto__"` behave like any other key.
- `Object.keys` lists integer-like keys first, in numeric order. The model lists keys in insertion order throughout.
- Strings are sequences of Unicode scalar values rather than UTF-16 code units.
- Channels handed to `rgbToHex`/`rgbaToHex` are integers. Fractional numbers, whose `toString(16)` prints a fraction, are not modelled. For a negative integer, `toString(16)` prints a minus sign, and that is modelled; `parseInt` reads it back (`NumberRoundTrip`), but no `rgbToHex`/`hexToRgb` round trip is claimed for negative channels.
- `parseInt` is modelled in full: leading whitespace, an optional sign, an optional `0x`, the longest run of hex digits, and NaN when that run is empty. The model returns the exact integer, where JavaScript rounds values above 2^53 to the nearest double.
- HexColor.NonHexPairIsNaN: covers only pairs with no hex digit at all. A pair such as `"a-"`, which parses to 10, is covered by the general definition but not by this lemma.

## Findings

| source | as written | input that shows it | evidently intended | confidence | as-written member | corrected member |
|---|---|---|---|---|---|---|
| src/utils/index.ts:271 | for the four-digit shorthand, alpha is read from `substring(6, 8)` of a four-character string, which is empty, so alpha is NaN | `hexToRgba("#abcd")` | alpha is the fourth digit doubled, like the other shorthand channels: 0xdd | not executed | HexColor.ShorthandAlphaExample | HexColor.IntendedShorthandAlpha |
