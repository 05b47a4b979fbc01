# AKpicker colour-matching engine in Dafny

AKpicker is a browser page that suggests the closest AK Interactive paint to a
colour you pick. This project models the page's matching engine in `app.js`
and proves properties of that model. The engine has four parts:

- **Hex colours.** `sanitizeHex`, `hexToRgb` and `rgbToHex`. Input is trimmed
  and at most one leading `#` is dropped. Exactly six hex digits of either case
  are required. The result is `#RRGGBB` in upper case, read as three channels
  in 0..255, and written back with zero padding.
- **The palette.** `loadPalette` turns the decoded JSON array into the
  module-level `akColours`. It keeps records whose `Value` is a string that
  `hexToRgb` accepts once upper-cased, and attaches `rgb` and `lab` to them.
- **Ranking.** `findClosestMatches` pairs every palette entry with its
  CIEDE2000 distance to the query and sorts the pairs stably by ascending
  distance. It keeps the first `limit` of them.
- **The loupe window.** `clamp` and the arithmetic of `updateLoupePreview`. These
  fix the square of at most 5×5 pixels that is magnified under the pointer,
  and the centre pixel whose colour is shown.

Modules, one per file:

- `Wrappers` holds `Option` and `Result`.
- `JsText` holds `trim`, `startsWith("#")`/`slice(1)` and upper-casing of ASCII letters.
- `HexColour` holds the parser and the formatter.
- `Palette` holds the filter/map/filter pipeline.
- `Ranking` holds `findClosestMatches`.
- `Matcher` holds the class `ColourMatcher`. It keeps `akColours` as a field and has the `Load` and `Rank` methods.
- `Loupe` holds the window arithmetic.
- `UpperCaseFinding` holds the finding below.

Two functions are parameters rather than models:

- `rgbToLab` is `toLab: Rgb -> Lab`.
- `deltaE2000` is `deltaE: (Lab, Lab) -> real`.

The ranking properties hold for every such function.

Three behaviours of the code worth noting, all modelled as written:

- `loadPalette` assigns `akColours` before it checks for emptiness (app.js:519 then 534). A fetch whose records are all rejected therefore empties the palette and also reports "No valid colours were loaded."
- `findClosestMatches` on an empty palette returns an empty list. It raises no error.
- A palette entry's `Value` is the upper-cased raw string, not the sanitised one. For example, `" #ff0000 "` is stored as `" #FF0000 "`.

## Model

| member | source | states |
|---|---|---|
| JsText.TrimStartSuffix | app.js:48 | the leading part `trim` removes is all whitespace; what remains is a suffix that does not start with whitespace |
| JsText.TrimEndPrefix | app.js:48 | the trailing part `trim` removes is all whitespace; what remains is a prefix that does not end with whitespace |
| JsText.TrimKeepsFirst | app.js:48 | `trim` keeps a leading character that is not whitespace |
| JsText.UpperChar | app.js:50 | upper-casing one character never yields a lower-case ASCII letter: a–z go to the letter at the same alphabet position in A–Z, and every other character is kept |
| JsText.Trim | app.js:48 | `trim`; its properties are stated by TrimStartSuffix, TrimEndPrefix and TrimKeepsFirst |
| JsText.StripHash | app.js:49 | `startsWith("#") ? slice(1) : t`; DoubleHashRejected and SanitizeHexAccepts state what it contributes to `sanitizeHex` |
| JsText.UpperAscii | app.js:50 | `toUpperCase` has the same length as its input and upper-cases it position by position |
| JsText.UpperAsciiConcat | app.js:50 | upper-casing a concatenation upper-cases each part |
| JsText.UpperAsciiIdempotent | app.js:50 | upper-casing twice is the same as upper-casing once |
| JsText.TrimUpper | app.js:48-50 | trimming commutes with upper-casing, and so does dropping a leading `#` |
| HexColour.DigitValue | app.js:63-65 | a hex digit's value, from either case, is below 16 |
| HexColour.UpperDigitValue | app.js:50-51 | upper-casing a hex digit gives an upper-case hex digit of the same value |
| HexColour.ParseHex | app.js:63-65 | `parseInt(s, 16)` of k hex digits is below 16^k |
| HexColour.ParsePair | app.js:63-65 | `parseInt` of a two-digit slice is 16 × first digit + second digit |
| HexColour.ParseHexIgnoresCase | app.js:63-65 | `parseInt(s, 16)` does not depend on the case of the digits |
| HexColour.SanitizeHex | app.js:46-55 | whatever `sanitizeHex` returns is `#` followed by six upper-case hex digits |
| HexColour.SanitizeHexAccepts | app.js:46-55 | `sanitizeHex` returns a value if and only if the trimmed input, minus at most one leading `#`, is exactly six hex digits; the returned digits have those digits' values |
| HexColour.SanitizeHexIgnoresCase | app.js:46-55 | `sanitizeHex` gives the same result for an input and its upper-cased form |
| HexColour.CanonicalIsFixed | app.js:46-55 | a canonical `#RRGGBB` is returned unchanged |
| HexColour.SanitizeHexIdempotent | app.js:46-55 | `sanitizeHex` of a `sanitizeHex` result is that result |
| HexColour.DoubleHashRejected | app.js:49-51 | any input starting with `##` is refused: only one `#` is dropped |
| HexColour.ChannelsParse | app.js:61-66 | each channel of a canonical colour is `parseInt` of its two-digit slice of `value` |
| HexColour.HexToRgb | app.js:57-67 | `hexToRgb` fails exactly when `sanitizeHex` does |
| HexColour.HexToRgbChannels | app.js:57-67 | each channel `hexToRgb` returns is 16 × high + low of the corresponding digit pair of the stripped input |
| HexColour.HexToRgbIgnoresCase | app.js:57-67 | `hexToRgb` does not depend on the case of its input |
| HexColour.NatToHex | app.js:71 | `toString(16)` of a natural number has at least one digit, at most two exactly below 256, and parses back to the number |
| HexColour.PadStart2 | app.js:71 | `padStart(2, "0")` is two characters long unless the input is longer, which then comes back unchanged |
| HexColour.PadStart2Contents | app.js:71 | `padStart(2, "0")` ends with its input, preceded only by `'0'` characters |
| HexColour.UpperSegment | app.js:71 | one channel's padded, upper-cased text is its two upper-case hex digits, high first |
| HexColour.RgbToHexDigits | app.js:69-72 | for channels in 0..255, `rgbToHex` is `#` followed by the two upper-case digits of each channel in order |
| HexColour.ByteToHex | app.js:71 | a byte is written as exactly two zero-padded hex digits |
| HexColour.RgbToHexFormat | app.js:69-72 | for channels in 0..255, `rgbToHex` is `#` and the six upper-case digits (two per channel, high first), a canonical colour |
| HexColour.RgbToHexCanonicalIffBytes | app.js:69-72 | `rgbToHex` produces `#RRGGBB` if and only if every channel lies in 0..255 |
| HexColour.CanonicalParses | app.js:57-67 | `hexToRgb` of a canonical colour reads its own three digit pairs |
| HexColour.RgbRoundTrip | app.js:57-72 | `hexToRgb(rgbToHex(r, g, b))` is (r, g, b) for bytes |
| HexColour.CanonicalRoundTrip | app.js:57-72 | formatting the channels read from a canonical colour gives it back |
| HexColour.ToString16 | app.js:71 | `toString(16)` on an integer; ByteToHex and SegmentShape state its padded form for bytes and for other integers |
| HexColour.RgbToHex | app.js:69-72 | `rgbToHex`; RgbToHexFormat, RgbToHexCanonicalIffBytes and the two round-trip lemmas state its properties |
| HexColour.HexRoundTrip | app.js:46-72 | for an accepted input, `rgbToHex(hexToRgb(h))` equals `sanitizeHex(h)` |
| Palette.Normalise | app.js:521-531 | the map step of the pipeline; NormaliseWellFormed states its result |
| Palette.NormaliseWellFormed | app.js:521-531 | the map step keeps the record's other fields, upper-cases `Value`, and attaches the `rgb` that `hexToRgb` reads from it and that rgb's `lab` |
| Palette.Keep | app.js:520-532 | one record yields at most one palette entry |
| Palette.Survivors | app.js:519-532 | the filter/map/filter pipeline never yields more entries than it is given |
| Palette.SurvivorsIsFlatMap | app.js:519-532 | the pipeline is the per-record step applied to each record, results joined in input order |
| Palette.BuildPalette | app.js:519-532 | the pipeline fails, with a TypeError, exactly when an element of the array is null |
| Palette.SurvivorsWellFormed | app.js:519-532 | every entry of a built palette is well formed |
| Palette.SurvivorsAppend | app.js:519-532 | input order is kept: the survivors of a concatenation are the survivors of each part, in order |
| Palette.SurvivorsMembership | app.js:519-532 | an entry is in the palette if and only if it is the normalised form of an accepted record of the input |
| Palette.SurvivorsEmpty | app.js:519-536 | the palette is empty, the "No valid colours" case, if and only if no record is accepted |
| Palette.RebuildIsIdentity | app.js:519-532 | building from a palette's own entries gives the same palette back |
| Ranking.HexToLab | app.js:212-215 | `hexToLab` gives no value exactly when `sanitizeHex` refuses the text, and otherwise gives `rgbToLab` of the sanitised colour's channels |
| Ranking.WithDistances | app.js:410-414 | the map step yields one match per palette entry |
| Ranking.WithDistancesAt | app.js:410-414 | the j-th match is the j-th entry with its distance from the query |
| Ranking.Insert | app.js:415 | one step of the stable sort; InsertPermutes, InsertSorted and InsertStable state its properties |
| Ranking.SortByDistance | app.js:415 | the stable sort by ascending distance; SortIsSortedPermutation, SortIsStable and StableSortIsInsertionSort state its properties |
| Ranking.InsertPermutes | app.js:415 | an insertion step adds exactly one match and loses none |
| Ranking.InsertSorted | app.js:415 | an insertion step keeps a sorted list sorted |
| Ranking.SortIsSortedPermutation | app.js:415 | the sort returns a permutation of its input in non-decreasing distance |
| Ranking.InsertStable | app.js:415 | an insertion step puts the new match ahead of every match at its distance |
| Ranking.SortIsStable | app.js:415 | the sort is stable: at every distance the matches come out in input order |
| Ranking.StableSortUnique | app.js:415 | two sorted permutations that agree on the order at every distance are equal |
| Ranking.StableSortIsInsertionSort | app.js:415 | any stable sort by distance returns exactly what the modelled sort returns |
| Ranking.SliceEnd | app.js:416 | `slice(0, limit)` never runs past the end. A non-negative limit keeps at most `limit` elements, and all of them when there are fewer. A negative limit drops the last −limit elements, or all of them when there are fewer |
| Ranking.ClosestMatches | app.js:406-417 | an unparsable query gives `[]`; otherwise the result has min(limit, n) matches for limit ≥ 0, so none for limit 0, and it is in non-decreasing distance |
| Ranking.ClosestIsPrefix | app.js:410-416 | the result is a prefix of the full sorted ranking |
| Ranking.MatchesArePaletteEntries | app.js:410-414 | every match is a palette entry paired with its own distance from the query |
| Ranking.EntryIsRanked | app.js:410-415 | every palette entry's match appears in the sorted ranking |
| Ranking.OmittedAreNotCloser | app.js:406-417 | top-k: a palette entry left out is no closer than any match that was kept |
| Ranking.FirstIsClosest | app.js:406-417 | the first match is at least as close as every palette entry |
| Ranking.LimitExtends | app.js:416 | for 0 ≤ l1 ≤ l2 the result for l1 is a prefix of the result for l2 |
| Ranking.AtDistancePrefix | app.js:416 | cutting a list keeps a prefix of its matches at every distance |
| Ranking.TiesKeepPaletteOrder | app.js:410-416 | the kept matches at any one distance are the first ones at that distance in palette order |
| Ranking.PaletteValueMatchesExactly | app.js:406-417 | with a distance that is non-negative and zero between equal colours, querying an entry's own `Value` ranks an exact match first |
| Matcher.ColourMatcher.constructor | app.js:29 | the palette starts empty |
| Matcher.ColourMatcher.Load | app.js:510-545 | a failed fetch or a null element leaves the palette unchanged with an error. Otherwise the palette becomes the survivors; the result is "no valid colours" if there are none, else their count. The entries stay well formed |
| Matcher.ColourMatcher.Rank | app.js:406-417 | ranking reads the current palette: it gives the `ClosestMatches` result, sorted, empty for an unparsable query, and made of well-formed palette entries |
| Loupe.Clamp | app.js:74 | the result is at most `max`, and at least `min` when min ≤ max. A value already in range is kept; one below or above is moved to the nearer bound. When min > max the result is `max` |
| Loupe.LoupeWindow | app.js:264-277 | hidden exactly when the canvas has no area. The side is min(5, width, height). The corner lies in [0, max(width − side, 0)] (height likewise), so the square stays on the canvas. A pointer on the canvas lies inside the square, and is its centre pixel unless the square is pushed against an edge |
| Loupe.CentreIndex | app.js:292-293 | the centre pixel's byte offset is a multiple of 4, and its four bytes lie inside `size × size × 4` |
| Loupe.LoupeColourIsCentrePixel | app.js:292-297 | on the `getImageData` bytes the `?? 0` fallback never applies: the loupe shows a canonical colour that `hexToRgb` reads back as the centre pixel's bytes |
| Loupe.SampleAt | app.js:294-296 | `sample.data[i] ?? 0`; LoupeColourIsCentrePixel states that the fallback never applies |
| Loupe.LoupeColour | app.js:292-297 | the colour shown in the loupe; LoupeColourIsCentrePixel states it |
| UpperCaseFinding.JsUpperCase | app.js:50 | `toUpperCase` on ASCII letters and on every character whose upper case consists only of ASCII letters, which decides exactly whether a text upper-cases to six ASCII hex digits; JsUpperAscii states that on ASCII it is ASCII upper-casing |
| UpperCaseFinding.SanitizeHexAsWritten | app.js:46-55 | `sanitizeHex` in the code's order; LigatureAccepted and AsWrittenAgreesOnAscii state how it differs from the corrected one |
| UpperCaseFinding.LigatureAccepted | app.js:46-55 | the five-character input `ﬀ0000` is accepted as `#FF0000` by the code as written, and refused by the corrected `sanitizeHex` |
| UpperCaseFinding.JsUpperAscii | app.js:50 | on ASCII text, full `toUpperCase` is ASCII upper-casing |
| UpperCaseFinding.AsWrittenAgreesOnAscii | app.js:46-55 | on ASCII input, the code as written and the corrected `sanitizeHex` agree |

## Left out

- `rgbToLab`, `hueAngle`, `deltaE2000` and `degToRad` (app.js:36, 98-210) are IEEE-754 double arithmetic. They enter only as the parameters `toLab` and `deltaE`, whose values are not modelled.
- The comparator `a.distance - b.distance` is modelled as a comparison in a total order. NaN distances are not modelled.
- The DOM and canvas work is not modelled:
  - element lookups, `setStatus`, the rendering of match cards and suggestions;
  - `hideLoupe`, `positionLoupe`, `drawImageToCanvas`, `getCanvasCoordinates` and `resetCanvas`;
  - `getImageData`/`putImageData`, and the luminance-based text colour.

  `positionLoupe` clamps floating-point pixel offsets, which `Loupe.Clamp` over integers does not cover. `getImageData` is modelled only as a byte sequence of the expected length.
- `fetch` and JSON decoding (app.js:512-518) are represented by `Load`'s argument. `None` stands for a network error, a status that is not ok, or a body that is not an array. A JSON element is null, or a record whose `Value` is or is not a string.
- The file and image upload, the event wiring (`init` and the input handlers) and `pickRandomColour` are not modelled. They are I/O, events and `Math.random`.
- JsText.UpperAscii: upper-cases ASCII letters only. JavaScript's `toUpperCase` also changes other letters. That matters for hex digits only in the finding below, where `UpperCaseFinding.JsUpperChar` gives the relevant special cases.
- UpperCaseFinding.JsUpperCase: maps only ASCII letters and the characters whose upper case consists only of ASCII letters (ß, ı, ſ and the Latin ligatures U+FB00-U+FB06). Every other character is kept, so other letters are not upper-cased: `é` stays `é` where JavaScript gives `É`, and U+1E9A stays itself where JavaScript gives `A` followed by U+02BE. Neither difference changes whether the text becomes six ASCII hex digits, because such an upper case always contains a character that is not an ASCII letter.
- JsText.IsTrimmable: the whitespace set that `trim` removes is fixed to ECMA-262's WhiteSpace and LineTerminator sets, with the space separators of Unicode 15.
- Strings are sequences of Unicode scalar values, not UTF-16 code units. Lone surrogates are not modelled.
- HexColour.RgbToHex: models channels as mathematical integers, so it does not model fractional or NaN channels. Both callers (app.js:297 and 495) pass bytes read from the canvas.
- HexColour.SanitizeHex: tests the six hex digits before upper-casing, the corrected order of the finding below. `hexToRgb`, the palette pipeline, the ranking and `ColourMatcher` are all built on that order. So they refuse inputs containing a ligature such as U+FB00, which the code accepts. For example, the code keeps a palette record whose `Value` is `"\u{FB00}0000"` as `"FF0000"` with rgb (255, 0, 0) (app.js:522-532), and the model drops it. The order as written is modelled only in `UpperCaseFinding`.
- Matcher.ColourMatcher.Load: when every record is rejected, the palette is emptied before the error is reported (app.js:519, then 534).

## Findings

| source | as written | input that shows it | evidently intended | confidence | as-written member | corrected member |
|---|---|---|---|---|---|---|
| app.js:46-55 | `sanitizeHex` upper-cases with full Unicode `toUpperCase` before it tests `/^[0-9a-f]{6}$/i`. The ligature U+FB00 becomes the two letters `FF`. The same order recurs for palette values at app.js:522-523. | `"\u{FB00}0000"`, five characters, is returned as `"#FF0000"` | accept exactly six hex digits, matched case-insensitively, then upper-case them | not executed | UpperCaseFinding.SanitizeHexAsWritten (exhibited by UpperCaseFinding.LigatureAccepted) | HexColour.SanitizeHex (proved by HexColour.SanitizeHexAccepts) |
