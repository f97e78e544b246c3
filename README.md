# TAlex.WPF.Controls, modelled in Dafny

TAlex.WPF.Controls is a library of WPF controls, dialogs and value converters. This project models
the parts of it that have logic of their own:

- **Colour utilities.** `ColorUtilities` holds hexadecimal colour codes, the parser for `#`-codes
  and colour names, BGRA32 pixel packing, the known-colour table and its "nice" display names.
  `ColorHelper` holds the string form of a colour and the BGR/RGB swap.
- **`NumericUpDown`.** A spin box whose `Value`, `Minimum`, `Maximum` and `Increment` are dependency
  properties with coercion callbacks (rounding to `DecimalPlaces` digits, `Minimum <= Value <= Maximum`).
  It also has the text box that edits the value, keyboard and focus handling, and the automation
  peer's `SetValue`. `DecimalMath` is the rounding it relies on.
- **`HtmlObject`.** The hyperlink, image and table objects of the HTML editor's insert dialogs:
  validation through `IDataErrorInfo` and the HTML they generate.
- **`ItemsControlDragDropManager`.** Drag-and-drop reordering of items within one items control or
  between two: which list is the source, where the item is inserted, the move itself, and the
  auto-scroll target.
- **`ColorPickerDialog`.** The RGB detail bitmaps the dialog paints pixel by pixel, and the hex
  value text box with its "return to the last valid input" behaviour.
- **`BusyIndicator`.** The `IsBusy` flag, the delayed display of the busy content, and the visual
  states.
- **`ImageEx`.** The frame animation of the extended image control.
- **The value converters.** `CamelTextToRegularText`, `NotEmptyStringToBoolean`,
  `BooleanToVisibility`, `IsNotNullToBoolean`, `WidthUnitToMaxWidth`, `EnumToBoolean` and
  `Int32ToDecimal`. The `object` values they receive are the `BoxedValues.Boxed` datatype.
- **`EnumerableExtensions.Count`.** Counting a non-generic enumerable.

How the model is built:

- C# `int` is an unbounded integer kept in the 32-bit range (`Common.Int32`). Unchecked overflow is
  written out with `Common.Wrap32`.
- Bit operations on `int` (`<<`, `>>`, `|`, `& 0xFF`) are defined arithmetically in `Int32Bits`.
- `decimal` is `real`. `Math.Round` is banker's rounding (`DecimalMath.RoundHalfEven`).
- Exceptions are `Result`/`Option` values.
- Objects whose fields or dependency properties the source updates in place are classes whose
  methods state the whole new state. WPF dependency-property coercion is modelled by keeping the
  base (uncoerced) value beside the effective value.

## Model

| member | source | states |
|---|---|---|
| ColorUtilities.Argb | TAlex.WPF.Controls/Media/ColorUtilities.cs:146-149 | the packed ARGB value of a colour is below 2^32 |
| ColorUtilities.HexDigitValue | TAlex.WPF.Controls/Media/ColorUtilities.cs:79-108 | a character has a hex value exactly when it is 0-9, a-f or A-F, and that value is below 16 |
| ColorUtilities.HexValue | TAlex.WPF.Controls/Media/ColorUtilities.cs:79-108 | the value of an n-digit hex string is below 16^n |
| ColorUtilities.HexDigitChar | TAlex.WPF.Controls/Media/ColorUtilities.cs:47-50 | the upper-case digit written for d reads back as d |
| ColorUtilities.Hex2 | TAlex.WPF.Controls/Media/ColorUtilities.cs:47-50 | the two-digit `X2` form of a byte reads back as that byte and uses only 0-9 and A-F |
| ColorUtilities.ParseHexByte | TAlex.WPF.Controls/Media/ColorUtilities.cs:79-108 | a one- or two-character piece parses exactly when it is hex digits, to their value, or a hex digit followed by `\0`, which the parser accepts as trailing zeros, to that digit's value |
| ColorUtilities.NulAsLeadingZero | TAlex.WPF.Controls/Media/ColorUtilities.cs:79-108 | a piece ending in `\0` reads as its first character after a `0`; a piece without `\0` is unchanged |
| ColorUtilities.GetHexCode | TAlex.WPF.Controls/Media/ColorUtilities.cs:47-50 | the code is `#` followed by eight upper-case hex digits |
| ColorUtilities.GetHexCodeValue | TAlex.WPF.Controls/Media/ColorUtilities.cs:47-50 | the eight digits read back as the colour's ARGB value |
| ColorUtilities.StandardNameShape | TAlex.WPF.Controls/Media/ColorUtilities.cs:450-453 | the standard name has no spaces or lower-case letters, is no longer than the name, and standardising is idempotent |
| ColorUtilities.ParseColorText | TAlex.WPF.Controls/Media/ColorUtilities.cs:64-111 | empty text is a format error; a name whose standard form is known gives that colour |
| ColorUtilities.ParseColor | TAlex.WPF.Controls/Media/ColorUtilities.cs:59-112 | null throws and nothing else does so; otherwise the trimmed text without its `#` is parsed |
| ColorUtilities.ColorTextNoMargins | TAlex.WPF.Controls/Media/ColorUtilities.cs:61-62 | text without outer white space loses only a leading `#` |
| ColorUtilities.TryParseColor | TAlex.WPF.Controls/Media/ColorUtilities.cs:127-139 | true with ParseColor's colour when that succeeds; false with Transparent on a format error; null still throws |
| ColorUtilities.PiecesOneTwo | TAlex.WPF.Controls/Media/ColorUtilities.cs:81-84 | the one- and two-character forms read as blue only, opaque; a digit followed by `\0` reads as that digit |
| ColorUtilities.PiecesThreeFour | TAlex.WPF.Controls/Media/ColorUtilities.cs:86-90 | the three- and four-character forms split into green and blue and read as their hex value, opaque, each piece ending in `\0` read as its digit |
| ColorUtilities.PiecesFiveSix | TAlex.WPF.Controls/Media/ColorUtilities.cs:92-97 | the five- and six-character forms split into red, green and blue and read as their hex value, opaque, each piece ending in `\0` read as its digit |
| ColorUtilities.PiecesSevenEight | TAlex.WPF.Controls/Media/ColorUtilities.cs:99-105 | the seven- and eight-character forms split into alpha, red, green and blue and read as their hex value, each piece ending in `\0` read as its digit |
| ColorUtilities.ParseColorHex | TAlex.WPF.Controls/Media/ColorUtilities.cs:64-111 | a text that is not a known name parses exactly when it has 1 to 8 characters that are hex digits once each piece ending in `\0` is read as its digit; the colour is that hex value, made opaque when there are at most 6 characters; anything else is a format error |
| ColorUtilities.NulPiecesUnchanged | TAlex.WPF.Controls/Media/ColorUtilities.cs:79-108 | a text without `\0` is read as it stands |
| ColorUtilities.ParseColorHexDigits | TAlex.WPF.Controls/Media/ColorUtilities.cs:64-111 | a text without `\0` that is not a known name parses exactly when it is 1 to 8 hex digits, to the colour of their value, made opaque when there are at most 6 |
| ColorUtilities.ParseColorNulDigit | TAlex.WPF.Controls/Media/ColorUtilities.cs:81-84 | `#F\0` parses to (255, 0, 0, 15) |
| ColorUtilities.ParseColorNulSecondPiece | TAlex.WPF.Controls/Media/ColorUtilities.cs:86-90 | `FF\0` parses to (255, 0, 15, 15): the pieces are `F` and `F\0` |
| ColorUtilities.GetHexCodeRoundTrip | TAlex.WPF.Controls/Media/ColorUtilities.cs:47-112 | parsing a colour's hex code gives the colour back |
| ColorUtilities.ArgbInjective | TAlex.WPF.Controls/Media/ColorUtilities.cs:146-149 | two colours have the same ARGB value exactly when they are equal |
| ColorUtilities.ArgbChannels | TAlex.WPF.Controls/Media/ColorUtilities.cs:146-149 | each channel is recovered from its byte of the ARGB value |
| ColorUtilities.ColorToBgra32 | TAlex.WPF.Controls/Media/ColorUtilities.cs:146-149 | the `int` read as unsigned is the ARGB value; it is negative exactly when alpha is at least 0x80 |
| ColorUtilities.ColorToBgra32RgbOpaque | TAlex.WPF.Controls/Media/ColorUtilities.cs:158-161 | the r, g, b overload packs the opaque colour |
| ColorUtilities.ColorToBgra32Bytes | TAlex.WPF.Controls/Media/ColorUtilities.cs:146-149 | bytes 0 to 3 of the pixel are blue, green, red and alpha |
| ColorUtilities.ArgbBytes | TAlex.WPF.Controls/Media/ColorUtilities.cs:146-149 | any `int` whose unsigned value is a colour's ARGB value has that colour's channels as its bytes |
| ColorUtilities.FuzzyColorEquals | TAlex.WPF.Controls/Media/ColorUtilities.cs:308-311 | the comparison of alpha, red, green and blue holds exactly when the packed ARGB values are equal |
| ColorUtilities.SpaceBeforeUpper | TAlex.WPF.Controls/Media/ColorUtilities.cs:430-448 | inserting spaces never shortens the name |
| ColorUtilities.NiceColorName | TAlex.WPF.Controls/Media/ColorUtilities.cs:430-448 | the loop builds the name with a space before each ASCII upper-case letter, trimmed |
| ColorUtilities.GetKnownColorItems | TAlex.WPF.Controls/Media/ColorUtilities.cs:390-403 | one item per colour property, in order, with its nice name and colour |
| ColorUtilities.StandardNames | TAlex.WPF.Controls/Media/ColorUtilities.cs:27-36 | the table keys are the standard names of the items, in order |
| ColorUtilities.BuildKnownColors | TAlex.WPF.Controls/Media/ColorUtilities.cs:27-36 | the table is built exactly when no two items share a standard name; its keys are those names, each mapped to its item's colour |
| ColorUtilities.IsKnownColor | TAlex.WPF.Controls/Media/ColorUtilities.cs:330-343 | true exactly when some item has the colour, with the name of the first such item; false with no name otherwise |
| ColorUtilities.RemoveSpacesSpaceBeforeUpper | TAlex.WPF.Controls/Media/ColorUtilities.cs:430-453 | the spaces a nice name adds disappear again in the standard name |
| ColorUtilities.RemoveSpacesTrim | TAlex.WPF.Controls/Media/ColorUtilities.cs:430-453 | trimming a text whose only white space is spaces does not change its spaceless form |
| ColorUtilities.RemoveSpacesMargins | TAlex.WPF.Controls/Media/ColorUtilities.cs:430-453 | cutting off leading and trailing spaces does not change the spaceless form |
| ColorUtilities.SpaceBeforeUpperChars | TAlex.WPF.Controls/Media/ColorUtilities.cs:430-448 | every character of the spaced name is a space or a character of the name |
| ColorUtilities.StandardNameOfNiceName | TAlex.WPF.Controls/Media/ColorUtilities.cs:27-36 | a property name and its nice name have the same standard name, so either finds the colour |
| ColorUtilities.HexDigitsKey | TAlex.WPF.Controls/Media/ColorUtilities.cs:450-453 | upper-case hex digits are their own standard name |
| ColorUtilities.HashDigitsText | TAlex.WPF.Controls/Media/ColorUtilities.cs:61-62 | `#` followed by digits is reduced to the digits |
| ColorUtilities.ParseColorExample | TAlex.WPF.Controls/Media/ColorUtilities.cs:59-112 | with no hex-looking colour name, `#` and 1 to 8 hex digits parse to the colour of that value |
| ColorUtilities.PrefixHexValues | TAlex.WPF.Controls.Tests/Media/ColorUtilitiesTests.cs:111-118 | the hex values of the prefixes of FF40E0D0 |
| ColorUtilities.ParseColorOneDigit | TAlex.WPF.Controls.Tests/Media/ColorUtilitiesTests.cs:118 | the text `F` left after the `#` parses to (255, 0, 0, 15) |
| ColorUtilities.ParseColorThreeDigits | TAlex.WPF.Controls.Tests/Media/ColorUtilitiesTests.cs:116 | the text `FF4` left after the `#` parses to (255, 0, 15, 244) |
| ColorUtilities.ParseColorSixDigits | TAlex.WPF.Controls.Tests/Media/ColorUtilitiesTests.cs:113 | the text `FF40E0` left after the `#` parses to (255, 255, 64, 224) |
| ColorUtilities.ParseColorSevenDigits | TAlex.WPF.Controls.Tests/Media/ColorUtilitiesTests.cs:112 | the text `FF40E0D` left after the `#` parses to (15, 244, 14, 13) |
| ColorUtilities.ParseColorEightDigits | TAlex.WPF.Controls.Tests/Media/ColorUtilitiesTests.cs:111 | the text `FF40E0D0` left after the `#` parses to (255, 64, 224, 208) |
| ColorUtilities.SpaceBeforeUpperWord | TAlex.WPF.Controls/Media/ColorUtilities.cs:430-448 | a capitalised word gets one space in front |
| ColorUtilities.SpaceBeforeUpperExample | TAlex.WPF.Controls/Media/ColorUtilities.cs:430-448 | PaleGoldenrod is spaced as " Pale Goldenrod" |
| ColorUtilities.NiceNameExample | TAlex.WPF.Controls.Tests/Media/ColorUtilitiesTests.cs:52-65 | the nice name of PaleGoldenrod is "Pale Goldenrod" |
| ColorUtilities.PixelExample | TAlex.WPF.Controls.Tests/Media/ColorUtilitiesTests.cs:34-45 | PaleGreen packs to 0xFF98FB98 |
| ColorUtilities.HexCodeExample | TAlex.WPF.Controls.Tests/Media/ColorUtilitiesTests.cs:17-27 | OrangeRed's code is #FFFF4500 |
| ColorHelper.ColorToString | TAlex.WPF.Controls/Helpers/ColorHelper.cs:11-14 | the string is `#` and six upper-case hex digits |
| ColorHelper.ColorToStringDropsAlpha | TAlex.WPF.Controls/Helpers/ColorHelper.cs:11-14 | colours differing only in alpha give the same string |
| ColorHelper.ColorToStringValue | TAlex.WPF.Controls/Helpers/ColorHelper.cs:11-14 | the six digits read back as the RGB value |
| ColorHelper.ColorToStringRoundTrip | TAlex.WPF.Controls/Helpers/ColorHelper.cs:11-14 | parsing the string gives the colour made opaque |
| ColorHelper.BgrToRgbValue | TAlex.WPF.Controls/Helpers/ColorHelper.cs:16-19 | the swap's value is blue-green-red of the input's low three bytes |
| ColorHelper.BgrToRgbBytes | TAlex.WPF.Controls/Helpers/ColorHelper.cs:16-19 | bytes 0 and 2 are exchanged, byte 1 kept and byte 3 cleared |
| ColorHelper.LowBytes | TAlex.WPF.Controls/Helpers/ColorHelper.cs:16-19 | an `int` is determined below 2^24 by its three low bytes |
| ColorHelper.BgrToRgbTwice | TAlex.WPF.Controls/Helpers/ColorHelper.cs:16-19 | swapping twice keeps the low three bytes and clears the top byte |
| ColorHelper.BgrToRgbInvolution | TAlex.WPF.Controls/Helpers/ColorHelper.cs:16-19 | on values below 2^24 the swap is its own inverse |
| DecimalMath.RoundHalfEven | TAlex.WPF.Controls/Controls/NumericUpDown.cs:385-394 | the result is within one half of x, ties go to the even neighbour, and integers are kept |
| DecimalMath.RoundNearest | TAlex.WPF.Controls/Controls/NumericUpDown.cs:385-394 | the rounded value has dp places and is within half a unit of the last place |
| DecimalMath.RoundOnGrid | TAlex.WPF.Controls/Controls/NumericUpDown.cs:385-394 | a value with dp places is not changed by rounding |
| DecimalMath.RoundIdempotent | TAlex.WPF.Controls/Controls/NumericUpDown.cs:385-394 | rounding twice is rounding once |
| DecimalMath.RoundHalfEvenMonotone | TAlex.WPF.Controls/Controls/NumericUpDown.cs:385-394 | banker's rounding is monotone |
| DecimalMath.RoundMonotone | TAlex.WPF.Controls/Controls/NumericUpDown.cs:385-394 | rounding to dp places is monotone |
| DecimalMath.RoundHalfEvenExamples | TAlex.WPF.Controls/Controls/NumericUpDown.cs:385-394 | 2.5 and 3.5 round to 2 and 4, -2.5 to -2, 0.5 to 0 |
| NumericUpDown.StepPositive | TAlex.WPF.Controls/Controls/NumericUpDown.cs:487-500 | the smallest step for dp places is positive and has dp places |
| NumericUpDown.CoerceValueInRange | TAlex.WPF.Controls/Controls/NumericUpDown.cs:385-394 | the coerced value lies between Minimum and Maximum and has DecimalPlaces places |
| NumericUpDown.CoerceValueFixes | TAlex.WPF.Controls/Controls/NumericUpDown.cs:385-394 | a value already in range with DecimalPlaces places is kept |
| NumericUpDown.CoerceValueIdempotent | TAlex.WPF.Controls/Controls/NumericUpDown.cs:385-394 | coercing twice is coercing once |
| NumericUpDown.CoerceMaximumAboveMinimum | TAlex.WPF.Controls/Controls/NumericUpDown.cs:403-408 | the coerced Maximum is at least Minimum and has DecimalPlaces places |
| NumericUpDown.CoerceMinimumOnGrid | TAlex.WPF.Controls/Controls/NumericUpDown.cs:396-401 | the coerced Minimum has DecimalPlaces places |
| NumericUpDown.CoerceIncrementPositive | TAlex.WPF.Controls/Controls/NumericUpDown.cs:410-423 | the coerced Increment is never zero, and is positive with DecimalPlaces places for a valid base value |
| NumericUpDown.CoercedState | TAlex.WPF.Controls/Controls/NumericUpDown.cs:385-408 | coercing Minimum, then Maximum, then Value from any base values gives Minimum <= Value <= Maximum, all on the grid |
| NumericUpDown.IncreaseInRange | TAlex.WPF.Controls/Controls/NumericUpDown.cs:589-597 | an increase that stays within Maximum is not changed by coercion |
| NumericUpDown.DecreaseInRange | TAlex.WPF.Controls/Controls/NumericUpDown.cs:602-610 | a decrease that stays within Minimum is not changed by coercion |
| NumericUpDown.CoerceValueExamples | TAlex.WPF.Controls/Controls/NumericUpDown.cs:385-394 | 150 is clamped to 100, -3 to 0, and 2.345 rounds to 2.34 with two places |
| NumericUpDown.SmallestForDecimalPlaces | TAlex.WPF.Controls/Controls/NumericUpDown.cs:487-500 | a negative count throws; otherwise the loop yields 10^-dp |
| NumericUpDown.NumericUpDown.InRange | TAlex.WPF.Controls/Controls/NumericUpDown.cs:385-423 | in every valid state Minimum <= Value <= Maximum, Increment > 0, all on the grid |
| NumericUpDown.NumericUpDown.constructor | TAlex.WPF.Controls/Controls/NumericUpDown.cs:21-27 | defaults: Value 0, Minimum 0, Maximum 100, Increment 1, no decimal places |
| NumericUpDown.NumericUpDown.UpdateText | TAlex.WPF.Controls/Controls/NumericUpDown.cs:691-703 | the box shows the formatted value, which becomes the last valid input; the values are unchanged |
| NumericUpDown.NumericUpDown.RecoerceValue | TAlex.WPF.Controls/Controls/NumericUpDown.cs:320-339 | Value is recoerced from its base value; the text is refreshed exactly when Value changes |
| NumericUpDown.NumericUpDown.RecoerceMaximum | TAlex.WPF.Controls/Controls/NumericUpDown.cs:347-350 | Maximum is recoerced, and Value is recoerced when Maximum changed |
| NumericUpDown.NumericUpDown.RecoerceMinimum | TAlex.WPF.Controls/Controls/NumericUpDown.cs:341-345 | Minimum is recoerced, then Maximum and Value when it changed |
| NumericUpDown.NumericUpDown.SetValue | TAlex.WPF.Controls/Controls/NumericUpDown.cs:320-339 | Value becomes the coerced new value; bounds and increment are unchanged; the invariant is kept |
| NumericUpDown.NumericUpDown.SetMinimum | TAlex.WPF.Controls/Controls/NumericUpDown.cs:341-345 | Minimum becomes the coerced new value and Value stays within the bounds |
| NumericUpDown.NumericUpDown.SetMaximum | TAlex.WPF.Controls/Controls/NumericUpDown.cs:347-350 | Maximum becomes the coerced new value (never below Minimum) and Value stays within the bounds |
| NumericUpDown.NumericUpDown.SetIncrement | TAlex.WPF.Controls/Controls/NumericUpDown.cs:410-429 | a non-positive increment is refused and nothing changes; otherwise it is coerced and positive |
| NumericUpDown.NumericUpDown.SetDecimalPlaces | TAlex.WPF.Controls/Controls/NumericUpDown.cs:356-366 | a negative count is refused; otherwise everything is recoerced to the new grid and the text is refreshed; the base values, the caret and the read-only flag are kept |
| NumericUpDown.NumericUpDown.UpdateValue | TAlex.WPF.Controls/Controls/NumericUpDown.cs:708-714 | a pending typed value different from Value is committed through coercion and becomes the base value; a changed value is shown formatted and accepted as the input; the other properties, the caret and the read-only flag are kept |
| NumericUpDown.NumericUpDown.OnIncrease | TAlex.WPF.Controls/Controls/NumericUpDown.cs:589-597 | the committed value goes up by Increment unless that passes Maximum, and the base value follows; a changed value is shown formatted and accepted as the input; the other base values, the caret and the read-only flag are kept |
| NumericUpDown.NumericUpDown.OnDecrease | TAlex.WPF.Controls/Controls/NumericUpDown.cs:602-610 | the committed value goes down by Increment unless that passes Minimum, and the base value follows; a changed value is shown formatted and accepted as the input; the other base values, the caret and the read-only flag are kept |
| NumericUpDown.NumericUpDown.GotFocus | TAlex.WPF.Controls/Controls/NumericUpDown.cs:612-620 | the box shows the formatted value; the values, base values, caret and read-only flag are unchanged |
| NumericUpDown.NumericUpDown.LostFocus | TAlex.WPF.Controls/Controls/NumericUpDown.cs:622-626 | the typed value is committed, becomes the base value when it differs, stays in range and is shown formatted; the caret and the read-only flag are kept |
| NumericUpDown.NumericUpDown.KeyDown | TAlex.WPF.Controls/Controls/NumericUpDown.cs:662-686 | Up and Down step when arrow keys are intercepted, a changed value shown formatted; Return commits; exactly those three keys are handled; other keys change nothing; the caret, the read-only flag and the bounds' base values are kept |
| NumericUpDown.NumericUpDown.ReturnPreviousInput | TAlex.WPF.Controls/Controls/NumericUpDown.cs:716-724 | the box goes back to the last valid input with the caret one place left |
| NumericUpDown.NumericUpDown.TextChanged | TAlex.WPF.Controls/Controls/NumericUpDown.cs:628-660 | read-only text is taken as is; empty text or a lone minus sign is left pending; a number is taken unless a separator is typed with no decimal places; anything else returns to the last valid input with the caret one place left; in the other cases the caret stays where it was typed; the values and base values are kept |
| NumericUpDown.AutomationSetValue | TAlex.WPF.Controls/Controls/NumericUpDown.cs:874-890 | a disabled control, a `double` that does not convert to `decimal` (NaN, the infinities, 2^96 and beyond) and a value outside the bounds each throw and change nothing; otherwise Value is set through coercion, and a changed value is shown formatted and accepted as the input; the bounds, increment, decimal places, their base values, the caret and the read-only flag are always kept |
| NumericUpDown.DoubleToDecimal | TAlex.WPF.Controls/Controls/NumericUpDown.cs:880 | the conversion fails exactly for NaN, the infinities and magnitudes of 2^96 or more, and otherwise keeps the number |
| HtmlObject.RecordValidation | TAlex.WPF.Controls/Models/HtmlObject.cs:61-79 | the property is recorded exactly when its error is non-empty, with that error; other properties keep their records |
| HtmlObject.ErrorMessage | TAlex.WPF.Controls/Models/HtmlObject.cs:39-45 | as written, the text "Model is invalid." is returned exactly when `IsValid` is true, and null otherwise |
| HtmlObject.RecordCleared | TAlex.WPF.Controls/Models/HtmlObject.cs:61-79 | after a successful validation the property has no recorded error |
| HtmlObject.RecordIdempotent | TAlex.WPF.Controls/Models/HtmlObject.cs:61-79 | recording the same outcome twice is recording it once |
| HtmlObject.LinkHtml | TAlex.WPF.Controls/Models/HtmlObject.cs:127-130 | the anchor is `<a href="`, the URL, `">`, the text and `</a>`, with null as empty |
| HtmlObject.LinkHtmlReadBack | TAlex.WPF.Controls/Models/HtmlObject.cs:127-130 | when the URL holds no double quote, the anchor determines both the URL and the text |
| HtmlObject.HyperlinkObject.constructor | TAlex.WPF.Controls/Models/HtmlObject.cs:97-123 | a new hyperlink has no URL, no text, no recorded errors, and is not valid |
| HtmlObject.HyperlinkObject.Text | TAlex.WPF.Controls/Models/HtmlObject.cs:111-123 | the text falls back to the URL when it is empty |
| HtmlObject.HyperlinkObject.ToHtml | TAlex.WPF.Controls/Models/HtmlObject.cs:111-130 | the anchor's href is the URL; its content is the text, or the URL when the text is null or empty |
| HtmlObject.HyperlinkObject.LinkShowsUrl | TAlex.WPF.Controls/Models/HtmlObject.cs:111-130 | with empty text the link shows its URL |
| HtmlObject.HyperlinkObject.ValidateUrl | TAlex.WPF.Controls/Models/HtmlObject.cs:147-156 | an empty URL and one the URI check rejects have an error; a valid one has none |
| HtmlObject.HyperlinkObject.ValidateProperty | TAlex.WPF.Controls/Models/HtmlObject.cs:134-145 | only the Url property is validated |
| HtmlObject.HyperlinkObject.Error | TAlex.WPF.Controls/Models/HtmlObject.cs:39-45 | the `Error` text follows `IsValid` as written |
| HtmlObject.HyperlinkObject.SetUrl | TAlex.WPF.Controls/Models/HtmlObject.cs:97-109 | the URL is stored and nothing else changes |
| HtmlObject.HyperlinkObject.SetText | TAlex.WPF.Controls/Models/HtmlObject.cs:111-123 | the text is stored and nothing else changes |
| HtmlObject.HyperlinkObject.Item | TAlex.WPF.Controls/Models/HtmlObject.cs:61-79 | the indexer returns the property's error, records or clears it, and sets IsValid exactly when no errors are recorded |
| HtmlObject.ImageHead | TAlex.WPF.Controls/Models/HtmlObject.cs:325-328 | the element opens with `<img src="` and the source, and the attributes end with a quote and a space |
| HtmlObject.ImageHeadAttributes | TAlex.WPF.Controls/Models/HtmlObject.cs:325-328 | after the source come `" alt="` and the alternative text, `" width="` and the width, `" height="` and the height, at the stated positions |
| HtmlObject.ImageHtml | TAlex.WPF.Controls/Models/HtmlObject.cs:323-329 | the head, then a `title="…"` attribute exactly when the title is neither null nor empty, then ` />` |
| HtmlObject.ImageTitleDecides | TAlex.WPF.Controls/Models/HtmlObject.cs:323-329 | with everything else equal, two images have the same markup exactly when both have no title or both the same title |
| HtmlObject.ImageObject.constructor | TAlex.WPF.Controls/Models/HtmlObject.cs:314-317 | a new image is embedded, has no source and all sizes 0, no recorded errors, and is not valid |
| HtmlObject.ImageObject.SetOriginalWidth | TAlex.WPF.Controls/Models/HtmlObject.cs:193-206 | the original width is stored and the width is set to the same value; source, texts and embedding are kept |
| HtmlObject.ImageObject.SetOriginalHeight | TAlex.WPF.Controls/Models/HtmlObject.cs:222-235 | the original height is stored and the height is set to the same value; source, texts and embedding are kept |
| HtmlObject.ImageObject.SetWidth | TAlex.WPF.Controls/Models/HtmlObject.cs:179-191 | the width is stored and nothing else changes |
| HtmlObject.ImageObject.SetHeight | TAlex.WPF.Controls/Models/HtmlObject.cs:208-220 | the height is stored and nothing else changes |
| HtmlObject.ImageObject.SetResizeRate | TAlex.WPF.Controls/Models/HtmlObject.cs:293-308 | width and height become the originals scaled by the rate and rounded |
| HtmlObject.ImageObject.SetValidState | TAlex.WPF.Controls/Models/HtmlObject.cs:331-334 | `IsValid` becomes true; the recorded validation errors are kept as they were (the source does not clear them); sizes, rate, source, texts and embedding are kept |
| HtmlObject.ImageObject.SetInvalidState | TAlex.WPF.Controls/Models/HtmlObject.cs:336-342 | a failed image is not valid; its original height, width, height and resize rate become 0, the original width, the recorded errors, source, texts and embedding are kept |
| HtmlObject.ImageObject.ValidateProperty | TAlex.WPF.Controls/Models/HtmlObject.cs:344-347 | no image property has an error of its own; validity comes from the load state |
| HtmlObject.ImageObject.Item | TAlex.WPF.Controls/Models/HtmlObject.cs:61-79 | the indexer returns no error, clears the property's record and sets IsValid from the remaining records; sizes, rate, source, texts and embedding are kept |
| HtmlObject.ImageObject.Error | TAlex.WPF.Controls/Models/HtmlObject.cs:39-45 | the `Error` text follows `IsValid` as written |
| HtmlObject.ImageObject.ToHtml | TAlex.WPF.Controls/Models/HtmlObject.cs:323-361 | given the resolved source, which `GetSource` makes the source itself (null as empty) for a linked image: the img element of that source, alt text, width and height, with a title attribute holding the title exactly when there is one |
| HtmlObject.RepeatLength | TAlex.WPF.Controls/Models/HtmlObject.cs:483-504 | n copies of a string are n times as long |
| HtmlObject.RepeatAdd | TAlex.WPF.Controls/Models/HtmlObject.cs:483-504 | a+b copies are a copies followed by b copies |
| HtmlObject.RepeatSplit | TAlex.WPF.Controls/Models/HtmlObject.cs:483-504 | each copy sits at its multiple of the length |
| HtmlObject.TableLength | TAlex.WPF.Controls/Models/HtmlObject.cs:483-504 | the table markup's length follows from the row and column counts |
| HtmlObject.TableCell | TAlex.WPF.Controls/Models/HtmlObject.cs:483-504 | every cell of the grid is an empty td element in its row |
| HtmlObject.DefaultTableHtml | TAlex.WPF.Controls/Models/HtmlObject.cs:473-504 | the default 2-by-2 table at width 100% is its opening tag, two rows of two cells, and the closing tag |
| HtmlObject.TableObject.constructor | TAlex.WPF.Controls/Models/HtmlObject.cs:473-479 | 2 rows, 2 columns, width 100 in percent, no recorded errors and not valid |
| HtmlObject.TableObject.ToHtml | TAlex.WPF.Controls/Models/HtmlObject.cs:483-504 | the nested loops build the table markup: the opening tag, then per row a tr element of one empty td per column |
| HtmlObject.TableObject.ValidateProperty | TAlex.WPF.Controls/Models/HtmlObject.cs:506-509 | a table property never has an error |
| HtmlObject.TableObject.Item | TAlex.WPF.Controls/Models/HtmlObject.cs:61-79 | the indexer returns no error, clears the property's record and sets IsValid from the remaining records |
| HtmlObject.TableObject.Error | TAlex.WPF.Controls/Models/HtmlObject.cs:39-45 | the `Error` text follows `IsValid` as written |
| DragDropManager.IndexOf | TAlex.WPF.Controls/Services/DragAndDrop/ItemsControlDragDropManager.cs:280-287 | the first position of x, or -1 exactly when x is absent |
| DragDropManager.Removed | TAlex.WPF.Controls/Services/DragAndDrop/ItemsControlDragDropManager.cs:289-293 | removing an item shortens the list by one |
| DragDropManager.Inserted | TAlex.WPF.Controls/Services/DragAndDrop/ItemsControlDragDropManager.cs:289-293 | inserting puts x at its index and lengthens the list by one |
| DragDropManager.RemovedMultiset | TAlex.WPF.Controls/Services/DragAndDrop/ItemsControlDragDropManager.cs:289-293 | removal takes out exactly that item |
| DragDropManager.InsertedMultiset | TAlex.WPF.Controls/Services/DragAndDrop/ItemsControlDragDropManager.cs:289-293 | insertion adds exactly that item |
| DragDropManager.ItemList.constructor | TAlex.WPF.Controls/Services/DragAndDrop/ItemsControlDragDropManager.cs:154-184 | a list holding the given items, fixed-size or resizable as given |
| DragDropManager.ItemList.RemoveAt | TAlex.WPF.Controls/Services/DragAndDrop/ItemsControlDragDropManager.cs:289-293 | `IList.RemoveAt`: a fixed-size list (array, read-only collection) throws NotSupportedException; otherwise the item at a valid index is removed and another index throws ArgumentOutOfRangeException; a throw leaves the list alone |
| DragDropManager.ItemList.Insert | TAlex.WPF.Controls/Services/DragAndDrop/ItemsControlDragDropManager.cs:289-293 | `IList.Insert`: a fixed-size list throws NotSupportedException; otherwise x is inserted at an index in `[0, Count]` and another index throws ArgumentOutOfRangeException; a throw leaves the list alone |
| DragDropManager.GetItems | TAlex.WPF.Controls/Services/DragAndDrop/ItemsControlDragDropManager.cs:154-184 | the control's own items, its list source, or the view's source collection when it is a list with all items in the view; nothing otherwise |
| DragDropManager.InsertIndex | TAlex.WPF.Controls/Services/DragAndDrop/ItemsControlDragDropManager.cs:280-287 | the index over the target, one less when moving down within a control, one more below the item, clamped to the list |
| DragDropManager.MovePermutes | TAlex.WPF.Controls/Services/DragAndDrop/ItemsControlDragDropManager.cs:289-293 | a move within one list keeps the length and the items and puts the item at the new index |
| DragDropManager.DropWithinList | TAlex.WPF.Controls/Services/DragAndDrop/ItemsControlDragDropManager.cs:245-313 | a drop within one list only reorders it and ends the drag |
| DragDropManager.DropAcrossLists | TAlex.WPF.Controls/Services/DragAndDrop/ItemsControlDragDropManager.cs:245-313 | a drop between lists moves exactly the dragged item from source to target, at the insert index |
| DragDropManager.DropWithinListSucceeds | TAlex.WPF.Controls/Services/DragAndDrop/ItemsControlDragDropManager.cs:245-313 | dropping an item of a list of distinct items over another of its items throws nothing when the list is resizable; a fixed-size list throws NotSupportedException exactly when the item would move |
| DragDropManager.ScrollTarget | TAlex.WPF.Controls/Services/DragAndDrop/ItemsControlDragDropManager.cs:416-443 | only a non-empty list box with a target scrolls; the index is in the list; near the top it is the item before the target, clamped at 0; near the bottom the item after it, clamped at the last; in the middle band nothing |
| DragDropManager.ScrollToNeighbour | TAlex.WPF.Controls/Services/DragAndDrop/ItemsControlDragDropManager.cs:416-443 | for an item of the list the scroll happens exactly near an edge, brings the neighbour on that side into view, and stays on the item only when it is already first or last |
| DragDropManager.Move | TAlex.WPF.Controls/Services/DragAndDrop/ItemsControlDragDropManager.cs:289-293 | remove from the source and insert into the target, in place on both lists, which may be the same; a fixed-size list refuses its step |
| DragDropManager.ItemsControlDragDropManager.constructor | TAlex.WPF.Controls/Services/DragAndDrop/ItemsControlDragDropManager.cs:193-195 | no drag in progress, the default adorner opacity, no target |
| DragDropManager.ItemsControlDragDropManager.SetDragAdornerOpacity | TAlex.WPF.Controls/Services/DragAndDrop/ItemsControlDragDropManager.cs:116-133 | refused during a drag, and below 0 or above 1 (the infinities included); otherwise stored, NaN included, since it fails both comparisons of the guard |
| DragDropManager.ItemsControlDragDropManager.SetTargetElement | TAlex.WPF.Controls/Services/DragAndDrop/ItemsControlDragDropManager.cs:62-110 | refused during a drag; otherwise stored, the adorner layer forgotten, and a data format created if there was none |
| DragDropManager.ItemsControlDragDropManager.Drop | TAlex.WPF.Controls/Services/DragAndDrop/ItemsControlDragDropManager.cs:245-313 | data the manager cannot drag throws ArgumentNullException from `DoDragDrop(null, null, ...)` and changes nothing; otherwise the lists change as the drop outcome says; a handled drop ends the drag |
| DragDropManager.MoveDragged | TAlex.WPF.Controls/Services/DragAndDrop/ItemsControlDragDropManager.cs:276-293 | past the early exits, the indices are chosen and the item moved unless it stays in place, with the drop outcome's exception, lists and end of drag |
| ColorPickerDialog.IndexOfCell | TAlex.WPF.Controls/CommonDialogs/ColorPickerDialog.xaml.cs:550-556 | a row and column of the 256-by-256 bitmap give an index in range that gives them back |
| ColorPickerDialog.CellOfIndex | TAlex.WPF.Controls/CommonDialogs/ColorPickerDialog.xaml.cs:550-556 | every pixel index is a row and column |
| ColorPickerDialog.OpaquePixelBits | TAlex.WPF.Controls/CommonDialogs/ColorPickerDialog.xaml.cs:550-556 | an opaque pixel packs its colour |
| ColorPickerDialog.OpaquePixel | TAlex.WPF.Controls/CommonDialogs/ColorPickerDialog.xaml.cs:550-556 | the packed opaque pixel is determined by and shows its channels |
| ColorPickerDialog.RedDetailsCell | TAlex.WPF.Controls/CommonDialogs/ColorPickerDialog.xaml.cs:546-562 | in the red bitmap, row g and column b hold (r, 255-g, b) |
| ColorPickerDialog.GreenDetailsCell | TAlex.WPF.Controls/CommonDialogs/ColorPickerDialog.xaml.cs:607-623 | in the green bitmap, row r and column b hold (255-r, g, b) |
| ColorPickerDialog.BlueDetailsCell | TAlex.WPF.Controls/CommonDialogs/ColorPickerDialog.xaml.cs:668-684 | in the blue bitmap, row g and column r hold (r, 255-g, b) |
| ColorPickerDialog.RgbColorSelector.constructor | TAlex.WPF.Controls/CommonDialogs/ColorPickerDialog.xaml.cs:527 | a fresh pixel buffer of 256 times 256 |
| ColorPickerDialog.RgbColorSelector.PaintPixel | TAlex.WPF.Controls/CommonDialogs/ColorPickerDialog.xaml.cs:550-556 | one pixel gets the opaque colour and no other changes |
| ColorPickerDialog.RgbColorSelector.RedDetails | TAlex.WPF.Controls/CommonDialogs/ColorPickerDialog.xaml.cs:546-562 | every pixel of the red bitmap has its colour |
| ColorPickerDialog.RgbColorSelector.GreenDetails | TAlex.WPF.Controls/CommonDialogs/ColorPickerDialog.xaml.cs:607-623 | every pixel of the green bitmap has its colour |
| ColorPickerDialog.RgbColorSelector.BlueDetails | TAlex.WPF.Controls/CommonDialogs/ColorPickerDialog.xaml.cs:668-684 | every pixel of the blue bitmap has its colour |
| ColorPickerDialog.HexCodeParses | TAlex.WPF.Controls/CommonDialogs/ColorPickerDialog.xaml.cs:209-220 | the hex code the dialog writes always parses |
| ColorPickerDialog.HexValueBox.constructor | TAlex.WPF.Controls/CommonDialogs/ColorPickerDialog.xaml.cs:419-451 | an empty box with no last input |
| ColorPickerDialog.HexValueBox.ColorChanged | TAlex.WPF.Controls/CommonDialogs/ColorPickerDialog.xaml.cs:209-220 | the box shows the colour's hex code, which becomes the last valid input when it changed |
| ColorPickerDialog.HexValueBox.TextChanged | TAlex.WPF.Controls/CommonDialogs/ColorPickerDialog.xaml.cs:419-451 | empty text or a lone `#` waits; a parsable code is entered and remembered; anything else returns to the last valid input with the caret one place left |
| ColorPickerDialog.HexValueBox.FocusWithinChanged | TAlex.WPF.Controls/CommonDialogs/ColorPickerDialog.xaml.cs:453-461 | losing focus restores the last valid input |
| BusyIndicator.BusyStateName | TAlex.WPF.Controls/Controls/BusyIndicator.cs:223-227 | Busy exactly when busy, Idle exactly when not |
| BusyIndicator.VisibilityStateName | TAlex.WPF.Controls/Controls/BusyIndicator.cs:223-227 | Visible exactly when the content is visible, Hidden exactly when not |
| BusyIndicator.BusyIndicator.constructor | TAlex.WPF.Controls/Controls/BusyIndicator.cs:55-58 | not busy, hidden, timer stopped, DisplayAfter 0.1 s |
| BusyIndicator.BusyIndicator.ChangeVisualState | TAlex.WPF.Controls/Controls/BusyIndicator.cs:223-227 | both groups go to the states of the current flags |
| BusyIndicator.BusyIndicator.ApplyTemplate | TAlex.WPF.Controls/Controls/BusyIndicator.cs:232-236 | applying the template sets the visual states and keeps the invariant, the flags, the timer and the delay |
| BusyIndicator.BusyIndicator.OnIsBusyChanged | TAlex.WPF.Controls/Controls/BusyIndicator.cs:181-205 | busy with no delay shows the content; busy with a delay of at most `int.MaxValue` milliseconds starts the timer with it; a longer delay throws `ArgumentOutOfRangeException` (exactly then), leaving the timer stopped, the content hidden and the visual states as they were; idle stops the timer and hides the content |
| BusyIndicator.BusyIndicator.SetIsBusy | TAlex.WPF.Controls/Controls/BusyIndicator.cs:172-205 | setting the same value changes nothing; a change runs the callback and stores the value even when it throws; the throw happens exactly when becoming busy with a delay above `int.MaxValue` milliseconds; otherwise the invariant is kept |
| BusyIndicator.BusyIndicator.SetDisplayAfter | TAlex.WPF.Controls/Controls/BusyIndicator.cs:112-122 | the delay is stored; a running timer keeps its interval |
| BusyIndicator.BusyIndicator.TimerTick | TAlex.WPF.Controls/Controls/BusyIndicator.cs:212-217 | the timer stops and the content of the busy indicator becomes visible |
| ImageEx.NextFrame | TAlex.WPF.Controls/Controls/ImageEx.cs:123-127 | the next index is the first frame or the index plus one in unchecked arithmetic; below the last frame it is the index plus one |
| ImageEx.NextFrameInRange | TAlex.WPF.Controls/Controls/ImageEx.cs:123-127 | an index within the frames stays within them and wraps after the last |
| ImageEx.NextFrameOverflows | TAlex.WPF.Controls/Controls/ImageEx.cs:125 | with int.MaxValue as last frame the index overflows to int.MinValue |
| ImageEx.NextFrameBelowFirst | TAlex.WPF.Controls/Controls/ImageEx.cs:123-127 | an index below the first frame counts up |
| ImageEx.TicksFromFirst | TAlex.WPF.Controls/Controls/ImageEx.cs:123-127 | from the first frame, j ticks reach frame first + j |
| ImageEx.FrameCycle | TAlex.WPF.Controls/Controls/ImageEx.cs:123-127 | one full cycle of ticks returns to the first frame |
| ImageEx.ImageEx.constructor | TAlex.WPF.Controls/Controls/ImageEx.cs:87-97 | not frame based, not loaded, timer off, all indices 0 |
| ImageEx.ImageEx.SetIsFrameBased | TAlex.WPF.Controls/Controls/ImageEx.cs:46-61 | the flag is stored; the timer follows it while loaded |
| ImageEx.ImageEx.Loaded | TAlex.WPF.Controls/Controls/ImageEx.cs:129-135 | a frame-based image starts its timer |
| ImageEx.ImageEx.Unloaded | TAlex.WPF.Controls/Controls/ImageEx.cs:137-140 | the timer stops |
| ImageEx.ImageEx.Tick | TAlex.WPF.Controls/Controls/ImageEx.cs:123-127 | the index moves to the next frame and stays within the frames |
| CamelTextToRegularTextConverter.SplitCountSnoc | TAlex.WPF.Controls/Converters/CamelTextToRegularTextConverter.cs:28 | extending the counted range by one position adds one exactly at a split position |
| CamelTextToRegularTextConverter.SpaceFromLayout | TAlex.WPF.Controls/Converters/CamelTextToRegularTextConverter.cs:28 | every character keeps its order at its offset, with one space inserted before each split position and nothing else |
| CamelTextToRegularTextConverter.OffsetStep | TAlex.WPF.Controls/Converters/CamelTextToRegularTextConverter.cs:28 | consecutive characters are one apart, or two apart at a split |
| CamelTextToRegularTextConverter.Convert | TAlex.WPF.Controls/Converters/CamelTextToRegularTextConverter.cs:23-32 | null gives null; the result is no shorter than the trimmed text and starts with its first character |
| CamelTextToRegularTextConverter.ConvertLayout | TAlex.WPF.Controls/Converters/CamelTextToRegularTextConverter.cs:23-32 | the result is the trimmed text with exactly one space before every upper-case letter that starts a word: one followed by a lower-case letter, or one following a lower-case letter |
| CamelTextToRegularTextConverter.ConvertSomeText | TAlex.WPF.Controls.Tests/Converters/CamelTextToRegularTextConverterTests.cs:25-35 | SomeText gives "Some Text" |
| CamelTextToRegularTextConverter.ConvertAcronymAndDigits | TAlex.WPF.Controls.Tests/Converters/CamelTextToRegularTextConverterTests.cs:38-74 | IBM is unchanged and P346Sid gives "P346 Sid" |
| CamelTextToRegularTextConverter.ConvertCapitalRun | TAlex.WPF.Controls.Tests/Converters/CamelTextToRegularTextConverterTests.cs:51-61 | an acronym before a word is split off: WCFIn gives "WCF In" |
| CamelTextToRegularTextConverter.ConvertNotIdempotent | TAlex.WPF.Controls/Converters/CamelTextToRegularTextConverter.cs:28 | a space is added even where one already is: "Some Text" gives "Some  Text" |
| NotEmptyStringToBooleanConverter.IsNullOrWhiteSpace | TAlex.WPF.Controls/Converters/NotEmptyStringToBooleanConverter.cs:44-60 | the loop answers true exactly for null or all-white-space text |
| NotEmptyStringToBooleanConverter.Convert | TAlex.WPF.Controls/Converters/NotEmptyStringToBooleanConverter.cs:33-42 | true for text with a non-white-space character, negated when reversed |
| NotEmptyStringToBooleanConverter.ConvertMeansNotBlank | TAlex.WPF.Controls/Converters/NotEmptyStringToBooleanConverter.cs:33-60 | unreversed, true exactly when the text exists and has a non-white-space character |
| NotEmptyStringToBooleanConverter.ReversedNegates | TAlex.WPF.Controls/Converters/NotEmptyStringToBooleanConverter.cs:33-42 | reversing negates the answer, for null too |
| NotEmptyStringToBooleanConverter.ConvertExamples | TAlex.WPF.Controls.Tests/Converters/NotEmptyStringToBoolConverterTests.cs:25-76 | text gives true; empty, blank and null give false; reversed, empty gives true and text false |
| BooleanToVisibilityConverter.Convert | TAlex.WPF.Controls/Converters/BooleanToVisibilityConverter.cs:34-49 | Visible exactly for boxed true; otherwise Hidden when UseHidden and Collapsed when not |
| BooleanToVisibilityConverter.ConvertBack | TAlex.WPF.Controls/Converters/BooleanToVisibilityConverter.cs:59-68 | null gives null; a visibility, a boxed byte or a byte-backed enumeration value gives whether it is Visible (0); anything else, a boxed int included, is an invalid cast |
| BooleanToVisibilityConverter.ConvertBackConvert | TAlex.WPF.Controls/Converters/BooleanToVisibilityConverter.cs:34-68 | converting a bool and back gives the bool |
| BooleanToVisibilityConverter.ConvertConvertBack | TAlex.WPF.Controls/Converters/BooleanToVisibilityConverter.cs:34-68 | a visibility that Convert can produce survives the round trip |
| BooleanToVisibilityConverter.BooleanToVisibilityConverter.constructor | TAlex.WPF.Controls/Converters/BooleanToVisibilityConverter.cs:75-78 | a converter with the given UseHidden |
| BooleanToVisibilityConverter.BooleanToVisibilityConverter.ProvideValue | TAlex.WPF.Controls/Converters/BooleanToVisibilityConverter.cs:75-78 | the markup extension provides a new converter with the same UseHidden |
| IsNotNullToBooleanConverter.Convert | TAlex.WPF.Controls/Converters/IsNotNullToBooleanConverter.cs:33-36 | true exactly for a non-null value, negated when reversed |
| IsNotNullToBooleanConverter.ReversedNegates | TAlex.WPF.Controls/Converters/IsNotNullToBooleanConverter.cs:33-36 | reversing negates the answer |
| IsNotNullToBooleanConverter.ConvertExamples | TAlex.WPF.Controls.Tests/Converters/IsNotNullToBoolConverterTests.cs:25-74 | 5 gives true and null false; reversed, null gives true and 5 false |
| WidthUnitToMaxWidthConverter.Convert | TAlex.WPF.Controls/Converters/WidthUnitToMaxWidthConverter.cs:13-26 | "%" gives 100, "px" gives 999999, another string or null gives null, and a non-string is an invalid cast |
| EnumToBooleanConverter.Convert | TAlex.WPF.Controls/Converters/EnumToBooleanConverter.cs:13-16 | a null value throws; otherwise whether the value equals the parameter |
| EnumToBooleanConverter.ConvertBack | TAlex.WPF.Controls/Converters/EnumToBooleanConverter.cs:18-21 | a null value throws; true gives the parameter; anything else leaves the source alone |
| EnumToBooleanConverter.ConvertConvertBack | TAlex.WPF.Controls/Converters/EnumToBooleanConverter.cs:13-21 | the value that checking a radio button writes back converts to checked |
| EnumToBooleanConverter.ConvertBackNullParameter | TAlex.WPF.Controls/Converters/EnumToBooleanConverter.cs:13-21 | with a null parameter, checking writes null, which Convert then rejects |
| Int32ToDecimalConverter.TruncateTowardZero | TAlex.WPF.Controls/Converters/Int32ToDecimalConverter.cs:35-38 | the result is the integer part: at most one away from the value, toward zero |
| Int32ToDecimalConverter.Convert | TAlex.WPF.Controls/Converters/Int32ToDecimalConverter.cs:22-25 | a boxed int, or a boxed enumeration value whose underlying type is int, becomes the same number as a decimal; null throws; another type is an invalid cast |
| Int32ToDecimalConverter.ConvertBack | TAlex.WPF.Controls/Converters/Int32ToDecimalConverter.cs:35-38 | a decimal is truncated, and overflows outside the int range; null throws; another type is an invalid cast |
| Int32ToDecimalConverter.ConvertBackConvertEnum | TAlex.WPF.Controls/Converters/Int32ToDecimalConverter.cs:22-38 | an int-backed enumeration value converts and comes back as its number |
| Int32ToDecimalConverter.ConvertBackConvert | TAlex.WPF.Controls/Converters/Int32ToDecimalConverter.cs:22-38 | every int survives the round trip through decimal |
| Int32ToDecimalConverter.ConvertBackTruncates | TAlex.WPF.Controls/Converters/Int32ToDecimalConverter.cs:35-38 | 346 gives 346 (the case of IntToDecimalConverterTests.cs), 2.7 gives 2, -2.7 gives -2, 2147483648 overflows |
| EnumerableExtensions.Enumerator.constructor | TAlex.WPF.Controls/Helpers/EnumerableExtensions.cs:12-22 | an enumerator before the first item |
| EnumerableExtensions.Enumerator.MoveNext | TAlex.WPF.Controls/Helpers/EnumerableExtensions.cs:12-22 | moves past one more item while there is one, and says whether it did |
| EnumerableExtensions.Count | TAlex.WPF.Controls/Helpers/EnumerableExtensions.cs:12-22 | a collection answers its Count without enumerating; otherwise MoveNext is called once per item and once more; the count is the number of items in unchecked int arithmetic |

## Left out

- HSV conversion (`RgbToHsv`, `HsvToRgb`, the HSV branch of `FuzzyColorEquals`) and gamma: floating-point code.
- The known-colour table is built by reflection over `System.Windows.Media.Colors`. `BuildKnownColors` and `GetKnownColorItems` take the list of properties as a parameter.
- `GetKnownColorsWithoutTransparent`: it only filters out one entry of `GetKnownColorItems`.
- Culture-specific number parsing and formatting (`decimal.TryParse`, `ToString("F")`, the negative sign and decimal separator): these are parameters of `NumericUpDown`.
- `decimal`'s 96-bit range and its 28-digit scale limit are not modelled. `DecimalPlaces` above 28 is refused.
- SpaceBeforeUpper tests for an ASCII upper-case letter, where the source uses `Char.IsUpper`, which also accepts non-ASCII capitals such as `É`; NiceColorName inherits this. The names it is applied to are the `Colors` property names, which are ASCII.
- GetStandardColorName upper-cases ASCII letters only, where the source's `ToUpper()` follows the current culture. Under a Turkish culture the source's key for "White" is "WHİTE", and .NET maps `ſ` to `S`; the model's lookup differs on such inputs. ParseColorText, ParseColor and StandardNameShape inherit this ASCII-only case mapping.
- IsKnownColor compares colours by their four bytes. The source uses `Color.AreClose` over the scRGB floating-point channels, and `Color` here holds only the bytes; a colour made by `FromScRgb` or the HSV path with the same bytes as a known colour but different scRGB values counts as known in the model and not in the source.
- UpdateText sets the pending input to the value directly, standing for the text box's `TextChanged` echo. That assumes `decimal.TryParse` of the formatted text gives the value back. The model does not require this of the `format` parameter, and `TextChanged` takes the parsed value as a parameter. It also assumes the template's text box exists; when it is null the source changes no text.
- AutomationSetValue takes the `decimal` of a finite `double` to be the number itself; the conversion's rounding to about 15 significant digits, and to 0 below 10^-28, is not modelled.
- DropOutcome finds the dragged and the hovered item by value equality; the source compares references, which differs only when a list holds equal items that are distinct objects.
- `HtmlObject.ImageObject.SetResizeRate` rounds exactly in real arithmetic, not through `double`. It requires the scaled sizes to stay in the `int` range.
- Loading the image through `GetSource` (I/O), and `Uri.TryCreate`: the load outcome and the URI check are parameters.
- The colour picker's HSV hand-off of the entered colour, and WPF's own clamping of the selection, are not modelled.
- Drag-and-drop adorners, routed events, `Refresh`, `AllowDrop` and hit testing are left out. The hit-tested item and the below/above position are parameters. A null source list in `Drop` is not modelled.
- `DispatcherTimer` timing is abstracted to explicit ticks. A negative `DisplayAfter` is not modelled (the delay is a `nat`); a delay above `int.MaxValue` milliseconds is modelled as the interval setter's `ArgumentOutOfRangeException`.
- `ImageEx`: `FramesPerSecond` (a `double` timer interval), the URI regular expressions of the source loader, and theming are left out.
- `NotEmptyStringToBooleanConverter.Convert` takes the `ToString()` text of the value, or null. `ToString` of arbitrary objects is outside the model.
- `CamelTextToRegularTextConverter.Convert` does not model the invalid cast raised by a non-string value.
- `CamelTextToRegularTextConverter`: the test vector "LearnWCFInSixEasyMonths" is not proved as a literal, because of its proof cost. The same rule is proved in general by `ConvertLayout` and on "WCFIn" by `ConvertCapitalRun`.
- Unboxing (`BooleanToVisibilityConverter.ConvertBack`, `Int32ToDecimalConverter.Convert`) tells enumeration types apart only by whether their underlying type is `byte`, `int` or another integral type; the boxed integral types other than `byte` and `int` are not modelled. `Object.Equals` in `EnumToBooleanConverter` is structural equality of boxed values.
- `EnumerableExtensions.Count` overflows silently past `int.MaxValue`, as unchecked C# does (`Common.Wrap32`).
- The `ConverterBase` singleton `ProvideValue`, and the Binding plumbing of the framework, are left out.
- Windows, dialogs, XAML templates, `PushBinding`, `FolderBrowserDialog`, `FontChooserDialog`, `ColorComboBox` and `HtmlRichEditor` are not part of this model.
