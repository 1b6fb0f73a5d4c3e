# Colour: a verified model of the Yii-FPDF colour class

`Colour.php` in beastbytes/Yii-FPDF defines one class, `Colour`. It holds a
colour in two representations: red, green and blue (`r`, `g`, `b`), and hue,
saturation and lightness (`h`, `s`, `l`). Either representation may be
missing, and `a` holds the alpha.

- The constructor reads a colour from a name, a `#rgb` or `#rrggbb` string,
  an `r/g/b` or `h/s/l` array, or a list.
- The getters fill a missing representation on first use, converting with
  `hsl2rgb` or `rgb2hsl`.
- Red, green and blue are normalised on the way out: `round(abs(x))`,
  reduced modulo 255 when it exceeds 255.
- `toString` renders the colour as `rgb`, `rgba`, `hsl`, `hsla`, `hex` or
  `named`.
- The arithmetic and bitwise operators change the receiver in place.
- The adjustment methods (`lighten`, `adjustHue`, `with`, ...) return new
  colours.
- `palette` builds a list of related colours and renders each of them.

The project models that class in Dafny, in eight value modules and one class:

| file | module | what it holds |
|---|---|---|
| `php_numbers.dfy` | `PhpNumbers` | the PHP integer and float operations the class relies on: `%d` truncation, `%` with the dividend's sign, `round`, 64-bit two's-complement bitwise operators, hexadecimal digits |
| `outcomes.dfy` | `Outcomes` | `Option`, `Result` and the `Error` kinds the class throws |
| `colour_spaces.dfy` | `ColourSpaces` | `hsl2rgb`, `hue2rgb`, `rgb2hsl` and the channel normalisation, on real numbers |
| `colour_state.dfy` | `ColourState` | `ColourValue`, the seven fields as a value, with the cache filling the getters perform |
| `named_colours.dfy` | `NamedColours` | the SVG name table and the HTML4 reverse table |
| `colour_input.dfy` | `ColourInput` | the constructor's parsing and `assertValid` |
| `colour_format.dfy` | `ColourFormat` | `hex`, the `sprintf` formats and `toString` |
| `adjustments.dfy` | `Adjustments` | `adjust`, `with`, `adjustHue`, the adjustment family and `mix` |
| `colour_arithmetic.dfy` | `ColourArithmetic` | the operator methods as functions on values |
| `palettes.dfy` | `Palettes` | `palette` as functions on values, with its properties |
| `colour.dfy` | `Colours` | `class Colour` with the seven fields; every public method is proved against the functions above |

The class keeps the source's form. Its fields are updated in place:

- the getters fill the caches;
- the operators assign `r`, `g` and `b` one after the other;
- `palette`'s loops are `while` loops with invariants.

Each method's postcondition ties the new fields and the result to the
functions on `ColourValue`. Those functions carry the lemmas that state what
the class promises.

## Model

| member | source | states |
|---|---|---|
| PhpNumbers.Trunc | Colour.php:500 | `%d` of a float truncates toward zero: the result lies within one of x, on the side nearer zero |
| PhpNumbers.Rem | Colour.php:1191 | PHP's integer `%`: the remainder has the dividend's sign, is smaller than the divisor in magnitude, and completes the truncating quotient |
| PhpNumbers.QuotRem | Colour.php:1191 | PHP's `%` agrees with the Euclidean remainder of the magnitudes, signed like the dividend |
| PhpNumbers.Round | Colour.php:432 | `round` lands within one half of x, taking halves away from zero |
| PhpNumbers.HexValue | Colour.php:309-311 | `intval` of one hexadecimal digit is below 16 and is the digit's position in `0123456789abcdef` |
| PhpNumbers.Utf8Width | Colour.php:293 | a character takes one to four bytes, exactly one for ASCII |
| PhpNumbers.ByteLength | Colour.php:293 | `strlen` is at least the number of characters, and equal to it exactly for ASCII strings |
| PhpNumbers.BitNot | Colour.php:763 | `~` of a 64-bit integer is again a 64-bit integer |
| PhpNumbers.XorOfBytes | Colour.php:737-755 | `^` of two bytes is a byte, and applying the same byte twice restores the first |
| ColourSpaces.Channel | Colour.php:427-434 | a channel getter reports a value in [0, 255]: `round(abs(x))` when that is at most 255, and `round(abs(x)) % 255` otherwise, so 510 reads as 0 |
| ColourSpaces.ChannelExamples | Colour.php:432-433 | 300 reads back as 45, -12.5 as 13, and 510 as 0 |
| ColourSpaces.WrapOnce | Colour.php:1375 | hue2rgb's single wrap maps [-1, 2] into [-1, 1] and leaves [0, 1] alone |
| ColourSpaces.HueFraction | Colour.php:1358 | `($h % 360) / 360` lies in (-1, 1) and is non-negative for a non-negative hue |
| ColourSpaces.SegmentBetween | Colour.php:1373-1390 | hue2rgb of a fraction in [0, 1] lies between m1 and m2 |
| ColourSpaces.MBounds | Colour.php:1359-1363 | for saturation and lightness in [0, 100], m1 and m2 lie in [0, 1] |
| ColourSpaces.HslToRgbInRange | Colour.php:1357-1390 | an in-range HSL colour with a non-negative hue converts to channels in [0, 255] |
| ColourSpaces.GreyFromHsl | Colour.php:1357-1368 | zero saturation gives the grey 255·l/100 in all three channels, whatever the hue |
| ColourSpaces.NegativeHueBlue | Colour.php:1358 | a negative hue escapes the wrap: hue -300 at full saturation and half lightness gives blue -255 |
| ColourSpaces.Max3 | Colour.php:1398-1399 | `max` of three is one of them and at least each |
| ColourSpaces.Min3 | Colour.php:1398-1399 | `min` of three is one of them and at most each |
| ColourSpaces.Chroma | Colour.php:1400 | the chroma max - min is never negative |
| ColourSpaces.InRangeConvertible | Colour.php:1396-1426 | channels in [0, 255] never make rgb2hsl divide by zero |
| ColourSpaces.RedSector | Colour.php:1416 | the red sector's truncated `% 600` computation stays within [-1, 1] |
| ColourSpaces.HueSectorRange | Colour.php:1414-1422 | the hue sector lies in [-1, 5] for every input |
| ColourSpaces.RgbToHslHue | Colour.php:1425 | rgb2hsl's hue is a whole number of degrees in [0, 360); a grey gets hue 0 and saturation 0 |
| ColourSpaces.RgbToHslInRange | Colour.php:1396-1426 | in-range channels convert without division by zero to saturation and lightness in [0, 100] |
| ColourSpaces.GreyRoundTrip | Colour.php:1357-1426 | every grey survives rgb2hsl followed by hsl2rgb unchanged |
| ColourSpaces.HueTruncationMergesColours | Colour.php:1416 | the integer `%` merges distinct colours: (255, 4, 0) and (255, 0, 0) convert to the same HSL |
| ColourSpaces.RedWithFourGreen | Colour.php:1396-1426 | (255, 4, 0) converts to hue 0, saturation 100, lightness 50 |
| ColourSpaces.RedWithFourGreenSector | Colour.php:1400-1416 | for (255, 4, 0) the chroma is 1, the lightness 0.5 and the sector 0.01 |
| ColourSpaces.PureRed | Colour.php:1396-1426 | (255, 0, 0) converts to hue 0, saturation 100, lightness 50 |
| ColourState.ColourValue.RgbFilled | Colour.php:429-431 | filling the RGB cache keeps a present RGB representation and otherwise stores hsl2rgb of the HSL one; nothing else changes |
| ColourState.ColourValue.HslFilled | Colour.php:391-393 | filling the HSL cache keeps a present HSL representation and otherwise stores rgb2hsl of the RGB one; nothing else changes |
| ColourState.ColourValue.Red | Colour.php:427-434 | getRed reports a value in [0, 255] |
| ColourState.ColourValue.Green | Colour.php:414-421 | getGreen reports a value in [0, 255] |
| ColourState.ColourValue.Blue | Colour.php:401-408 | getBlue reports a value in [0, 255] |
| ColourState.RgbValue | Colour.php:317-322 | a colour built from RGB components holds exactly those components and the alpha, and no HSL |
| ColourState.HslValue | Colour.php:323-328 | a colour built from HSL components holds exactly those components and the alpha, and no RGB |
| ColourState.FillingPreservesGetters | Colour.php:365-434 | filling either cache changes no getter's answer, and filling twice is filling once |
| ColourState.StoredChannelsReadBack | Colour.php:309-312 | byte channels stored by the constructor are reported back unchanged |
| ColourState.ChannelOfByte | Colour.php:427-434 | normalising a whole number in [0, 255] returns it |
| ColourInput.AssertValid | Colour.php:1308-1336 | RGB and HSL keys together are the mixed-space error; otherwise the scheme is the one whose keys appear. A complete check fails with the incomplete-RGB or incomplete-HSL error exactly when that scheme lacks one of its three keys, and with the too-few-components error exactly for a keyless array of fewer than three elements |
| ColourInput.AlphaOnlyTable | Colour.php:1331-1335 | an array with no RGB and no HSL key holds at most the alpha, so it is always too short |
| ColourInput.LowerChar | Colour.php:281 | `strtolower` moves A-Z down by 32 and keeps every other character |
| ColourInput.Lower | Colour.php:281 | `strtolower` keeps the length and lowers each character |
| ColourInput.FirstHexRun | Colour.php:293-300 | an unanchored `preg_match` finds the leftmost `#` followed by the hex digits, and none before it; no result means no match anywhere |
| ColourInput.Doubled | Colour.php:295-297 | a short digit written twice reads as the two-digit pair of that digit, a byte divisible by 17 |
| ColourInput.Pair | Colour.php:309-311 | two hex digits read as a byte |
| ColourInput.ParseText | Colour.php:280-314 | a string gives an RGB-only colour with alpha 1, or alpha 0 exactly for `transparent`; it fails, always with the invalid-colour error, exactly when it is not `transparent`, is not four bytes after the name lookup (`strlen` counts UTF-8 bytes), and holds no `#` followed by six hex digits anywhere |
| ColourInput.LeftmostSixDigits | Colour.php:300-312 | outside the four-byte case, a string is read from its leftmost `#` and six hex digits, whatever surrounds them, with alpha 1 |
| ColourInput.FourBytesRead | Colour.php:293-312 | a four-byte string is read with its digits doubled when it is `#` and three hex digits, and as opaque black otherwise |
| ColourInput.UnanchoredTriplet | Colour.php:300-312 | `xx#aabbcc` reads as red 170, green 187, blue 204 |
| ColourInput.UnanchoredTripletMatch | Colour.php:288-300 | `xx#aabbcc` is no colour name, and its leftmost six-digit match starts after the two letters |
| ColourInput.Parse | Colour.php:278-341 | every constructor argument that succeeds gives a well-formed colour |
| ColourInput.ParseTextIgnoresCase | Colour.php:281 | the string is lower-cased first, so case never matters |
| ColourInput.ParseHexTriplet | Colour.php:300-312 | `#rrggbb` reads as those three bytes with alpha 1 |
| ColourInput.ParseShortTriplet | Colour.php:293-312 | `#rgb` reads as the doubled digits with alpha 1 |
| ColourInput.ParseColourName | Colour.php:289-291 | an SVG name, in any case, reads as its table triplet |
| ColourInput.FourBytesNeverFail | Colour.php:293-311 | a string of four bytes never raises: an unmatched one still fills the three groups |
| ColourInput.ThreeCharactersFourBytes | Colour.php:293-311 | `#a\u00e9` is four bytes, so it takes the three-digit branch and reads as opaque black |
| ColourInput.FourCharactersFiveBytes | Colour.php:293-307 | `\u00e9#ab` is five bytes, so it takes the six-digit branch and is rejected |
| ColourInput.ShortTripletIsLong | Colour.php:293-312 | `#rgb` reads as the same colour as `#rrggbb` |
| ColourInput.UnmatchedShortStringIsBlack | Colour.php:293-311 | `ZZZZ` reads as opaque black |
| ColourInput.ParseTransparent | Colour.php:282-287 | `transparent`, in any case, is black with alpha 0 |
| ColourInput.ParseList | Colour.php:329-334 | a list shorter than three fails; otherwise its first three entries are red, green and blue, and the fourth, if any, the alpha |
| ColourInput.ParseTable | Colour.php:315-328 | an array is accepted exactly when it holds a whole RGB set or a whole HSL set and no key of the other; the missing alpha defaults to 1 |
| ColourFormat.Hex2 | Colour.php:548 | `%02x` writes two hex digits that read back as the byte |
| ColourFormat.Digits | Colour.php:500 | `%d` of a natural number writes decimal digits without a leading zero that read back as the number |
| ColourFormat.Decimal | Colour.php:500 | `%d` writes a minus sign exactly for negative numbers, then the digits of the magnitude |
| ColourFormat.TwoDigits | Colour.php:504 | the two decimals of `%1.2f` read back as the hundredths |
| ColourFormat.Hundredths | Colour.php:504 | the hundredths `%1.2f` prints lie within one half of 100·|x| |
| ColourFormat.HexCode | Colour.php:546-553 | `hex` writes `#` and six digits, or three when shortening is asked for and possible |
| ColourFormat.RepeatedDigit | Colour.php:549-550 | a byte's two hex digits agree exactly when the byte is divisible by 17, and then the doubled digit is the byte |
| ColourFormat.ShortHexExactly | Colour.php:549-552 | the short form is chosen exactly when every channel is divisible by 17 |
| ColourFormat.HexCodeRoundTrip | Colour.php:546-553 | the constructor reads `hex` output back as the same three channels, long or short |
| ColourFormat.RenderState | Colour.php:495-515 | the getters `toString` calls leave a well-formed colour |
| ColourFormat.Render | Colour.php:495-544 | `toString` fails exactly on an unknown format, with the invalid-format error |
| ColourFormat.RenderIgnoresCaching | Colour.php:495-544 | the caches one `toString` fills do not change what a later `toString` renders |
| ColourFormat.RenderHexRoundTrip | Colour.php:514-515 | `hex` output reads back as a colour with the same channels and alpha 1 |
| ColourFormat.Css3NamedIsHex | Colour.php:517-527 | with CSS3 names, `named` renders exactly as `hex`: the lookup uses a hex code as a name and never matches |
| ColourFormat.Html4NamedRoundTrip | Colour.php:529-533 | an HTML4 colour renders as its name, and the name reads back as the same channels |
| ColourFormat.Html4NameIsLowerCase | Colour.php:208-225 | every HTML4 name is already lower case |
| ColourFormat.UnnamedFallsBackToHex | Colour.php:529-533 | a colour without an HTML4 name renders under `named` as under `hex` |
| NamedColours.NoNameIsHex | Colour.php:50-198 | no SVG name starts with `#`, so a hex code is never taken for a name |
| NamedColours.SvgHexIsTriplet | Colour.php:50-198 | every SVG name maps to a `#rrggbb` triplet |
| NamedColours.Html4NamesAreSvgNames | Colour.php:208-225 | every HTML4 name is an SVG name for the same triplet, so the two tables agree |
| Adjustments.Clip | Colour.php:1345-1348 | `inRange` gives the value when inside the bounds, the nearer bound otherwise |
| Adjustments.ParseMergedHsl | Colour.php:1087-1093 | an HSL base merged with HSL-only attributes reads as the merged components |
| Adjustments.ParseMergedRgb | Colour.php:1094-1100 | an RGB base merged with RGB-only attributes reads as the merged components |
| Adjustments.With | Colour.php:1084-1103 | `with` fails exactly when RGB and HSL attributes are mixed, and then leaves the receiver alone |
| Adjustments.WithParsesMerged | Colour.php:1084-1103 | `with` fills the cache of the selected space and builds a colour from the receiver's components overridden by the attributes |
| Adjustments.WithAlphaKeepsRgbOnly | Colour.php:1094-1102 | changing only the alpha gives an RGB-only colour with the receiver's channels and the new alpha |
| Adjustments.Adjust | Colour.php:1267-1291 | `adjust` rejects a float amount, then an amount outside [min, max], and succeeds otherwise |
| Adjustments.AdjustIsWith | Colour.php:1284-1290 | an amount in range passes the stored attribute, moved and clipped, to `with` |
| Adjustments.AdjustLightnessValue | Colour.php:1284-1290 | the new lightness is the stored one plus or minus n, or scaled by 1 ± n/100 when ofCurrent, clipped to [min, max]; hue, saturation and alpha are the receiver's |
| Adjustments.AdjustSaturationValue | Colour.php:1284-1290 | the new saturation follows the same rule; hue, lightness and alpha are the receiver's |
| Adjustments.AdjustAlphaValue | Colour.php:1284-1290 | the new alpha follows the same rule, in an RGB colour with the receiver's channels |
| Adjustments.WithHslAttribute | Colour.php:1084-1093 | `with` of saturation or lightness alone keeps the receiver's other HSL components and alpha |
| Adjustments.WithAlpha | Colour.php:1094-1102 | `with` of the alpha alone keeps the receiver's channels |
| Adjustments.LightenExample | Colour.php:826-831 | lightness 40 lightened by 50 gives 90, or 60 when the amount is a share of the current value |
| Adjustments.AdjustHue | Colour.php:817-820 | `adjustHue` fills the HSL cache and returns an HSL colour whose hue is the float `%` of hue + degrees by 360, all else kept |
| Adjustments.AdjustLightness | Colour.php:1267-1291 | lightening or darkening by n moves the lightness by n, clipped to [0, 100], and keeps the other components |
| Adjustments.AdjustLightnessFillsCache | Colour.php:1284-1290 | lightening or darkening fills the receiver's HSL cache and returns an HSL-only colour |
| Adjustments.DarkenThenLighten | Colour.php:834-854 | darkening by n and then lightening by n restores the colour when no clipping occurs |
| Adjustments.UncachedLightnessStartsAtZero | Colour.php:1284-1288 | `adjust` reads the raw field before any getter fills it, so lightening an RGB-only colour by n gives lightness n |
| Adjustments.GreyscaleIsGrey | Colour.php:985-999 | greyscale sets the saturation to 0, and the result has equal red, green and blue |
| Adjustments.OpacifyExample | Colour.php:891-904 | from alpha 0.4, `opacify(0.5)` is refused as not an integer and `opacify(50)` gives 50.4, or 0.6 when the amount is a share of the current alpha |
| Adjustments.OpacifyThenTransparentise | Colour.php:900-922 | opacifying by n and then transparentising by n restores the alpha |
| Adjustments.AdjustHueRange | Colour.php:817-820 | the new hue lies in (-360, 360) and is non-negative when hue + degrees is |
| Adjustments.AdjustHueOfHsl | Colour.php:817-820 | on an HSL colour, `adjustHue` changes only the hue, to (h + d) `%` 360 |
| Adjustments.AdjustHueComposes | Colour.php:817-820 | for a whole hue, turning by d1 then d2 equals turning by d1 + d2 |
| Adjustments.AdjustHueFullTurn | Colour.php:817-820 | turning a whole hue by 360 gives back the colour as HSL |
| Adjustments.ComplementTwice | Colour.php:975-978 | for a whole hue, complementing twice restores the colour as HSL |
| Adjustments.MixRatioRange | Colour.php:1060-1064 | the mix ratio (w + a)/(1 + w·a) stays in [-1, 1] and equals w when the alphas agree |
| Adjustments.MixWeightRange | Colour.php:1060-1065 | the weight of the first colour stays in [0, 1] and is p when the alphas agree |
| Adjustments.Mix | Colour.php:1019-1077 | `mix` always fails: first with the constructor's error for an unreadable second colour, then on a float weight, then on a weight outside [0, 100], and otherwise at the undefined `rgb()` call |
| ColourArithmetic.OperandChannels | Colour.php:564-573 | the operand's three values are another colour's channels in [0, 255], or the integer three times |
| ColourArithmetic.Combine | Colour.php:562-755 | one channel's operation fails exactly on division or remainder by zero, with the division-by-zero error |
| ColourArithmetic.Arithmetic | Colour.php:562-755 | an operator rejects a non-colour non-integer operand and changes nothing; otherwise it fills the RGB cache, keeps HSL and alpha, and fails exactly when dividing by a zero operand channel |
| ColourArithmetic.BitwiseNot | Colour.php:761-767 | `bwNot` leaves an RGB colour with HSL and alpha unchanged |
| ColourArithmetic.Shift | Colour.php:774-807 | a shift rejects any operand but an integer and changes nothing then; it keeps HSL and alpha |
| ColourArithmetic.ArithmeticLeavesHslStale | Colour.php:562-755 | the operators never update a cached HSL representation, so hue, saturation and lightness keep reporting the old colour |
| ColourArithmetic.Reported | Colour.php:427-434 | the channels the getters report after an operator are in [0, 255] |
| ColourArithmetic.AddThenSubtract | Colour.php:562-605 | adding k then subtracting k restores every channel when no sum leaves [0, 255] |
| ColourArithmetic.AdditionWrapsPast255 | Colour.php:562-580 | red 250 plus 10 is stored as 260 and read back as 5 |
| ColourArithmetic.ModulusBounds | Colour.php:662-680 | remainder by a non-zero k stores whole numbers in [0, abs(k)) |
| ColourArithmetic.XorTwice | Colour.php:737-755 | xor with the same byte twice restores every channel |
| ColourArithmetic.BitwiseNotReadsBack | Colour.php:761-767 | `bwNot` does not invert: each channel c reads back as c + 1, and 255 as 1 |
| ColourArithmetic.ComplementReadsBack | Colour.php:763 | `~c` normalises to c + 1, wrapping 256 to 1 |
| ColourArithmetic.ShiftKeepsChannels | Colour.php:774-807 | a shift by an integer changes no getter: it stores each channel's reported value |
| Colours.Colour.constructor | Colour.php:309-334 | a new object holds exactly the given fields |
| Colours.Colour.Create | Colour.php:278-341 | `new Colour(c)` succeeds exactly when c parses, with the parsed fields, and otherwise raises the parse error |
| Colours.Colour.Hsl2Rgb | Colour.php:1357-1368 | `hsl2rgb` stores the converted HSL in `r`, `g`, `b` and changes nothing else |
| Colours.Colour.Rgb2Hsl | Colour.php:1396-1426 | `rgb2hsl` stores the converted RGB in `h`, `s`, `l` and changes nothing else |
| Colours.Colour.GetAlpha | Colour.php:356-359 | returns the alpha field |
| Colours.Colour.GetHue | Colour.php:365-371 | fills the HSL cache and returns the hue |
| Colours.Colour.GetSaturation | Colour.php:377-383 | fills the HSL cache and returns the saturation |
| Colours.Colour.GetLightness | Colour.php:389-395 | fills the HSL cache and returns the lightness |
| Colours.Colour.GetRed | Colour.php:427-434 | fills the RGB cache and returns the normalised red |
| Colours.Colour.GetGreen | Colour.php:414-421 | fills the RGB cache and returns the normalised green |
| Colours.Colour.GetBlue | Colour.php:401-408 | fills the RGB cache and returns the normalised blue |
| Colours.Colour.GetRgb | Colour.php:440-443 | fills the RGB cache and returns the three normalised channels, each in [0, 255] |
| Colours.Colour.GetRgba | Colour.php:449-452 | fills the RGB cache and returns the channels and the alpha |
| Colours.Colour.GetHsl | Colour.php:458-461 | fills the HSL cache and returns hue, saturation and lightness |
| Colours.Colour.GetHsla | Colour.php:467-470 | fills the HSL cache and returns hue, saturation, lightness and alpha |
| Colours.Colour.IsTranslucent | Colour.php:476-479 | true exactly when the alpha is below 1 |
| Colours.Colour.ToString | Colour.php:495-544 | renders as `Render` says and leaves the caches the called getters fill |
| Colours.Colour.OperandChannel | Colour.php:564-573 | reads the operand's value for one channel, filling an operand colour's RGB cache |
| Colours.Colour.GetChannel | Colour.php:565-567 | calls the getter of one channel: fills the RGB cache and returns that channel's reading |
| Colours.Colour.CombineChannel | Colour.php:565-567 | combines one channel of the receiver with the operand's, as `Combine` |
| Colours.Colour.SetChannel | Colour.php:565-567 | assigns one channel field and nothing else |
| Colours.Colour.AssignChannel | Colour.php:565-567 | one statement of an operator: combine, then assign on success; the operand's other channels are unchanged |
| Colours.Colour.Operate | Colour.php:562-755 | every binary operator leaves the fields and result `Arithmetic` gives, including the channels assigned before a division by zero |
| Colours.Colour.BwNot | Colour.php:761-767 | leaves the fields `BitwiseNot` gives and returns the receiver |
| Colours.Colour.Shift | Colour.php:774-807 | `shiftl` and `shiftr` leave the fields and result the `Shift` function gives |
| Colours.Colour.With | Colour.php:1084-1103 | leaves the receiver and returns the fresh colour the `With` function gives |
| Colours.Colour.Adjust | Colour.php:1267-1291 | leaves the receiver and returns the fresh colour the `Adjust` function gives |
| Colours.Colour.Lighten | Colour.php:834-837 | as `Adjust` on the lightness, upward, within [0, 100] |
| Colours.Colour.Darken | Colour.php:851-854 | as `Adjust` on the lightness, downward, within [0, 100] |
| Colours.Colour.Saturate | Colour.php:868-871 | as `Adjust` on the saturation, upward, within [0, 100] |
| Colours.Colour.Desaturate | Colour.php:885-888 | as `Adjust` on the saturation, downward, within [0, 100] |
| Colours.Colour.Opacify | Colour.php:900-905 | as `Adjust` on the alpha, upward |
| Colours.Colour.Transparentise | Colour.php:917-922 | as `Adjust` on the alpha, downward |
| Colours.Colour.AdjustHue | Colour.php:817-820 | fills the HSL cache and returns a fresh colour with the turned hue |
| Colours.Colour.Complement | Colour.php:975-978 | fills the HSL cache and returns a fresh colour turned by 180 degrees |
| Colours.Colour.Greyscale | Colour.php:996-999 | returns the colour with zero saturation, as `Adjustments.Greyscale` |
| Colours.Colour.Mix | Colour.php:1019-1077 | always fails, with the error the `Mix` function gives |
| Colours.Colour.Palette | Colour.php:1129-1254 | leaves the fields and returns the list the `Palette` function gives |
| Colours.Colour.PaletteMono | Colour.php:1134-1253 | the mono mode: at most 21 colours, then the stepped list, sliced and rendered |
| Colours.Colour.MonoList | Colour.php:1143-1153 | the darker colours reversed, the receiver, then the lighter colours; the receiver sits at the returned index |
| Colours.Colour.MonoSteps | Colour.php:1143-1152 | the mono loop collects the darker and lighter lists `MonoLoop` describes |
| Colours.Colour.MonoStep | Colour.php:1144-1151 | one pass of the mono loop advances `MonoLoop` by one step |
| Colours.Colour.DarkerStep | Colour.php:1144-1147 | adds the colour darkened by 5i percent when the lightness allows it, and counts it |
| Colours.Colour.LighterStep | Colour.php:1148-1151 | adds the colour lightened by 5i percent when the lightness allows it, and counts it |
| Colours.Colour.PaletteHues | Colour.php:1155-1253 | the hue modes: base colours, the size limit, the expansion and rendering, as `HuePaletteOf` |
| Colours.Colour.HueColours | Colour.php:1156-1210 | the switch over the mode gives the base colours `BaseColours` gives |
| Colours.Colour.Turns | Colour.php:1160-1195 | the rotation loop gives the turned colours `Rotations` gives |
| Colours.Colour.CreateAll | Colour.php:1197-1202 | constructs a colour for each array entry and stops at the first failure, as `ParseAll` |
| Colours.Colour.RenderColours | Colour.php:1250-1253 | renders each colour as `RenderAll`; only the receiver's own caches change |
| Colours.ExpandColours | Colour.php:1220-1247 | the expansion loop and the merge give the colours `Expanded` gives |
| Colours.ExpandIteration | Colour.php:1221-1237 | one round of the expansion advances `Expand` by one step and keeps the first colour's lightness |
| Colours.RunPass | Colour.php:1225-1236 | one inner loop adds the variants `Pass` describes |
| Colours.MergeVariants | Colour.php:1240-1247 | the merge appends the darker and lighter lists of each round in turn |
| Colours.Getter | Colour.php:401-434 | the getter for one channel reports a value in [0, 255] |
| Colours.OperandGetter | Colour.php:564-573 | the operand value for one channel is a 64-bit integer, the one `OperandChannels` gives |
| Colours.Assigned | Colour.php:565-567 | assigning one channel keeps HSL, alpha and the other channels' readings |
| Colours.RgbFillingKeepsGetters | Colour.php:427-434 | filling the RGB cache changes no channel reading |
| Colours.ArithmeticInStages | Colour.php:562-580 | `Arithmetic` is the three channel assignments in order, each stopping on failure |
| Colours.RenderStateRenders | Colour.php:495-544 | rendering after the caches `toString` fills gives the same text |
| Palettes.Slice | Colour.php:1250 | `array_slice($s, 0, $n)` is a prefix of length min(n, size), or all but the last -n for a negative n |
| Palettes.RenderAll | Colour.php:1250-1252 | rendering a list fails exactly on a non-empty list with an unknown format, and keeps the length otherwise |
| Palettes.RenderAllEntries | Colour.php:1250-1252 | each text of a rendered list is its colour's `toString` |
| Palettes.RenderAllEntry | Colour.php:1250-1252 | entry k of a rendered list is the `toString` of colour k |
| Palettes.RenderAllPrefix | Colour.php:1250-1252 | rendering the first j colours gives the first j texts of the rendered list |
| Palettes.RenderAllInit | Colour.php:1250-1252 | rendering all colours but the last gives all texts but the last |
| Palettes.RenderAllExtends | Colour.php:1250-1252 | rendering one more colour appends its text |
| Palettes.RenderAllSnoc | Colour.php:1250-1252 | a rendered list is the rendered list without its last colour, then that colour's text |
| Palettes.HitsSplit | Colour.php:1143-1152 | the mono steps that add a colour are the darker steps plus the lighter steps, counted apart |
| Palettes.MonoHitsCount | Colour.php:1143-1152 | the 20 mono steps add 20 colours, or 19 when the lightness is in [0, 100] and not a multiple of 5 |
| Palettes.MonoTerminatesExactly | Colour.php:1135-1152 | up to 21 colours, the mono loop ends exactly when n ≤ 20 or the lightness is outside [0, 100] or a multiple of 5 |
| Palettes.MonoLoop | Colour.php:1143-1152 | the mono loop stops once the count reaches n, adds at most one colour too many, and only extends the two lists |
| Palettes.DarkerAfter | Colour.php:1144-1147 | a step adds one darker colour exactly when the lightness allows it |
| Palettes.LighterAfter | Colour.php:1148-1151 | a step adds one lighter colour exactly when the lightness allows it |
| Palettes.MonoColours | Colour.php:1153 | the merged mono list has n or n + 1 colours, and the receiver sits before position n |
| Palettes.Reverse | Colour.php:1153 | `array_reverse` keeps the length and mirrors the positions |
| Palettes.Rotations | Colour.php:1158-1195 | a rotation gives m colours, each held as HSL |
| Palettes.ParseAll | Colour.php:1197-1202 | the array mode succeeds exactly when every entry parses, with each entry's colour in order |
| Palettes.ParseAllStops | Colour.php:1199-1201 | the first entry that does not parse decides the error |
| Palettes.BaseColours | Colour.php:1156-1210 | the mode's base colours are well-formed, held as HSL outside the array mode, and the receiver's cache is filled only by modes that read its hue |
| Palettes.Pass | Colour.php:1225-1236 | an inner loop keeps every column ready for conversion |
| Palettes.PassCounts | Colour.php:1225-1236 | an inner loop that applies counts up to min(n, count + columns left); the added colours are that many, held as HSL |
| Palettes.PassKeepsColumns | Colour.php:1225-1236 | an inner loop only fills the columns' HSL caches |
| Palettes.PassVariants | Colour.php:1225-1236 | an inner loop adds the darkened or lightened variant of each column it reaches, in column order |
| Palettes.PassStep | Colour.php:1225-1236 | one applying step adds the column's variant and fills the column's cache |
| Palettes.UncachedVariants | Colour.php:1225-1236 | a column held as RGB only is darkened to lightness 0 and lightened to lightness adj, because `adjust` reads its null lightness as 0 |
| Palettes.InterleaveStep | Colour.php:1240-1247 | merging one more round appends its darker list, then its lighter list |
| Palettes.Expand | Colour.php:1221-1237 | the expansion keeps the columns ready and the darker and lighter rounds paired |
| Palettes.ExpandStep | Colour.php:1221-1237 | one round of passes counts each added colour, keeps the first column, and keeps n within reach of the remaining rounds |
| Palettes.TwoPassesKeepColumns | Colour.php:1225-1236 | the two passes of a round only fill the columns' caches and leave the first column alone |
| Palettes.ExpandCounts | Colour.php:1221-1237 | the expansion reaches n, adds exactly as many HSL colours as it counts, and only fills the columns' caches |
| Palettes.Expanded | Colour.php:1220-1247 | the expanded list has at least n colours and starts with the base colours, caches filled |
| Palettes.ExpandUnfold | Colour.php:1221-1237 | one round runs the darker loop, then the lighter loop, then the later rounds |
| Palettes.HslRound | Colour.php:1221-1237 | one round over HSL columns keeps them and records that round's variant lists |
| Palettes.RoundOfHsl | Colour.php:1221-1237 | both inner loops of a round leave HSL columns as they are and add that round's variants |
| Palettes.ExpandVariants | Colour.php:1221-1237 | every round t records the darker variants by (t + 1)·10 of the first columns in order, then their lighter variants, each only when its pass applies |
| Palettes.ExpandedVariants | Colour.php:1220-1247 | for HSL hue colours the palette list is the hue colours, then per round the darker variants, then the lighter ones |
| Palettes.ExpandedCounts | Colour.php:1220-1247 | starting from the base count, the expansion adds enough HSL variants to reach n |
| Palettes.StartCovers | Colour.php:1212-1221 | with at least eight rounds available, nine entries per hue are always within reach |
| Palettes.PassesAtLeastEight | Colour.php:1221-1237 | for any lightness, at least eight of the nine rounds' passes apply, so the expansion always ends |
| Palettes.Palette | Colour.php:1129-1254 | `palette` leaves a well-formed receiver |
| Palettes.MonoPaletteOf | Colour.php:1134-1153 | the mono mode leaves a well-formed receiver |
| Palettes.HuePaletteOf | Colour.php:1155-1248 | the other modes leave a well-formed receiver |
| Palettes.MonoColoursHsl | Colour.php:1143-1153 | every mono colour is held as HSL |
| Palettes.ExpandedRenderable | Colour.php:1220-1252 | the expanded and sliced list can be rendered in the requested format |
| Palettes.BaseReady | Colour.php:1156-1220 | base colours that need expanding can all be converted to HSL |
| Palettes.BaseEntryReady | Colour.php:1156-1210 | each base colour can be rendered in the requested format |
| Palettes.RenderFilled | Colour.php:1250-1252 | filling the HSL cache does not change a rendering |
| Palettes.DarkerStep | Colour.php:1144-1147 | a mono step keeps the darker list descending in lightness and within 5i percent below the receiver |
| Palettes.LighterStep | Colour.php:1148-1151 | a mono step keeps the lighter list ascending in lightness and within 5i percent above the receiver |
| Palettes.MonoLoopUnfold | Colour.php:1143-1152 | one step of the mono loop adds the darker and lighter colours it allows and counts them |
| Palettes.MonoNext | Colour.php:1143-1152 | one step of the mono loop keeps both lists ordered and bounded |
| Palettes.MonoLoopDarkens | Colour.php:1143-1152 | the darker list the loop builds is descending in lightness and no lighter than the receiver |
| Palettes.MonoLoopLightens | Colour.php:1143-1152 | the lighter list the loop builds is ascending in lightness and no darker than the receiver |
| Palettes.ReverseAscending | Colour.php:1153 | reversing the darker list makes it ascending |
| Palettes.JoinAscending | Colour.php:1153 | joining two ascending lists around a middle lightness gives an ascending list |
| Palettes.MonoAscending | Colour.php:1143-1153 | the mono list is ordered from darkest to lightest |
| Palettes.MonoSliceAscending | Colour.php:1153 | the first n mono colours are ordered by lightness and include the receiver |
| Palettes.MonoPalette | Colour.php:1134-1253 | the mono palette renders n colours ordered by lightness that include the receiver |
| Palettes.PaletteSize | Colour.php:1211-1253 | for n ≥ 0, a palette that succeeds has exactly n entries |
| Palettes.PaletteSizeNegative | Colour.php:1250 | a negative n drops -n colours from the end (`Slice`): a mono palette is empty, and the other modes keep as many of their first colours as the base count plus n, or none |
| Palettes.MonoTooMany | Colour.php:1135-1142 | the mono mode rejects more than 21 colours before reading anything |
| Palettes.MonoIsCaseSensitive | Colour.php:1134-1157 | `Mono` is not the mono mode: it is lower-cased only for the switch, which has no `mono` case |
| Palettes.HueCountErrors | Colour.php:1191-1219 | an integer mode of 0 divides by zero; one that does not divide 360 is invalid; a negative divisor gives no colours and fails the size check |
| Palettes.UnknownModes | Colour.php:1190-1208 | an unknown name, or a mode that is neither a string, an integer nor an array, is invalid |
| Palettes.PaletteTooMany | Colour.php:1211-1219 | every mode other than mono refuses more than nine colours per colour it starts from, after making those colours |
| Palettes.RotationLimit | Colour.php:1211-1219 | a rotation mode refuses more than nine colours per hue |
| Palettes.RotationHues | Colour.php:1160-1195 | the k-th rotated colour has hue (h + k·step) mod 360 and the receiver's saturation, lightness and alpha |
| Palettes.WheelHues | Colour.php:1185-1189 | the wheel gives min(12, n) colours, 30 degrees apart, at the receiver's lightness |
| Palettes.AnalogousFromNegativeHue | Colour.php:1158-1163 | from hue 10, the analogous mode's first colour keeps the negative hue -20 |
| Palettes.AnalogousTurns | Colour.php:1160-1162 | turning hue -20 by 0 keeps -20 and by 30 gives 10 |
| Palettes.NamedBase | Colour.php:1158-1189 | a named mode turns the receiver, shifted first by its offset, by its step, at most n times |
| Palettes.HueColoursFirst | Colour.php:1220-1252 | the first entries of a palette are the base colours rendered in order |
| Palettes.PaletteColours | Colour.php:1211-1252 | the palette renders the first n of the base colours, expanded when n exceeds them |

## Left out

- `EFPDF.php`, `FPDFBehavior.php` and `PDFHelper.php` are not part of this model. They only call the class.
- Exception messages and their translation (`$this->lang`) are not modelled. Each error is an `Error` kind; `ColourException` itself is not modelled.
- `__get` is not modelled as a method. Where the class reads `$other->alpha` or `$other->value`, the model reads the alpha, or null for an integer.
- Floating point is modelled by exact real numbers. The intermediate results of `hsl2rgb` and `rgb2hsl` are therefore exact; PHP rounds them.
- PHP integers are unbounded in the model except where the source depends on 64 bits: the bitwise operators and `~` work on two's complement. Integer overflow into floats in `+`, `-` and `*` is not modelled.
- Colours.Colour.GetHue, GetSaturation, GetLightness and the other members that read the hue: `rgb2hsl` reads the raw fields and divides by zero when they lie outside [0, 255] with lightness 0 or 100, for example red 128 after subtracting 64 (stored channels 64, -64, -64). These members require that the division is defined (`HslComputable`) instead of modelling that error.
- Colours.Colour.Palette: the mono loop never ends for n = 21 when the lightness lies in [0, 100] and is not a multiple of 5. Palette requires termination (`MonoTerminates`); `MonoTerminatesExactly` states when it holds.
- Colours.Colour.Palette: for the array mode, each entry that needs HSL must be convertible without division by zero. This is stated in `PaletteDefined`.
- Colours.Colour.Palette: the intermediate colours `palette` creates are held as values, not objects. Their caches are filled on value copies the caller never sees, so no observable state is lost.
- PHP versions: division and modulus by zero follow PHP 8, where both throw (`DivisionByZero`); PHP 7 gave `INF` or `NAN` and a warning for `/` by zero, which is not modelled. A non-string `$mode` passed to `strtolower` follows PHP 7, where the switch falls through to `default`; the PHP 8 `TypeError` is not modelled.
- Array input is modelled as either a map from the known keys (`r`, `g`, `b`, `h`, `s`, `l`, `a`) to numbers or a 0-based list of numbers. These array shapes are not modelled: arrays that mix list and keyed entries, such as `[1, 2, 3, 'a' => 0.5]` (the source uses the list part and takes alpha 1); lists whose offsets do not start at 0, which lines 330-332 read as null; unknown keys; and components that are not numbers.
- Strings are sequences of Unicode characters, and `strlen` counts their UTF-8 bytes (`ByteLength`). Byte strings that are not valid UTF-8 are not modelled. Before PHP 8.2, `strtolower` was locale-dependent for bytes from 0x80 upwards; the model lowers ASCII only.
- Palettes.ExpandedVariants is stated for hue colours held as HSL, which is how every mode but array builds them. In the array mode, `getLightness` fills the cache of the first colour only. A later colour given as RGB only still has a null lightness at the first pass that reaches it, so that pass darkens it to lightness 0 or lightens it to lightness adj (`UncachedVariants`); `PassVariants` states each inner loop's result over the columns as they are at that pass.
- Adjustments.Mix: `mix` calls `$this->rgb()`, which the class does not define (line 1067), so every call that gets that far fails. The model checks the weight and reads the second colour, then fails; the colour arithmetic after that call is not modelled.
- Adjustments.Adjust: the alpha rescale at line 1282 tests `'alpha'`, but the attribute is always `'a'`, so the rescale never fires. The model leaves it out.
- `%1.2f` is modelled by rounding to hundredths (`Fixed2`); PHP's binary-float rounding of exact halves is not modelled.
- `transparentize`, `fade_in` and `fade_out` only call `transparentise` or `opacify`, and `grayscale` only calls `greyscale`. Each alias is modelled by the method it calls.
- `add`, `subtract`, `multiply`, `divide`, `modulus`, `bwAnd`, `bwOr` and `bwXor` share one body shape. They are one method, `Operate`, with an operator argument. `shiftl` and `shiftr` are one method, `Shift`.
- The six named rotation cases of `palette` are one table, `NamedRotation`, and one loop, `Turns`.
- `assertInRange` (lines 1293-1296) is folded into `Adjust`, which returns the out-of-range error directly.
- Where the class's documentation and its code disagree, the model follows the code:
  - the array mode of `palette` adds darker and lighter variants like the other non-mono modes;
  - `with` given only an alpha builds a fresh RGB-only colour rather than keeping the receiver's caches;
  - `opacify` and `transparentise` are documented as an absolute change for amounts in (0, 1] and a relative one above 1. The code refuses an amount that is not an integer, and it adds or subtracts whole units for amounts above 1, clipping at 100 (`OpacifyExample`).
