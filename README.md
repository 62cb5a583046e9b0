# Colour-bias quiz — a Dafny model

This project models the core of the `color-bias` chat plugin, a colour-perception quiz. Each question draws a grid of identical colour
squares in which exactly one square, the *biased* one, is shifted slightly in hue, saturation and value. The player names that square by
a letter and a number. The shift shrinks with each level. The repository holds two copies of the quiz:

- `src/index.ts`:
  - the `State` question;
  - a conversion `hsv` written with `k = 3h` and a sector switch;
  - the command handler `apply`, which keeps one running question per channel.
- `src/state.ts`:
  - the standalone `ColorBias` question;
  - the chroma form of `hsv`;
  - its own decay constants.

The model is split into these modules:

- `Js`: the JavaScript number operations the conversions use, namely the truncating `%` (with the truncation toward zero it is defined by) and `Math.abs`, over exact reals.
- `Numeral`: `toString(radix)` and reading digits back with `parseInt`.
- `Color`: `to256` and `createColor`, with `ParseColor` as their inverse.
- `SectorHsv`: the `hsv` of `src/index.ts`.
- `ChromaHsv`: the `hsv` of `src/state.ts`, proved to compute, for hues in [0, 360), the same channels as `SectorHsv` at hue `h / 180`.
- `Bias`: the random draws and the biased-pair arithmetic of both constructors. Its offset steps are the method `Generate`, which
  reassigns `deltaS`, `deltaV` and `biasedH` in place, as the constructors do.
- `Grid`: the grid size, the label loop and the cell loop of both `render` methods.
- `IndexGame`: the `State` question, its rendering, the answer parser and the `Sessions` class. `Sessions` holds the per-channel map
  that `apply` mutates.
- `StateGame`: the `ColorBias` question and its rendering.

Every random call is passed in as a uniform draw `u` in [0, 1):

- `Random.int(n)` is `floor(u n)`;
- `Random.real(lo, hi)` is `u (hi - lo) + lo`;
- `Math.random()` is `u`;
- `randomSign()` is `Random.int(2) * 2 - 1`.

The three decay curves `A exp(-k level)` are passed in as values in (0, A], where `A` is each file's leading constant. Colours are
`#rrggbb` strings. An `hsv` call that falls off its switch, which JavaScript reports as `undefined`, is `None`.

Two behaviours of the code are easy to misread, and the model follows the code in both:

- The `hsv` of `src/index.ts` multiplies the hue by 3 and works modulo 6, so one full turn of hue is 2 units of `h`, not 360 degrees.
  Hues drawn from [0, 360) therefore wrap many times. The conversion is still defined for every non-negative hue (`SectorHsv.Channels`).
  For chroma hues in [0, 360) it is the same conversion as the chroma form of `src/state.ts` at `h / 180` (`ChromaHsv.AgreesWithSector`);
  outside that range the chroma form is undefined while the sector form is not.
- The letter of an answer selects the grid row `i`, stored in the field `line`. The number selects the column `j`, stored in the field
  `row`. This follows from `render`, which draws letters down the side and numbers across the top, and from the parser in `apply`.

In `src/state.ts` the saturation and value ranges have different leading constants (0.5 and 0.2). In `src/index.ts` both are 0.2.

## Model

| member | source | states |
|---|---|---|
| Js.Abs | src/state.ts:23 | `Math.abs(x)` is non-negative and is `x` or `-x` |
| Js.Rem | src/index.ts:25 | JavaScript's `%` with a positive divisor: the remainder has the sign of the dividend and lies within one divisor of 0 |
| Js.RemInPeriod | src/state.ts:23 | when the dividend lies in its `n`-th period, `%` subtracts exactly `n` divisors |
| Js.DivBetween | src/state.ts:23 | a dividend in the `n`-th period of a positive divisor has a quotient in [n, n + 1) |
| Numeral.DigitValue | src/index.ts:158 | a digit character's value is below 16, and it is 0 exactly for `'0'` |
| Numeral.Parse | src/index.ts:158 | `parseInt` of a digit string; a numeral whose first digit is not `0` reads as a positive number |
| Numeral.ParseRoundTrip | src/index.ts:158 | writing back the value `parseInt` reads from a digit string without a leading zero gives the same string |
| Numeral.ToString | src/index.ts:12 | `toString(radix)` gives digits of the radix that read back as the number, with no leading zero except for 0; it is one digit iff the number is below the radix, and at most two below radix squared |
| Numeral.Digit | src/index.ts:12 | the digit character of a value below 16 reads back as that value, and it is `'0'` iff the value is 0 |
| Numeral.Snoc | src/index.ts:12 | appending a digit multiplies the value read by the radix and adds the digit |
| Numeral.LeadingZero | src/index.ts:12 | prefixing a `'0'` (as `padStart` does) leaves the parsed value unchanged |
| Color.PadStart | src/index.ts:12 | `padStart` pads on the left to the width and keeps the original string as its suffix |
| Color.HexByte | src/index.ts:12 | a byte written in hex and padded to two digits is two hex digits that read back as the byte |
| Color.To256 | src/index.ts:10-13 | `to256` is always two lower-case hex digits whose value is `floor(256 x)` clamped to 0..255 |
| Color.CreateColor | src/index.ts:15-17 | `createColor` is a 7-character `#rrggbb` string that parses back to the three channel bytes |
| Color.ChannelMonotone | src/index.ts:10-13 | a brighter intensity never encodes to a smaller byte |
| Color.EncodeSpans | src/index.ts:15-17 | the darkest and brightest intensities become the darkest and brightest bytes of the colour string |
| SectorHsv.Sector | src/index.ts:25 | the switch value is 0..6, and it is 6 (no case matches) exactly when `3h` is a negative multiple of 6 |
| SectorHsv.Fraction | src/index.ts:21 | `k - floor(k)` lies in [0, 1) |
| SectorHsv.Switch | src/index.ts:25-32 | a colour exists iff the sector is 0..5, and then `v` is its brightest and `p` its darkest channel when `p <= q, t <= v` |
| SectorHsv.Channels | src/index.ts:19-33 | defined iff the sector is not 6, hence for every non-negative hue |
| SectorHsv.Hsv | src/index.ts:19-33 | `hsv` returns a string iff the sector is not 6 |
| SectorHsv.Between | src/index.ts:21-24 | with `f` in [0, 1), `q` and `t` lie between `p = v(1 - s)` and `v` |
| SectorHsv.ChannelsSpan | src/index.ts:20-31 | `v` and `p = v(1 - s)` are channels of every case and the third channel lies between them |
| SectorHsv.HsvSpans | src/index.ts:19-33 | for a non-negative hue the colour string exists, parses, and its brightest byte encodes `v` and its darkest `v(1 - s)` |
| ChromaHsv.Switch | src/state.ts:25-32 | a colour exists iff `floor(h / 60)` is 0..5 |
| ChromaHsv.Channels | src/state.ts:19-33 | defined exactly for hues in [0, 360); any other hue falls off the switch |
| ChromaHsv.Hsv | src/state.ts:19-33 | `hsv` returns a string exactly for hues in [0, 360) |
| ChromaHsv.HueUnits | src/state.ts:21-25 | both forms pick the same sector, and the weight `abs(hh % 2 - 1)` is `1 - f` in even sectors and `f` in odd ones |
| ChromaHsv.SameSector | src/state.ts:21-25 | for `h / 60` in [0, 6) the `src/index.ts` sector at `h / 180` is `floor(h / 60)` |
| ChromaHsv.Weight | src/state.ts:23 | the weight `abs(hh % 2 - 1)` is `1 - f` in even sectors and `f` in odd ones |
| ChromaHsv.AgreesWithSector | src/state.ts:19-33 | for a hue in [0, 360) the chroma form gives exactly the channels of the `src/index.ts` form at `h / 180` |
| ChromaHsv.ChannelsSpan | src/state.ts:20-31 | `c + m = v` and `m = v(1 - s)` are channels of every case and `x` lies between them |
| ChromaHsv.HsvSpans | src/state.ts:19-33 | for a hue in [0, 360) the colour string exists, parses, and spans the bytes of `v(1 - s)` and `v` |
| Bias.ProfilesBounded | src/index.ts:58-60 | the decay values of either file lie within the envelope the offset arithmetic is proved under |
| Bias.RandomInt | src/index.ts:46-47 | `Random.int(n)` lies in [0, n) |
| Bias.RandomIntOnto | src/index.ts:46-47 | every cell index in [0, n) is the outcome of some draw |
| Bias.RandomSign | src/index.ts:6-8 | `randomSign()` is 1 or -1 |
| Bias.RandomSignIsIntDraw | src/index.ts:6-8 | the sign equals `Random.int(2) * 2 - 1` for the same draw |
| Bias.Signed | src/index.ts:66 | a signed magnitude is the magnitude or its negation |
| Bias.SignedIsProduct | src/index.ts:66 | choosing the sign equals multiplying by `randomSign()` |
| Bias.RandomReal | src/index.ts:48-50 | `Random.real(lo, hi)` lies in [lo, hi) |
| Bias.Scale | src/state.ts:54-56 | a `Math.random()` draw times a positive width lies in [0, width) |
| Bias.Base | src/index.ts:48-50 | the base hue lies in [0, 360), and saturation and value in [0.2, 1) |
| Bias.Factors | src/state.ts:54-57 | the three shares sum to 1, the hue share lies in [0.1, 0.4), and saturation and value each take a fifth to four fifths of the residue |
| Bias.SignRule | src/state.ts:63-68 | keeps the magnitude, flips to negative when adding would pass 1, stays positive when subtracting could pass 0, never lets the result exceed 1, and keeps it non-negative for magnitudes up to 1/2 |
| Bias.Offset | src/state.ts:63-74 | the saturation or value offset is `±share·range` and keeps the component in [0, 1] |
| Bias.ShareTimesRange | src/state.ts:63 | a share of at most 0.72 times a range of at most 1/2 is at most 1/2 |
| Bias.HueBudget | src/state.ts:77 | `factorH · rangeH` lies in [0, 0.4 rangeH) |
| Bias.HueShare | src/state.ts:77 | the hue share times the range is below 0.4 of the range |
| Bias.QuotientBound | src/state.ts:76-77 | dividing by a divisor of at least 0.2 multiplies by at most 5 |
| Bias.HueOffset | src/state.ts:76-77 | the hue offset is below twice the hue range in magnitude |
| Bias.WrapHue | src/state.ts:78-80 | one wrap step moves by 0 or ±360 and brings any value in [-360, 720) into [0, 360) |
| Bias.Deltas | src/state.ts:63-77 | the offsets keep saturation and value in [0, 1] and the hue offset below twice the hue range |
| Bias.Shifted | src/state.ts:63-82 | the biased hue lies in [0, 360), and saturation and value in [0, 1] |
| Bias.Biased | src/state.ts:48-82 | the biased colour of one constructor call is in range for `hsv` |
| Bias.Generate | src/state.ts:63-80 | the in-place offset steps compute exactly `Shifted`, hence an in-range biased colour |
| Bias.ApplySignRule | src/index.ts:62-73 | one in-place sign-rule block computes exactly `Offset` |
| Bias.ApplyHueOffset | src/index.ts:75-79 | the in-place hue block computes the wrapped sum of the hue and `HueOffset` |
| Bias.Legibility | src/state.ts:84-86 | the two palette colours are always black and white, in some order, and the background is black iff `s < 0.2` and `v > 0.8` |
| Bias.AlwaysBlackOnWhite | src/state.ts:84-86 | since a drawn saturation is never below 0.2, the palette is always black text on a white background |
| Grid.Size | src/index.ts:45 | the grid has 4 cells per side, one more every second level, and at most 8 up to the last level |
| Grid.SizeGrows | src/index.ts:45 | the next level's grid is the same size or one larger |
| Grid.ColumnLabel | src/index.ts:98 | the number across the top is a decimal numeral that reads back as the column number and has no leading zero |
| Grid.RowLabel | src/index.ts:99 | the character down the side has code `index + 64`, so rows 1..26 are `A`..`Z` |
| Grid.DrawLabels | src/index.ts:97-100 | the label loop yields the numeral and the letter for each index from 1 to the size |
| Grid.DrawCells | src/index.ts:103-107 | the cell loop fills a square grid whose cell `(line, row)` is biased and every other cell base; with distinct colours, the biased cell is exactly the target |
| IndexGame.NewState | src/index.ts:44-85 | `new State(level)` places the target inside the grid, yields two parsable colours, and uses black on white; for every level of the test the question is well-formed |
| IndexGame.Render | src/index.ts:87-119 | rendering draws the palette, the labels `1..size` and `A..`, and exactly one biased cell, at the target |
| IndexGame.ParsePosition | src/index.ts:153-158 | an answer parses iff it is one letter and then digits; the letter gives a row in 0..25 in either case |
| IndexGame.LabelsRoundTrip | src/index.ts:153-158 | typing a cell's drawn letter (either case) and number parses back to that cell |
| IndexGame.Matches | src/index.ts:153 | `/^[a-z]\d+$/i`: a matching answer has a letter whose code modulo 32 is 1 to 26 and at least one digit after it |
| IndexGame.Present | src/index.ts:151 | the truthiness of `position`: a truthy position is a non-empty string, and every answer the pattern accepts is truthy |
| IndexGame.Decide | src/index.ts:135-170 | the reply table of the handler: without a running question, a position or quit gives "no test" and anything else starts one; with one, quit stops it, a missing or empty position asks for one, an answer not matching the pattern is malformed, an answer is wrong iff it parses to another cell than the target, and an answer that parses to the target completes the test at the last level and advances it below |
| IndexGame.AnswerByLabels | src/index.ts:157-170 | answering with a cell's labels is accepted exactly at the target; the last level completes the test, any other advances it |
| IndexGame.Sessions.constructor | src/index.ts:126 | the handler starts with no running questions |
| IndexGame.Sessions.Handle | src/index.ts:132-171 | each reply leaves the map unchanged, deletes the channel's entry, or stores the new question, following the reply; other channels are untouched; stored levels never exceed the last level |
| IndexGame.Sessions.Command | src/index.ts:135-170 | a start stores a level-0 question and an advance stores a question one level up, each built by `new State`; quit and completion delete the channel's entry; every other reply, a wrong answer included, leaves the map unchanged; other channels are untouched |
| StateGame.NewColorBias | src/state.ts:44-87 | `new ColorBias(level)` places the target inside the grid and yields two parsable colours, black on white |
| StateGame.Render | src/state.ts:89-122 | rendering draws the palette, the labels, and exactly one biased cell, at the target |

## Left out

- Canvas drawing is not modelled: pixel coordinates, fonts and paths. A rendering is the `Picture` of the palette, the labels and the cell colours.
- The chat framework is not modelled: command registration, `session.send`, the user name, and the reply texts. Replies are the kinds of `IndexGame.Reply`. The text returned with the `ColorBias` rendering is not modelled either.
- `Logger.debug` calls are not modelled; they have no effect on the result.
- `Math.exp` is not modelled. Each decay curve is an input bounded by its leading constant, so the shrinking of the ranges with the level is not stated.
- The distribution of `Random` and `Math.random` is not modelled: draws are inputs in [0, 1). The `Random` library is not part of this model. `Random.int` and `Random.real` are given the meaning stated above.
- Numbers are exact reals; IEEE-754 rounding is not modelled. This covers `%`, the `3h` product of a large hue, and the 53-bit precision of `parseInt` on long digit strings.
- Grid.RowLabel: requires `index + 64 < 0xD800` because a Dafny `char` excludes surrogates; JavaScript's `fromCharCode` has no such limit. The grids of the test have at most 8 rows.
- IndexGame.Render and StateGame.Render: require `size + 64 < 0xD800` for the same reason.
- IndexGame.Sessions.Command: builds the next question before deciding whether to store it, so draws are consumed on every call. The source builds it only when it starts or advances a test. The stored question is the same.
- The `randomSign()` calls of the sign rule consume a draw only when the branch is taken. The model passes three sign draws and ignores the ones not used.
- IndexGame.NewState and StateGame.NewColorBias: state that both colours parse but not which bytes they span. `SectorHsv.HsvSpans` and `ChromaHsv.HsvSpans` state that property separately.
- IndexGame.Sessions.Handle: the map of running questions has no keys until one is stored. In the source it is a plain JavaScript object, so a channel id equal to an inherited property name such as `constructor` or `toString` reads as a running question; that case is not modelled.
- `async`/`await` and concurrent commands on one channel are not modelled; each command runs to completion.
