# led_ctrl web panel — a Dafny model

`led_ctrl` is a browser panel, written in Rust and compiled to WebAssembly, for a strip of
LEDs. The page holds three colour slots. Each slot has a hue, a saturation and a value
slider, plus an SVG swatch. There is also a pattern selector and a send button.

- When a slider of a slot changes, the slot's HSV colour is converted to 8-bit RGB and the
  swatch is painted with `rgba(r, g, b, 1.0)`.
- When the send button is pressed, the nine slider numbers and the pattern byte are sent
  to the controller as an `application/x-www-form-urlencoded` body.

This project models the pure core of `src/lib.rs` and proves properties of it:

- the converter `hsv_2_rgb`;
- the page readers `get_value` and `get_pattern`, including the decimal parser
  `u8::from_str_radix(_, 10)` that `get_pattern` relies on;
- the painting of a swatch by `set_swatch`;
- the request body that `set_leds` formats.

The page is an immutable snapshot, a map from element id to element. Painting a swatch
produces the next snapshot, or `None` where the source panics.

Modules:

- `Numeric` (`numeric.dfy`): the `f64` and `u8` primitives, over exact reals.
  - `trunc` rounds toward zero.
  - `rem_euclid(1.0)` gives the Euclidean remainder.
  - The float-to-byte cast `as u8` truncates toward zero, then saturates to [0, 255].
- `Hsv` (`hsv.dfy`): the six-sector converter.
  - For every hue `h >= 0` it is proved equal to an independent closed-form formula,
    `RefHsv2Rgb`. Negative hues differ (see below).
  - It is also pinned down by sector-boundary colours, grey, black and periodicity.
- `Decimal` (`decimal.dfy`): `Display` of unsigned integers (`Render`) and
  `from_str_radix` for `u8` (`ParseU8`).
  - The parser keeps Rust's error kinds and their order: `Empty`, then a lone sign as
    `InvalidDigit`, then per character the digit check before the overflow checks.
    Which error each text gets is stated exactly.
  - It is related both ways to a declarative description of valid text, and it
    round-trips with `Render`.
- `Text` (`text.dfy`): joining and splitting at a separator, `name=value` pairs, the
  form encoding and decoding of a body, and `format!` templates filled with arguments.
- `Panel` (`panel.dfy`): the page, `get_value`, `get_pattern`, `set_swatch` with its CSS
  fill, and the `set_leds` body.

Notes on the code as written:

- **`as u8` saturates.** Rust's float-to-integer cast saturates: 300.0 gives 255, and
  -3.0 and NaN give 0. It does not wrap modulo 256.
- **The sector and the fraction come from different hues.**
  - The sector is computed from the wrapped hue `h.rem_euclid(1.0)`.
  - The fraction `f` inside the sector is `6h - trunc(6h)` of the *unwrapped* hue.
  - For `h >= 0` the two agree, and the converter equals the textbook formula
    (`AgreesWithReference`, `HuePeriodic`).
  - For a negative hue `f` lies in (-1, 0]. Two hues one turn apart can then give
    different pixels (`NegativeHueNotPeriodic`). A channel can also rise above the "full"
    channel (`NegativeHueOverFull`). The sliders are not shown to produce negative hues,
    so this is recorded as a property of the code rather than as a defect.
- **Hue 1/6 is yellow.** At full saturation and value, hue 1/6 falls in sector 1 with
  `f = 0`, which gives (255, 255, 0), not pure green (`BoundaryColours`).

## Model

| member | source | states |
|---|---|---|
| Numeric.Trunc | src/lib.rs:92 | `trunc` rounds toward zero: below `x` by less than 1 for `x >= 0`, above it by less than 1 for `x < 0` |
| Numeric.CastU8Spec | src/lib.rs:91 | `x as u8` is 0 at or below 0, 255 at or above 255, and in between the greatest byte not above `x` |
| Numeric.CastU8IsTruncSaturate | src/lib.rs:91 | the cast is "truncate toward zero, then saturate to [0, 255]" |
| Numeric.CastU8Monotonic | src/lib.rs:91 | the cast never decreases when its argument grows |
| Numeric.TruncFraction | src/lib.rs:92 | `x - x.trunc()` lies in [0, 1) for `x >= 0` and in (-1, 0] for `x < 0`, and removing it leaves a whole number |
| Numeric.TruncFractionShift | src/lib.rs:92 | adding a whole number to a non-negative `x` does not change `x - x.trunc()` |
| Numeric.RemEuclid1 | src/lib.rs:87 | `rem_euclid(1.0)` lies in [0, 1) and equals `x - floor(x)` |
| Hsv.SectorOf | src/lib.rs:87-89 | the sector is in 0..5 and is `floor(6 * wrapped hue)`, so the `_` arm is never taken |
| Hsv.ScaleSpec | src/lib.rs:91 | `(x * 255.0) as u8` is 0, 255, or the integer part of `x * 255` |
| Hsv.FractionInSector | src/lib.rs:87-92 | for `h >= 0`, six times the wrapped hue is the sector plus the fraction `f` |
| Hsv.SectorPixelAgrees | src/lib.rs:90-119 | in each sector the six-arm table places `v`, `p`, `q`, `t` exactly as the closed-form ramps of red, green and blue weigh them |
| Hsv.AgreesWithReference | src/lib.rs:85-123 | for every hue `h >= 0` the converter equals the closed-form HSV formula `v * (1 - s * clamp(min(k, 4 - k), 0, 1))` |
| Hsv.FullChannel | src/lib.rs:90-119 | red carries `v * 255` in sectors 0 and 5, green in 1 and 2, blue in 3 and 4 |
| Hsv.SectorPixelBounded | src/lib.rs:90-119 | for `f` in [0, 1], `s` in [0, 1] and `v >= 0`, no channel of a sector exceeds `v * 255` |
| Hsv.FullChannelIsBrightest | src/lib.rs:85-123 | for `h >= 0`, `s` in [0, 1] and `v >= 0`, no channel is brighter than `(v * 255.0) as u8` |
| Hsv.GreyAxis | src/lib.rs:85-123 | zero saturation gives three equal channels `(v * 255.0) as u8`, whatever the hue |
| Hsv.ZeroValueIsBlack | src/lib.rs:85-123 | zero value gives black, whatever the hue and saturation |
| Hsv.BoundaryColours | src/lib.rs:85-123 | hues 0, 1/6, 1/3 and 2/3 at full saturation and value give red, yellow, green and blue |
| Hsv.SectorPeriodic | src/lib.rs:87-89 | adding a whole turn to any hue keeps its sector |
| Hsv.HuePeriodic | src/lib.rs:85-123 | for `h >= 0`, adding a whole turn does not change the pixel |
| Hsv.NegativeHueNotPeriodic | src/lib.rs:87-92 | hues -0.25 and 0.75 (one turn apart) give (0, 0, 255) and (127, 0, 255) |
| Hsv.NegativeHueOverFull | src/lib.rs:115-118 | hue -0.05 with `s = 1`, `v = 0.5` gives blue 165 above the full red 127 |
| Decimal.Render | src/lib.rs:159 | `Display` of an unsigned integer gives at least one digit, denotes the number, and has no leading zero |
| Decimal.Accumulate | src/lib.rs:61 | the checked digit loop never reports `Empty` |
| Decimal.AccumulateDigits | src/lib.rs:61 | over digits, the loop yields the digits' value when it fits in a byte and `PosOverflow` otherwise |
| Decimal.AccumulateRejects | src/lib.rs:61 | the loop never succeeds on text with a non-digit |
| Decimal.AccumulateInvalid | src/lib.rs:61 | the loop reports `InvalidDigit` iff it meets a non-digit while the digits before it still fit in a byte |
| Decimal.ParseU8Spec | src/lib.rs:61 | `from_str_radix(s, 10)` succeeds iff `s` is an optional `+` then at least one digit with value at most 255, and then yields that value; `Empty` iff `s` is empty; `InvalidDigit` iff `s` is a lone `+` or a non-digit comes before the digits overflow; every other failure is `PosOverflow`, among them all-digit text above 255 |
| Decimal.ErrorOrder | src/lib.rs:61 | `25a6` and `-0` are `InvalidDigit`, `256a` is `PosOverflow`: overflow is reported before a later non-digit |
| Decimal.RenderParse | src/lib.rs:61 | parsing the decimal rendering of a byte gives the byte back |
| Decimal.RenderOverflows | src/lib.rs:61 | the rendering of a number above 255 is `PosOverflow` |
| Decimal.RenderCanonical | src/lib.rs:159 | a digit string without leading zeros is the rendering of its value |
| Decimal.LeadingZeros | src/lib.rs:61 | leading zeros do not change the parsed byte |
| Decimal.PlusSign | src/lib.rs:61 | one leading `+` is accepted and skipped |
| Decimal.MinusSign | src/lib.rs:61 | a leading `-` is `InvalidDigit` for `u8` |
| Text.Split | src/lib.rs:148-149 | splitting a body at `&` yields at least one piece, none of which holds `&` |
| Text.SplitJoin | src/lib.rs:148-149 | joining the pieces of a split gives the text back |
| Text.JoinSplit | src/lib.rs:148-149 | splitting pieces joined by a separator they do not contain gives the pieces back |
| Text.JoinSnoc | src/lib.rs:148-149 | joining one more piece appends the separator and the piece |
| Text.SplitOnce | src/lib.rs:148-149 | cutting at the first `=` gives a name without `=`, and re-gluing rebuilds the piece |
| Text.SplitOnceField | src/lib.rs:148-149 | cutting `name=value` at its first `=` gives back the name and value when the name has no `=` |
| Text.FormRoundTrip | src/lib.rs:148-164 | decoding the form encoding of fields whose names have no `&` or `=` and whose values have no `&` gives the fields back |
| Text.InterpolateEncodes | src/lib.rs:148-160 | a template `name0=`, `&name1=`, ... filled with values is the form encoding of the `name=value` fields |
| Panel.GetPatternSpec | src/lib.rs:56-71 | the pattern is the value of the selector's text when that text is valid `u8` text, and 0 when the element is missing, is not a selector, or the text does not parse |
| Panel.PatternRoundTrip | src/lib.rs:56-71 | a selector holding the rendering of a byte is read as that byte |
| Panel.FillRoundTrip | src/lib.rs:82 | the swatch fill `rgba(r, g, b, 1.0)` reads back as the pixel it was made from |
| Panel.FillInjective | src/lib.rs:82 | two pixels get the same fill iff they are equal |
| Panel.PaintCommutes | src/lib.rs:78-82 | painting two different elements gives the same page in either order |
| Panel.SetSwatchSpec | src/lib.rs:73-83 | painting succeeds iff the swatch exists and is an SVG element; then only the swatch changes, and its fill reads back as the converted colour of the slot's three inputs |
| Panel.SwatchIsNotAnInput | src/lib.rs:176-236 | no swatch id is the id of a hue, saturation or value input |
| Panel.SwatchIdsDistinct | src/lib.rs:178-234 | the three slots paint three different swatches |
| Panel.PaintingKeepsInputs | src/lib.rs:73-80 | painting any swatch leaves the colour every slot reads unchanged |
| Panel.PaintingKeepsFill | src/lib.rs:73-82 | painting any swatch leaves the fill every slot computes unchanged |
| Panel.SetSwatchIdempotent | src/lib.rs:73-83 | painting a slot's swatch twice is painting it once |
| Panel.SetSwatchCommutes | src/lib.rs:73-83 | the swatches of two different slots can be painted in either order, with the same page or the same panic |
| Panel.TemplateShape | src/lib.rs:149 | each literal piece of the body template is `&`, the next field name and `=` (no `&` before the first) |
| Panel.FieldNamesPlain | src/lib.rs:149 | no field name holds `&` or `=` |
| Panel.FieldNamesDistinct | src/lib.rs:149 | the ten field names are pairwise different |
| Panel.ColourArg | src/lib.rs:150-158 | the i-th colour argument is the rendering of the input named by the i-th field |
| Panel.BodyIsFormEncoded | src/lib.rs:148-160 | the body is the form encoding of the ten `name=value` fields in template order |
| Panel.BodyDecodes | src/lib.rs:148-164 | when the number rendering never writes `&`, decoding the body gives exactly the ten fields in order |
| Panel.PatternFieldParses | src/lib.rs:145-159 | the pattern field of the body parses back to the pattern that was read |
| Panel.MissingInputSendsZero | src/lib.rs:28-38 | removing one colour input from the page changes only its field, which becomes the rendering of 0.0 |
| Panel.EmptyPageFields | src/lib.rs:133-160 | an empty page sends every colour number as the rendering of 0.0 and pattern `0` |

## Left out

- Event wiring in `run` (src/lib.rs:174-253): which input's `change` event repaints which
  swatch, and the `mousedown` handler on the send button. Only the element ids it passes
  are modelled (`SlotName`, `HueId`, `SwatchId`, ...).
- Network I/O in `set_leds` (src/lib.rs:127-131, 161-170): the URL, the POST/CORS
  options, the `Content-Type` header, the fetch and its ignored result. The same goes for
  `spawn_local` scheduling.
- Panics:
  - `get_input`'s `unwrap`s panic when an element is missing. They are used only by `run`
    and are not modelled.
  - `window()` and `document()` unwraps panic when there is no window or document.
  - The `unwrap` of `set_property` panics if the style cannot be set.
  - `get_svg`'s panic is modelled as `None`.
- Floating point:
  - `f64` is modelled as exact reals: no rounding, NaN or infinities.
  - `value_as_number` of an empty input is NaN in a browser. The model has no NaN, so an
    `Input` always carries a real number.
  - Results that depend on how `f64` rounds near an integer boundary are not captured.
- `f64`'s `Display`: a parameter `fmt` of `Body`. `BodyDecodes` assumes only that it
  never writes `&`.
- Decimal.ParseU8: characters stand for bytes. Any non-ASCII byte is an invalid digit, so
  the result is unchanged.
- Text.FormDecode: no percent-decoding or `+`-to-space. The body is not percent-encoded by
  the code either.
