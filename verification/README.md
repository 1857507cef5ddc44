# color_math in Dafny

A model of `color_math.h`, a small integer colour kernel for LED strips.
It has three parts:

- `hsv2rgb` converts a quantised HSV triple to an 8-bit RGB triple. Hue has
  period 96, made of six sextants of 16. Saturation runs over 0..15 and value
  over 0..17. Values 18..34 are folded back onto 16..0.
- `set_led` stores one colour in the caller's LED buffer.
- `rgb_gradient` and `hsv_gradient` fill an inclusive LED index range. Each
  channel is interpolated linearly across the range.

Files:

- `cint.dfy`, module `CInt`: the C integer semantics the kernel relies on.
  - `U8` narrows a value to `uint8_t`.
  - `ToInt8` narrows a value to `int8_t`, assuming two's complement.
  - `TruncDiv` is C's division, which truncates toward zero.
  - A few arithmetic lemmas support the proofs.
- `color_math.dfy`, module `ColorMath`: the constants of lines 12-20, `RGB`
  and `HSV`, and the conversion.
  - `Hsv2Rgb` follows the C code line by line.
  - Every `uint8_t` store is written as `U8`, so the function is defined for
    all byte inputs. It wraps wherever the C code would wrap.
  - `UnboundedLevels` is the same arithmetic on unbounded integers. It is the
    reference the as-written levels are compared with.
- `hsv_properties.dfy`, module `HsvProperties`: what the conversion
  guarantees, mostly on its intended domain. That domain is read from the
  constants: saturation ≤ `MaxWhiteness` = 15 and value ≤ 2 · `MaxValue` = 34.
- `gradient.dfy`, module `Gradient`: `set_led` and the two gradients. The
  buffer is a `seq<RGB>`, and each method returns the updated sequence.

The gradients are modelled as the C code behaves, with no fixes:

- The LED gap and every channel gap are `int8_t`.
- Each step divides with truncation toward zero.
- Each interpolated component is passed on modulo 256.
- The written index `led_from + led` is passed to `set_led` as `uint8_t`.

A linear reading of the gradients suggests a smooth ramp between any two
colours over any range, but the code does not always give one, and the model
follows the code:

- A channel going from 0 to 255 over LEDs 0..4 does not ramp. `int8_t(255)`
  is -1, and `-k / 4` truncates to 0 for k < 4, so the channel stays at 0 and
  jumps to 255 at the last LED: 0, 0, 0, 0, 255 (`Gradient.WrappedChannelJumps`).
  A channel from 0 to 200 even runs the wrong way round, through the byte's
  wrap: 0, 242, 228, 214, 200 (`Gradient.WrappedChannelReverses`). The
  endpoints are still exact, and channels whose difference fits `int8_t` do
  ramp monotonically (`Gradient.LerpMonotone`).
- When `led_to == led_from`, the code divides by zero. It does not
  special-case this, so it is a precondition.
- When `led_to - led_from` is in [-128, -1], the loop runs zero times and
  nothing is written. No reverse fill happens.
- When the difference is in [128, 255], it narrows to a negative `int8_t`,
  so the loop runs zero times and nothing is written either.
- When the difference is in [-255, -129], it narrows to a positive `int8_t`,
  and the written indices wrap through `uint8_t`: `led_from`..255, then
  0..`led_to`. The model covers this case too: `Written` and `StepOf`
  describe the indices, and `Fits` asks only that every written index lies
  inside the buffer.

## Model

| member | source | states |
|---|---|---|
| `CInt.U8` | color_math.h:34-51 | storing a value in `uint8_t` leaves values in [0, 255] unchanged and otherwise gives the byte congruent to it modulo 256; every `uint8_t` store of the conversion (lines 34, 39, 42-43, 49-51) and of the gradients (lines 84-87, 101-104) goes through it |
| `CInt.ToInt8` | color_math.h:78-81 | storing a difference in `int8_t` gives the unique value in [-128, 127] congruent to it modulo 256, and leaves values already in range unchanged |
| `CInt.TruncDiv` | color_math.h:85-87 | C's `/`: the remainder `a - q*b` is smaller than `b` in magnitude and has the sign of `a`, so the quotient truncates toward zero |
| `CInt.GapRoundTrip` | color_math.h:78-81 | adding an `int8_t` gap `to - from` back to `from` modulo 256 gives `to`, even when the gap wrapped |
| `ColorMath.MirrorValue` | color_math.h:33-35 | for v ≤ 34 the stored value is at most 17 and is either v or its reflection 34 - v |
| `ColorMath.ReduceHue` | color_math.h:54-55 | repeated subtraction of 96 ends below 96 at exactly `h mod 96` |
| `ColorMath.Hsv2Rgb` | color_math.h:32-63 | the conversion as written, with every `uint8_t` store taken modulo 256: value 0 is black for every hue and saturation, saturation 0 gives three equal channels, and any non-zero mirrored value shows its peak `15v'` (mod 256) on some channel. Its other properties are the `HsvProperties` lemmas |
| `ColorMath.ChromaLevels` | color_math.h:39-52 | the peak, trough, rising and falling levels as the code stores them, each a byte; that no store wraps on the intended domain is `NoWraparound` |
| `ColorMath.Arrange` | color_math.h:57-62 | the six-way sextant assignment of the levels to red, green and blue: whatever the hue byte, the peak and the trough each reach some channel; the full multiset of channels for a reduced hue is `ArrangeShowsLevels` |
| `ColorMath.ArrangeShowsLevels` | color_math.h:57-62 | for a reduced hue, the sextant assignment puts the peak, the trough and the sextant's one transitioning level on the three channels, one each: rising in sextants 0, 2 and 4, falling in 1, 3 and 5 |
| `HsvProperties.NoWraparound` | color_math.h:39-52 | for saturation 1..15 and mirrored value 1..17, no `uint8_t` store wraps: the stored levels equal the unbounded ones, `v*offset` ≤ 255, `high` = 15v ≤ 255, `high - low` = s·v, and both `rising` and `falling` lie in [low, high], with `rising` < `high` off the sextant start, so `falling` never underflows |
| `HsvProperties.MirrorLaw` | color_math.h:33-35 | for 17 < v ≤ 34 and any hue and saturation, the output for v equals the output for 34 - v |
| `HsvProperties.BlackIffZeroValue` | color_math.h:33-40 | for every byte triple, the output is black exactly when v is 0 or 34 |
| `HsvProperties.GreyscaleLaw` | color_math.h:37-40 | saturation 0 gives the grey (15v', 15v', 15v'), where v' is the mirrored value |
| `HsvProperties.GreyIffUnsaturated` | color_math.h:37-62 | on the intended domain the three channels are equal exactly when saturation is 0 or the mirrored value is 0 |
| `HsvProperties.ChannelExtremes` | color_math.h:39-62 | for a chromatic input, the largest channel is `high` = 15v' and the smallest is `low` = v'(15 - s), as the source comments claim |
| `HsvProperties.HuePeriodic` | color_math.h:47-62 | for any saturation and value, hues h and h + 96 give the same colour |
| `HsvProperties.Anchors` | color_math.h:54-62 | (0, 15, 17) is red (255, 0, 0) and (48, 15, 17) is cyan (0, 255, 255) |
| `HsvProperties.SextantStartsAreExtreme` | color_math.h:39-62 | at full saturation and value, every channel at a sextant start is 0 or 255 |
| `HsvProperties.HueContinuity` | color_math.h:47-62 | on the intended domain, hues h and h + 1 give colours no channel of which differs by more than 16, including across sextant boundaries and the 95 to 96 wrap |
| `Gradient.SetLed` | color_math.h:71-73 | the colour is stored at the index and every other index is unchanged |
| `Gradient.Gap` | color_math.h:78-81 | the `int8_t` gap is zero only for equal bytes, and `from + gap` modulo 256 is `to` |
| `Gradient.Lerp` | color_math.h:85-87 | an interpolated component is the start value at step 0 and `from + gap` modulo 256 at step `led_gap` |
| `Gradient.RgbAt` | color_math.h:101-105 | the interpolated colour is the start colour at step 0 and the end colour at the last step |
| `Gradient.HsvAt` | color_math.h:84-88 | the interpolated HSV triple is the start triple at step 0 and the end triple at the last step |
| `Gradient.RgbGradient` | color_math.h:92-107 | exactly the written indices change, each to its interpolated colour. `led_from` receives the start colour and `led_to` the end colour. A range 0 < to - from ≤ 127 leaves every index outside it unchanged, and to - from in [-128, -1] or [128, 255] leaves the buffer unchanged |
| `Gradient.HsvGradient` | color_math.h:75-90 | as for the RGB gradient, with each index receiving the conversion of its interpolated HSV triple, so the endpoints convert the start and end triples |
| `Gradient.IndexAt` | color_math.h:83-84 | the index `led_from + led` passed to `set_led` as `uint8_t`; for every loop step it is the index whose step `StepOf` is that step |
| `Gradient.WrittenSpan` | color_math.h:83-84 | for 0 < to - from ≤ 127, the written indices are exactly from..to; for to - from in [-128, -1] or [128, 255], no index is written; for to - from in [-255, -129], the written indices are from..255 and 0..to |
| `Gradient.LerpMonotone` | color_math.h:85-87 | when a channel's difference fits `int8_t`, its interpolated values lie between the endpoints and move monotonically from start to end |
| `Gradient.HsvAtValid` | color_math.h:84-88 | when both endpoints have saturation ≤ 15 and value ≤ 34, every interpolated triple does too |
| `Gradient.FitsSpan` | color_math.h:71-73 | a range with 0 < to - from ≤ 127 writes only indices inside any buffer that holds index `led_to` |
| `Gradient.WrappedChannelJumps` | color_math.h:96-104 | a channel from 0 to 255 over four steps has `int8_t` gap -1, stays at 0 and jumps to 255 at the last LED, so a black-to-white gradient over LEDs 0..4 is black at 0..3 and white at 4 |
| `Gradient.WrappedChannelReverses` | color_math.h:96-104 | a channel from 0 to 200 over four steps has `int8_t` gap -56 and reads 0, 242, 228, 214, 200, falling through the wrap instead of rising |

## Left out

- The raw `RGB_t*` buffer is modelled as a sequence that each method
  returns updated. The C code checks no bounds, so every written index must
  lie inside the buffer (`Fits`). That requirement is a precondition.
- Inputs with saturation > 15 or value > 34 are computed by `Hsv2Rgb` with
  their wrap-around. Only some properties cover them: the `Hsv2Rgb` contract,
  `BlackIffZeroValue`, `MirrorLaw`, `HuePeriodic` and the gradient contracts.
  `NoWraparound`, `GreyscaleLaw`, `GreyIffUnsaturated`, `ChannelExtremes`,
  `HueContinuity` and `HsvAtValid` are stated on the intended domain only,
  because outside it the levels wrap and have no meaning.
- The overload `hsv2rgb(uint8_t, uint8_t, uint8_t)` is `ColorMath.Hsv2RgbOf`,
  a wrapper that packs its arguments; it has nothing of its own to prove.
- `led_to == led_from` divides by zero in the C code. It is a precondition
  of both gradients.
- Narrowing to `int8_t` is implementation-defined before C++20. The model
  assumes two's complement.
- The header guard and the `typedef`/`inline` boilerplate are not modelled.
  The `rgb` and `hsv` helpers are the datatype constructors `RGB` and `HSV`.
  The `black` constant is `ColorMath.Black`.
- The quantisation constants of lines 12-20 are Dafny constants with the
  same values. Sextant widths other than 16 are not modelled.
