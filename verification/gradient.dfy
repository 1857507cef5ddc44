/**
 Writing colours into the caller's LED buffer: a single store, and the two
 gradient fills, which interpolate each channel linearly over an inclusive
 LED index range.

 The buffer is a sequence of colours that the methods return updated. As in
 the C code, every gap is narrowed to int8_t, the interpolation divides with
 C's truncating division, each interpolated component is narrowed to
 uint8_t, and the written index `led_from + led` is narrowed to uint8_t.
 */
module Gradient {
  import opened CInt
  import opened ColorMath

  /** `set_led`: stores `color` at index `led` and changes nothing else. */
  function SetLed(leds: seq<RGB>, led: uint8, color: RGB): (r: seq<RGB>)
    requires led < |leds|
    ensures |r| == |leds| && r[led] == color
    ensures forall j :: 0 <= j < |leds| && j != led ==> r[j] == leds[j]
  {
    leds[led := color]
  }

  /** The int8_t difference `to - from` the gradients keep for the LED range and
      for each channel. It is zero only for equal bytes, and added back to
      `from` it always gives `to`, even when the true difference wrapped. */
  function Gap(from: uint8, to: uint8): (d: int8)
    ensures d == 0 <==> from == to
    ensures U8(from + d) == to
  {
    GapRoundTrip(from, to);
    ToInt8(to - from)
  }

  /** One interpolated component, `from + gap * step / ledGap`, passed on as uint8_t. */
  function Lerp(from: uint8, gap: int8, step: int, ledGap: int8): (r: uint8)
    requires ledGap != 0
    ensures step == 0 ==> r == from
    ensures step == ledGap ==> r == U8(from + gap)
  {
    TruncDivOfMultiple(0, ledGap);
    TruncDivOfMultiple(gap, ledGap);
    U8(from + TruncDiv(gap * step, ledGap))
  }

  /** The colour `rgb_gradient` writes at step `step` of a range of length `ledGap`. */
  function RgbAt(from: RGB, to: RGB, ledGap: int8, step: int): (c: RGB)
    requires ledGap != 0
    ensures step == 0 ==> c == from
    ensures step == ledGap ==> c == to
  {
    RGB(Lerp(from.r, Gap(from.r, to.r), step, ledGap),
        Lerp(from.g, Gap(from.g, to.g), step, ledGap),
        Lerp(from.b, Gap(from.b, to.b), step, ledGap))
  }

  /** The HSV triple `hsv_gradient` converts at step `step` of a range of length `ledGap`. */
  function HsvAt(from: HSV, to: HSV, ledGap: int8, step: int): (c: HSV)
    requires ledGap != 0
    ensures step == 0 ==> c == from
    ensures step == ledGap ==> c == to
  {
    HSV(Lerp(from.h, Gap(from.h, to.h), step, ledGap),
        Lerp(from.s, Gap(from.s, to.s), step, ledGap),
        Lerp(from.v, Gap(from.v, to.v), step, ledGap))
  }

  /** The step at which a gradient starting at `ledFrom` would write index `j`. */
  function StepOf(ledFrom: uint8, j: int): uint8 {
    U8(j - ledFrom)
  }

  /** Index `j` is written by a gradient starting at `ledFrom` whose loop runs
      for steps 0..ledGap. */
  predicate Written(ledFrom: uint8, ledGap: int8, j: int) {
    0 <= j < 256 && StepOf(ledFrom, j) <= ledGap
  }

  /** The index `led_from + led` the loop writes at step `step`, as the uint8_t
      parameter of `set_led`. */
  function IndexAt(ledFrom: uint8, step: int): (j: uint8)
    ensures 0 <= step < 256 ==> StepOf(ledFrom, j) == step
  {
    U8(ledFrom + step)
  }

  /** Every index the loop writes lies inside a buffer of length `n`. */
  predicate Fits(n: nat, ledFrom: uint8, ledGap: int8) {
    forall i :: 0 <= i <= ledGap ==> IndexAt(ledFrom, i) < n
  }

  /** The loop's index `led_from + led` and `StepOf` are inverse to each other. */
  lemma StepOfIndex(ledFrom: uint8, step: uint8)
    ensures StepOf(ledFrom, IndexAt(ledFrom, step)) == step
    ensures forall j :: 0 <= j < 256 && StepOf(ledFrom, j) == step ==> j == IndexAt(ledFrom, step)
  {
  }

  /** Which indices a gradient writes, by the true difference led_to - led_from:
      - in [1, 127] exactly led_from..led_to;
      - in [-128, -1] none, as the loop runs zero times;
      - in [128, 255] none either, as the difference narrows to a negative int8_t;
      - in [-255, -129] the difference narrows to a positive int8_t and the
        indices wrap through uint8_t: led_from..255, then 0..led_to. */
  lemma {:induction false} WrittenSpan(ledFrom: uint8, ledTo: uint8, j: int)
    ensures 0 < ledTo - ledFrom <= 127 ==>
              (Written(ledFrom, Gap(ledFrom, ledTo), j) <==> ledFrom <= j <= ledTo)
    ensures -128 <= ledTo - ledFrom < 0 ==> !Written(ledFrom, Gap(ledFrom, ledTo), j)
    ensures 128 <= ledTo - ledFrom ==> !Written(ledFrom, Gap(ledFrom, ledTo), j)
    ensures ledTo - ledFrom <= -129 ==>
              (Written(ledFrom, Gap(ledFrom, ledTo), j) <==> ledFrom <= j < 256 || 0 <= j <= ledTo)
  {
    if 0 < ledTo - ledFrom <= 127 && 0 <= j < 256 {
      assert Gap(ledFrom, ledTo) == ledTo - ledFrom;
      if j < ledFrom {
        assert StepOf(ledFrom, j) == j - ledFrom + 256;
      } else {
        assert StepOf(ledFrom, j) == j - ledFrom;
      }
    } else if 128 <= ledTo - ledFrom {
      assert Gap(ledFrom, ledTo) == ledTo - ledFrom - 256;
    } else if ledTo - ledFrom <= -129 && 0 <= j < 256 {
      assert Gap(ledFrom, ledTo) == ledTo - ledFrom + 256;
      if j < ledFrom {
        assert StepOf(ledFrom, j) == j - ledFrom + 256;
      } else {
        assert StepOf(ledFrom, j) == j - ledFrom;
      }
    }
  }

  /** A range that does not wrap fits a buffer that holds its last index. */
  lemma FitsSpan(n: nat, ledFrom: uint8, ledTo: uint8)
    requires 0 < ledTo - ledFrom <= 127 && ledTo < n
    ensures Fits(n, ledFrom, Gap(ledFrom, ledTo))
  {
    assert Gap(ledFrom, ledTo) == ledTo - ledFrom;
  }

  /** The last step of a non-empty range writes index `led_to`. */
  lemma LastStep(ledFrom: uint8, ledTo: uint8)
    requires Gap(ledFrom, ledTo) > 0
    ensures StepOf(ledFrom, ledTo) == Gap(ledFrom, ledTo)
  {
    var d := Gap(ledFrom, ledTo);
    StepOfIndex(ledFrom, d);
  }

  /** `rgb_gradient`: fills steps 0..led_gap with the interpolated colours. */
  method RgbGradient(leds: seq<RGB>, ledFrom: uint8, from: RGB, ledTo: uint8, to: RGB)
    returns (out: seq<RGB>)
    requires ledFrom != ledTo
    requires Fits(|leds|, ledFrom, Gap(ledFrom, ledTo))
    ensures |out| == |leds|
    ensures forall j :: 0 <= j < |leds| ==>
              out[j] == if Written(ledFrom, Gap(ledFrom, ledTo), j)
                        then RgbAt(from, to, Gap(ledFrom, ledTo), StepOf(ledFrom, j))
                        else leds[j]
    ensures Gap(ledFrom, ledTo) > 0 ==> ledFrom < |out| && out[ledFrom] == from
    ensures Gap(ledFrom, ledTo) > 0 ==> ledTo < |out| && out[ledTo] == to
    ensures 0 < ledTo - ledFrom <= 127 ==>
              forall j :: 0 <= j < |leds| && (j < ledFrom || ledTo < j) ==> out[j] == leds[j]
    ensures -128 <= ledTo - ledFrom < 0 ==> out == leds
    ensures 128 <= ledTo - ledFrom ==> out == leds
  {
    var ledGap: int := Gap(ledFrom, ledTo);
    var rGap, gGap, bGap := Gap(from.r, to.r), Gap(from.g, to.g), Gap(from.b, to.b);
    out := leds;
    var led: int := 0;
    while led <= ledGap
      invariant 0 <= led && (ledGap < 0 ==> led == 0) && (ledGap >= 0 ==> led <= ledGap + 1)
      invariant |out| == |leds|
      invariant forall j :: 0 <= j < |leds| ==>
                  out[j] == if 0 <= j < 256 && StepOf(ledFrom, j) < led
                            then RgbAt(from, to, ledGap, StepOf(ledFrom, j))
                            else leds[j]
    {
      var index := IndexAt(ledFrom, led);
      StepOfIndex(ledFrom, led);
      out := SetLed(out, index, RGB(Lerp(from.r, rGap, led, ledGap),
                                    Lerp(from.g, gGap, led, ledGap),
                                    Lerp(from.b, bGap, led, ledGap)));
      led := led + 1;
    }
    if ledGap > 0 {
      LastStep(ledFrom, ledTo);
      assert IndexAt(ledFrom, 0) < |leds| && IndexAt(ledFrom, ledGap) < |leds|;
    }
    GradientShape(leds, out, ledFrom, ledTo);
  }

  /** `hsv_gradient`: fills steps 0..led_gap with the conversions of the
      interpolated HSV triples. */
  method HsvGradient(leds: seq<RGB>, ledFrom: uint8, from: HSV, ledTo: uint8, to: HSV)
    returns (out: seq<RGB>)
    requires ledFrom != ledTo
    requires Fits(|leds|, ledFrom, Gap(ledFrom, ledTo))
    ensures |out| == |leds|
    ensures forall j :: 0 <= j < |leds| ==>
              out[j] == if Written(ledFrom, Gap(ledFrom, ledTo), j)
                        then Hsv2Rgb(HsvAt(from, to, Gap(ledFrom, ledTo), StepOf(ledFrom, j)))
                        else leds[j]
    ensures Gap(ledFrom, ledTo) > 0 ==> ledFrom < |out| && out[ledFrom] == Hsv2Rgb(from)
    ensures Gap(ledFrom, ledTo) > 0 ==> ledTo < |out| && out[ledTo] == Hsv2Rgb(to)
    ensures 0 < ledTo - ledFrom <= 127 ==>
              forall j :: 0 <= j < |leds| && (j < ledFrom || ledTo < j) ==> out[j] == leds[j]
    ensures -128 <= ledTo - ledFrom < 0 ==> out == leds
    ensures 128 <= ledTo - ledFrom ==> out == leds
  {
    var ledGap: int := Gap(ledFrom, ledTo);
    var hGap, sGap, vGap := Gap(from.h, to.h), Gap(from.s, to.s), Gap(from.v, to.v);
    out := leds;
    var led: int := 0;
    while led <= ledGap
      invariant 0 <= led && (ledGap < 0 ==> led == 0) && (ledGap >= 0 ==> led <= ledGap + 1)
      invariant |out| == |leds|
      invariant forall j :: 0 <= j < |leds| ==>
                  out[j] == if 0 <= j < 256 && StepOf(ledFrom, j) < led
                            then Hsv2Rgb(HsvAt(from, to, ledGap, StepOf(ledFrom, j)))
                            else leds[j]
    {
      var index := IndexAt(ledFrom, led);
      StepOfIndex(ledFrom, led);
      out := SetLed(out, index, Hsv2RgbOf(Lerp(from.h, hGap, led, ledGap),
                                          Lerp(from.s, sGap, led, ledGap),
                                          Lerp(from.v, vGap, led, ledGap)));
      led := led + 1;
    }
    if ledGap > 0 {
      LastStep(ledFrom, ledTo);
      assert IndexAt(ledFrom, 0) < |leds| && IndexAt(ledFrom, ledGap) < |leds|;
    }
    GradientShape(leds, out, ledFrom, ledTo);
  }

  /** The shape of any fill that changes exactly the written indices: outside a
      range that does not wrap nothing changes, and a reversed range, or a
      forward one longer than 127, changes nothing at all. */
  lemma GradientShape(leds: seq<RGB>, out: seq<RGB>, ledFrom: uint8, ledTo: uint8)
    requires |out| == |leds|
    requires forall j :: 0 <= j < |leds| && !Written(ledFrom, Gap(ledFrom, ledTo), j) ==> out[j] == leds[j]
    ensures 0 < ledTo - ledFrom <= 127 ==>
              forall j :: 0 <= j < |leds| && (j < ledFrom || ledTo < j) ==> out[j] == leds[j]
    ensures -128 <= ledTo - ledFrom < 0 ==> out == leds
    ensures 128 <= ledTo - ledFrom ==> out == leds
  {
    forall j | 0 <= j < |leds|
      ensures (0 < ledTo - ledFrom <= 127 && (j < ledFrom || ledTo < j)) ==> out[j] == leds[j]
      ensures -128 <= ledTo - ledFrom < 0 ==> out[j] == leds[j]
      ensures 128 <= ledTo - ledFrom ==> out[j] == leds[j]
    {
      WrittenSpan(ledFrom, ledTo, j);
    }
  }

  /** When a channel's difference fits int8_t, its interpolated values stay
      between the two endpoints and move monotonically from the first to the
      second along the range. */
  lemma {:induction false} LerpMonotone(from: uint8, to: uint8, ledGap: int8, i: int, j: int)
    requires -128 <= to - from <= 127
    requires 0 < ledGap && 0 <= i <= j <= ledGap
    ensures var a := Lerp(from, Gap(from, to), i, ledGap);
            var b := Lerp(from, Gap(from, to), j, ledGap);
            && (from <= to ==> from <= a <= b <= to)
            && (to <= from ==> to <= b <= a <= from)
  {
    var d := to - from;
    assert Gap(from, to) == d;
    if d >= 0 {
      MulNonNegative(d, i);
      MulNonNegative(d, j);
      TruncDivNonNegative(d * i, ledGap);
      TruncDivNonNegative(d * j, ledGap);
      ScaledQuotient(d, i, j, ledGap);
    } else {
      var e := -d;
      MulSigns(e, i);
      MulSigns(e, j);
      MulNonNegative(e, i);
      MulNonNegative(e, j);
      TruncDivNonPositive(d * i, ledGap);
      TruncDivNonPositive(d * j, ledGap);
      ScaledQuotient(e, i, j, ledGap);
    }
  }

  /** The HSV gradient feeds the conversion only triples from its intended
      domain when both endpoints are in it. */
  lemma HsvAtValid(from: HSV, to: HSV, ledGap: int8, step: int)
    requires Valid(from) && Valid(to)
    requires 0 < ledGap && 0 <= step <= ledGap
    ensures Valid(HsvAt(from, to, ledGap, step))
  {
    LerpMonotone(from.s, to.s, ledGap, step, step);
    LerpMonotone(from.v, to.v, ledGap, step, step);
  }

  /** A channel whose difference does not fit int8_t stays put and then jumps:
      from 0 to 255 over four steps the int8_t gap is -1, and `-k / 4`
      truncates to 0, so the channel stays at 0 and jumps to 255 at the last
      LED, and a black-to-white gradient over LEDs 0..4 reads black, black,
      black, black, white. */
  lemma WrappedChannelJumps(step: int)
    requires 0 <= step <= 4
    ensures Gap(0, 255) == -1
    ensures Lerp(0, Gap(0, 255), step, 4) == if step == 4 then 255 else 0
    ensures RgbAt(Black, RGB(255, 255, 255), Gap(0, 4), step)
            == if step == 4 then RGB(255, 255, 255) else Black
  {
    var g := Gap(0, 255);
    assert g == -1;
    assert g * step == -step;
    TruncDivNonPositive(-step, 4);
    assert Gap(0, 4) == 4;
  }

  /** A wrapped channel can also run the wrong way round: from 0 to 200 over
      four steps the int8_t gap is -56, so the channel reads 0, 242, 228, 214,
      200, falling through the byte's wrap instead of rising. */
  lemma WrappedChannelReverses(step: int)
    requires 0 <= step <= 4
    ensures Gap(0, 200) == -56
    ensures Lerp(0, Gap(0, 200), step, 4) == if step == 0 then 0 else 256 - 14 * step
  {
    var g := Gap(0, 200);
    assert g == -56;
    assert g * step == -(56 * step);
    TruncDivNonPositive(-(56 * step), 4);
    assert (56 * step) / 4 == 14 * step;
  }
}
