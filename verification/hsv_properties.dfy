/**
 Properties of the HSV to RGB conversion, mostly over its intended domain
 (saturation at most `MaxWhiteness` = 15, value at most 2 * `MaxValue` = 34):
 the uint8_t arithmetic never wraps, saturation 0 is grey, the output
 channels span exactly [low, high], and neighbouring hues give neighbouring
 colours. Three hold for every byte triple: the value axis is a triangle
 mirror (`MirrorLaw`), the output is black exactly for value 0 and 34
 (`BlackIffZeroValue`), and hue is periodic with period 96 (`HuePeriodic`).
 */
module HsvProperties {
  import opened CInt
  import opened ColorMath

  function Max3(c: RGB): uint8 {
    if c.r >= c.g && c.r >= c.b then c.r else if c.g >= c.b then c.g else c.b
  }

  function Min3(c: RGB): uint8 {
    if c.r <= c.g && c.r <= c.b then c.r else if c.g <= c.b then c.g else c.b
  }

  function Dist(a: int, b: int): nat {
    if a >= b then a - b else b - a
  }

  /** No channel of `x` and `y` differs by more than 16. */
  predicate Close(x: RGB, y: RGB) {
    Dist(x.r, y.r) <= 16 && Dist(x.g, y.g) <= 16 && Dist(x.b, y.b) <= 16
  }

  /** How far the transitioning channels have moved from low and high at hue
      offset `offset`, for `p` = saturation * value. */
  function Shift(p: int, offset: int): int {
    p * offset / SixthHue
  }

  lemma ShiftBounds(p: int, offset: int)
    requires 1 <= p <= 255 && 0 <= offset < SixthHue
    ensures 0 <= Shift(p, offset) <= p - 1
  {
    assert p * offset <= p * 15 by { MulMonotone(p, offset, 15); }
  }

  /** Moving one hue step inside a sextant moves the shift by at most 16. */
  lemma {:induction false} ShiftStep(p: int, offset: int)
    requires 1 <= p <= 255 && 0 <= offset < SixthHue - 1
    ensures 0 <= Shift(p, offset + 1) - Shift(p, offset) <= 16
    ensures Shift(p, 1) <= 15
  {
    assert p * (offset + 1) == p * offset + p;
    MulNonNegative(p, offset);
    assert p * 1 == p;
  }

  /** At the last offset of a sextant the transitioning channels are within
      16 of the level they reach at the next sextant's start. */
  lemma {:induction false} ShiftLast(p: int)
    requires 1 <= p <= 255
    ensures 1 <= p - Shift(p, SixthHue - 1) <= 16
  {
    assert p * 15 == 16 * p - p;
  }

  /** The uint8_t computations of `hsv2rgb` never wrap for saturation 1..15 and
      mirrored value 1..17: the narrowed levels equal the unbounded ones, the
      operand `v * offset` fits a byte, and the transitioning channels stay
      within [low, high], with `rising` strictly below `high`. */
  lemma {:induction false} NoWraparound(h: uint8, s: uint8, m: uint8)
    requires 0 < s <= MaxWhiteness && 0 < m <= MaxValue
    ensures m * (h % SixthHue) <= 255
    ensures var lv := UnboundedLevels(h, s, m);
            && ChromaLevels(h, s, m) == lv
            && lv.high == m * MaxWhiteness <= 255
            && lv.high - lv.low == s * m
            && 0 <= lv.low <= lv.rising <= lv.high
            && lv.low <= lv.falling <= lv.high
            && (h % SixthHue > 0 ==> lv.rising < lv.high)
  {
    var offset := h % SixthHue;
    var p := s * m;
    MulMonotone(m, offset, 15);
    MulMonotone(m, 0, offset);
    MulMonotone(m, s, 15);
    MulMonotone(s, m, 17);
    assert m * (MaxWhiteness - s) == m * 15 - p;
    assert s * (m * offset) == p * offset;
    ShiftBounds(p, offset);
    assert Peak(m) == m * 15;
    assert U8(MaxWhiteness - s) == 15 - s;
    assert U8(m * (15 - s)) == m * (15 - s);
    assert U8(m * offset) == m * offset;
  }

  /** Rewrites the levels in terms of `Shift`, for the continuity proof. */
  lemma LevelsByShift(h: uint8, s: uint8, m: uint8)
    requires 0 < s <= MaxWhiteness && 0 < m <= MaxValue
    ensures var lv := UnboundedLevels(h, s, m);
            var z := Shift(s * m, h % SixthHue);
            && lv.low == lv.high - s * m
            && lv.rising == lv.low + z
            && lv.falling == lv.high - z - (if h % SixthHue > 0 then 1 else 0)
  {
    var offset := h % SixthHue;
    assert s * (m * offset) == (s * m) * offset;
    assert m * (MaxWhiteness - s) == m * 15 - s * m;
    assert (s * m) * 0 == 0;
  }

  /** Values above 17 mirror those below: `hsv2rgb(h, s, v) == hsv2rgb(h, s, 34 - v)`
      for 17 < v <= 34, whatever the saturation. */
  lemma MirrorLaw(h: uint8, s: uint8, v: uint8)
    requires MaxValue < v <= 2 * MaxValue
    ensures Hsv2Rgb(HSV(h, s, v)) == Hsv2Rgb(HSV(h, s, 2 * MaxValue - v))
  {
  }

  /** A non-zero mirrored value never has a peak of 0 modulo 256: 15 * m is a
      multiple of 256 only for m a multiple of 256. */
  lemma PeakNonZero(m: uint8)
    requires m > 0
    ensures Peak(m) != 0
  {
  }

  /** For every byte triple the output is black exactly when the mirrored
      value is 0, that is for value 0 and value 34. */
  lemma BlackIffZeroValue(c: HSV)
    ensures Hsv2Rgb(c) == Black <==> c.v == 0 || c.v == 2 * MaxValue
  {
    var m := MirrorValue(c.v);
    assert m == 0 <==> c.v == 0 || c.v == 2 * MaxValue;
    if m > 0 {
      PeakNonZero(m);
    }
  }

  /** Saturation 0 gives the grey whose channels are all `15 * v'`, v' the
      mirrored value. */
  lemma GreyscaleLaw(c: HSV)
    requires Valid(c) && c.s == 0
    ensures var g := MirrorValue(c.v) * MaxWhiteness;
            Hsv2Rgb(c) == RGB(g, g, g)
  {
  }

  /** On the intended domain the three channels are equal exactly when the
      output is grey or black. */
  lemma {:induction false} GreyIffUnsaturated(c: HSV)
    requires Valid(c)
    ensures var r := Hsv2Rgb(c);
            r.r == r.g == r.b <==> c.s == 0 || MirrorValue(c.v) == 0
  {
    var m := MirrorValue(c.v);
    if m > 0 && c.s > 0 {
      MulMonotone(c.s, 1, m);
      ChannelExtremes(c);
    }
  }

  /** For a non-black, non-grey input the largest channel is `high = 15 * v'`,
      the smallest is `low = v' * (15 - s)`, and the third lies between them. */
  lemma {:induction false} ChannelExtremes(c: HSV)
    requires Valid(c) && c.s > 0 && MirrorValue(c.v) > 0
    ensures var m := MirrorValue(c.v);
            && Max3(Hsv2Rgb(c)) == m * MaxWhiteness
            && Min3(Hsv2Rgb(c)) == m * (MaxWhiteness - c.s)
  {
    var m := MirrorValue(c.v);
    NoWraparound(c.h, c.s, m);
    assert m * (MaxWhiteness - c.s) == m * 15 - c.s * m;
  }

  /** Hue has period 96 for every saturation and value. */
  lemma HuePeriodic(h: uint8, s: uint8, v: uint8)
    requires h + FullHue < 256
    ensures Hsv2Rgb(HSV(h, s, v)) == Hsv2Rgb(HSV(h + FullHue, s, v))
  {
    assert (h + FullHue) % SixthHue == h % SixthHue;
    assert ReduceHue(h + FullHue) == ReduceHue(h);
    var m := MirrorValue(v);
    assert ChromaLevels(h + FullHue, s, m) == ChromaLevels(h, s, m);
  }

  /** Full saturation and value: hue 0 is pure red and hue 48 is cyan. */
  lemma Anchors()
    ensures Hsv2Rgb(HSV(0, MaxWhiteness, MaxValue)) == RGB(255, 0, 0)
    ensures Hsv2Rgb(HSV(HalfHue, MaxWhiteness, MaxValue)) == RGB(0, 255, 255)
  {
  }

  /** At the start of a sextant, full saturation and value, every channel is 0
      or 255: no clipping is ever needed. */
  lemma SextantStartsAreExtreme(h: uint8)
    requires h % SixthHue == 0
    ensures var r := Hsv2Rgb(HSV(h, MaxWhiteness, MaxValue));
            && (r.r == 0 || r.r == 255)
            && (r.g == 0 || r.g == 255)
            && (r.b == 0 || r.b == 255)
  {
  }

  /** The reduced hue keeps the offset within the sextant, and one hue step
      advances it by one except at the end of the period. */
  lemma ReducedOffset(h: uint8)
    ensures ReduceHue(h) % SixthHue == h % SixthHue
    ensures h < 255 && h % SixthHue < SixthHue - 1 ==> ReduceHue(h + 1) == ReduceHue(h) + 1
    ensures h < 255 && ReduceHue(h) < FullHue - 1 ==> ReduceHue(h + 1) == ReduceHue(h) + 1
    ensures h < 255 && ReduceHue(h) == FullHue - 1 ==> ReduceHue(h + 1) == 0
  {
    var k := ReduceHue(h);
    if h < 96 {
      assert k == h;
    } else if h < 192 {
      assert k == h - 96;
    } else {
      assert k == h - 192;
    }
    if h < 255 {
      var k' := ReduceHue(h + 1);
      if h + 1 < 96 {
        assert k' == h + 1;
      } else if h + 1 < 192 {
        assert k' == h + 1 - 96;
      } else {
        assert k' == h + 1 - 192;
      }
    }
  }

  /** One hue step inside a sextant: the peak and trough stay, the transitioning
      channels move by at most 16. */
  lemma ArrangeStepWithin(k: uint8, lv: Levels, lv': Levels)
    requires k < FullHue - 1 && k % SixthHue < SixthHue - 1
    requires LevelsInRange(lv) && LevelsInRange(lv')
    requires lv.high == lv'.high && lv.low == lv'.low
    requires Dist(lv.rising, lv'.rising) <= 16 && Dist(lv.falling, lv'.falling) <= 16
    ensures Close(Arrange(k, lv), Arrange(k + 1, lv'))
  {
  }

  /** One hue step across a sextant boundary: the next sextant starts with its
      transitioning channels at low and high, which the last offset of the
      previous sextant is within 16 of. */
  lemma ArrangeStepAcross(k: uint8, lv: Levels, lv': Levels)
    requires k < FullHue && k % SixthHue == SixthHue - 1
    requires LevelsInRange(lv) && LevelsInRange(lv')
    requires lv.high == lv'.high && lv.low == lv'.low
    requires lv'.rising == lv'.low && lv'.falling == lv'.high
    requires Dist(lv.rising, lv.high) <= 16 && Dist(lv.falling, lv.low) <= 16
    ensures Close(Arrange(k, lv), Arrange(if k == FullHue - 1 then 0 else k + 1, lv'))
  {
  }

  /** For a chromatic input the conversion is the sextant arrangement of the levels. */
  lemma Chromatic(c: HSV)
    requires c.s > 0 && MirrorValue(c.v) > 0
    ensures Hsv2Rgb(c) == Arrange(ReduceHue(c.h), ChromaLevels(c.h, c.s, MirrorValue(c.v)))
  {
  }

  /** The levels of a chromatic input, in terms of the peak, `p` = s * m and the shift. */
  lemma {:induction false} ChromaticLevels(h: uint8, s: uint8, m: uint8)
    requires 0 < s <= MaxWhiteness && 0 < m <= MaxValue
    ensures var lv := ChromaLevels(h, s, m);
            var z := Shift(s * m, h % SixthHue);
            && LevelsInRange(lv)
            && lv.high == m * MaxWhiteness
            && lv.low == lv.high - s * m
            && lv.rising == lv.low + z
            && lv.falling == lv.high - z - (if h % SixthHue > 0 then 1 else 0)
  {
    NoWraparound(h, s, m);
    LevelsByShift(h, s, m);
  }

  /** Inside a sextant one hue step keeps the peak and trough and moves each
      transitioning channel by at most 16. */
  lemma {:induction false} LevelsStepWithin(h: uint8, s: uint8, m: uint8)
    requires h < 255 && 0 < s <= MaxWhiteness && 0 < m <= MaxValue
    requires h % SixthHue < SixthHue - 1
    ensures var lv, lv' := ChromaLevels(h, s, m), ChromaLevels(h + 1, s, m);
            && lv.high == lv'.high && lv.low == lv'.low
            && Dist(lv.rising, lv'.rising) <= 16
            && Dist(lv.falling, lv'.falling) <= 16
  {
    var p := s * m;
    MulMonotone(s, m, 17);
    MulMonotone(s, 1, m);
    var offset := h % SixthHue;
    assert (h + 1) % SixthHue == offset + 1;
    var lv, lv' := ChromaLevels(h, s, m), ChromaLevels(h + 1, s, m);
    var z, z' := Shift(p, offset), Shift(p, offset + 1);
    assert lv.high == lv'.high && lv.low == lv'.low
        && lv.rising == lv.low + z && lv'.rising == lv.low + z'
        && lv.falling == lv.high - z - (if offset > 0 then 1 else 0)
        && lv'.falling == lv.high - z' - 1 by {
      ChromaticLevels(h, s, m);
      ChromaticLevels(h + 1, s, m);
    }
    assert 0 <= z' - z <= 16 && (offset == 0 ==> z == 0 && z' <= 15) by {
      ShiftStep(p, offset);
    }
  }

  /** Across a sextant boundary the next hue starts with its transitioning
      channels at low and high, within 16 of where the last offset left them. */
  lemma {:induction false} LevelsStepAcross(h: uint8, s: uint8, m: uint8)
    requires h < 255 && 0 < s <= MaxWhiteness && 0 < m <= MaxValue
    requires h % SixthHue == SixthHue - 1
    ensures var lv, lv' := ChromaLevels(h, s, m), ChromaLevels(h + 1, s, m);
            && lv.high == lv'.high && lv.low == lv'.low
            && lv'.rising == lv'.low && lv'.falling == lv'.high
            && Dist(lv.rising, lv.high) <= 16
            && Dist(lv.falling, lv.low) <= 16
  {
    var p := s * m;
    MulMonotone(s, m, 17);
    MulMonotone(s, 1, m);
    assert (h + 1) % SixthHue == 0;
    var lv, lv' := ChromaLevels(h, s, m), ChromaLevels(h + 1, s, m);
    var z := Shift(p, SixthHue - 1);
    assert lv.high == lv'.high && lv.low == lv'.low && lv.low == lv.high - p
        && lv.rising == lv.low + z && lv.falling == lv.high - z - 1
        && lv'.rising == lv'.low && lv'.falling == lv'.high by {
      ChromaticLevels(h, s, m);
      ChromaticLevels(h + 1, s, m);
      assert Shift(p, 0) == 0;
    }
    assert 1 <= p - z <= 16 by {
      ShiftLast(p);
    }
  }

  /** The chromatic part of `HueContinuity` inside a sextant. */
  lemma {:induction false} ChromaticStepWithin(h: uint8, s: uint8, m: uint8)
    requires h < 255 && 0 < s <= MaxWhiteness && 0 < m <= MaxValue
    requires h % SixthHue < SixthHue - 1
    ensures Close(Arrange(ReduceHue(h), ChromaLevels(h, s, m)),
                  Arrange(ReduceHue(h + 1), ChromaLevels(h + 1, s, m)))
  {
    ReducedOffset(h);
    LevelsStepWithin(h, s, m);
    ArrangeStepWithin(ReduceHue(h), ChromaLevels(h, s, m), ChromaLevels(h + 1, s, m));
  }

  /** The chromatic part of `HueContinuity` across a sextant boundary. */
  lemma {:induction false} ChromaticStepAcross(h: uint8, s: uint8, m: uint8)
    requires h < 255 && 0 < s <= MaxWhiteness && 0 < m <= MaxValue
    requires h % SixthHue == SixthHue - 1
    ensures Close(Arrange(ReduceHue(h), ChromaLevels(h, s, m)),
                  Arrange(ReduceHue(h + 1), ChromaLevels(h + 1, s, m)))
  {
    ReducedOffset(h);
    LevelsStepAcross(h, s, m);
    var k := ReduceHue(h);
    assert ReduceHue(h + 1) == if k == FullHue - 1 then 0 else k + 1;
    ArrangeStepAcross(k, ChromaLevels(h, s, m), ChromaLevels(h + 1, s, m));
  }

  /** Neighbouring hues give colours no channel of which differs by more than
      16, across sextant boundaries and across the 95 to 96 wrap. */
  lemma {:induction false} HueContinuity(h: uint8, s: uint8, v: uint8)
    requires h < 255 && s <= MaxWhiteness && v <= 2 * MaxValue
    ensures Close(Hsv2Rgb(HSV(h, s, v)), Hsv2Rgb(HSV(h + 1, s, v)))
  {
    var m := MirrorValue(v);
    if m > 0 && s > 0 {
      Chromatic(HSV(h, s, v));
      Chromatic(HSV(h + 1, s, v));
      if h % SixthHue < SixthHue - 1 {
        ChromaticStepWithin(h, s, m);
      } else {
        ChromaticStepAcross(h, s, m);
      }
    }
  }
}
