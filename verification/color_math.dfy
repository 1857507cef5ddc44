/**
 The quantised HSV colour space of the kernel and its conversion to 8-bit RGB.

 Hue has period 96 (six sextants of 16), saturation runs over 0..15 and value
 over 0..17, with 18..34 folded back onto 16..0 so that a linear sweep of the
 value gives a brighten-then-dim cycle. Every `uint8_t` store of the C
 conversion is written out as `U8`, so `Hsv2Rgb` is total over bytes and
 reproduces the wrap-around the C code would show on inputs outside the
 intended domain; `NoWraparound` shows that none of it happens inside it.
 */
module ColorMath {
  import opened CInt

  const MaxWhiteness: uint8 := 15
  const MaxValue: uint8 := 17

  const SixthHue: uint8 := 16
  const ThirdHue: uint8 := SixthHue * 2
  const HalfHue: uint8 := SixthHue * 3
  const TwoThirdsHue: uint8 := SixthHue * 4
  const FiveSixthsHue: uint8 := SixthHue * 5
  const FullHue: uint8 := SixthHue * 6

  datatype RGB = RGB(r: uint8, g: uint8, b: uint8)

  datatype HSV = HSV(h: uint8, s: uint8, v: uint8)

  const Black := RGB(0, 0, 0)

  /** The intended input domain of the conversion, as the constants bound it:
      any hue, saturation at most `MaxWhiteness`, value at most 2 * `MaxValue`. */
  predicate Valid(c: HSV) {
    c.s <= MaxWhiteness && c.v <= 2 * MaxValue
  }

  /** Lines 33-35: values above 17 are reflected about 17 (stored back in uint8_t). */
  function MirrorValue(v: uint8): (m: uint8)
    ensures v <= 2 * MaxValue ==> m <= MaxValue
    ensures v <= 2 * MaxValue ==> m + v == 2 * MaxValue || m == v
  {
    if v > MaxValue then U8(MaxValue * 2 - v) else v
  }

  /** The hue reduced into one period by repeated subtraction, as the C loop does. */
  function ReduceHue(h: uint8): (r: uint8)
    ensures r < FullHue
    ensures r == h % FullHue
    decreases h
  {
    if h >= FullHue then ReduceHue(h - FullHue) else h
  }

  /** The four channel magnitudes the conversion distributes over red, green
      and blue: the peak, the trough, and the two channels in transition. */
  datatype Levels = Levels(high: int, low: int, rising: int, falling: int)

  predicate LevelsInRange(lv: Levels) {
    && 0 <= lv.high < 256 && 0 <= lv.low < 256
    && 0 <= lv.rising < 256 && 0 <= lv.falling < 256
  }

  /** The peak channel for a (mirrored) value. */
  function Peak(v: uint8): uint8 {
    U8(v * MaxWhiteness)
  }

  /** The levels as the C code computes them, each stored in a uint8_t. The
      ensures only records that every level is a byte; that no store wraps on
      the intended domain, so that these are the levels the arithmetic means,
      is `HsvProperties.NoWraparound`. */
  function ChromaLevels(h: uint8, s: uint8, v: uint8): (lv: Levels)
    ensures LevelsInRange(lv)
  {
    var high := Peak(v);
    var w := U8(MaxWhiteness - s);
    var low := U8(v * w);
    var offset := h % SixthHue;
    if offset > 0 then
      // all operands are non-negative, so C's division is Dafny's
      var z := U8(s * U8(v * offset) / SixthHue);
      Levels(high, low, U8(low + z), U8(high - (z + 1)))
    else
      Levels(high, low, low, high)
  }

  /** The same levels computed over unbounded integers, with no narrowing. */
  function UnboundedLevels(h: int, s: int, v: int): Levels {
    var high := v * MaxWhiteness;
    var low := v * (MaxWhiteness - s);
    var offset := h % SixthHue;
    if offset > 0 then
      var z := s * (v * offset) / SixthHue;
      Levels(high, low, low + z, high - (z + 1))
    else
      Levels(high, low, low, high)
  }

  /** The transitioning level a sextant shows: green, blue and red rise in
      sextants 0, 2 and 4, while red, green and blue fall in sextants 1, 3 and 5. */
  function Moving(hue: uint8, lv: Levels): int {
    if (hue / SixthHue) % 2 == 0 then lv.rising else lv.falling
  }

  /** Lines 57-62: the channel assignment of the sextant the reduced hue lies in.
      Whatever the sextant, the peak and the trough each reach some channel. */
  function Arrange(hue: uint8, lv: Levels): (c: RGB)
    requires LevelsInRange(lv)
    ensures c.r == lv.high || c.g == lv.high || c.b == lv.high
    ensures c.r == lv.low || c.g == lv.low || c.b == lv.low
  {
    if hue < SixthHue then RGB(lv.high, lv.rising, lv.low)
    else if hue < ThirdHue then RGB(lv.falling, lv.high, lv.low)
    else if hue < HalfHue then RGB(lv.low, lv.high, lv.rising)
    else if hue < TwoThirdsHue then RGB(lv.low, lv.falling, lv.high)
    else if hue < FiveSixthsHue then RGB(lv.rising, lv.low, lv.high)
    else RGB(lv.high, lv.low, lv.falling)
  }

  /** Every sextant shows the peak, the trough and its one transitioning level,
      each on exactly one channel. */
  lemma ArrangeShowsLevels(hue: uint8, lv: Levels)
    requires hue < FullHue && LevelsInRange(lv)
    ensures var c := Arrange(hue, lv);
            multiset{c.r, c.g, c.b} == multiset{lv.high, lv.low, Moving(hue, lv)}
  {
  }

  /** The conversion `hsv2rgb(HSV_t)`, exactly as written, uint8_t wrap-around
      included. Value 0 is black whatever the hue and saturation, saturation 0
      is grey, and any other mirrored value shows its peak on some channel. */
  function Hsv2Rgb(c: HSV): (r: RGB)
    ensures c.v == 0 ==> r == Black
    ensures c.s == 0 ==> r.r == r.g == r.b
    ensures MirrorValue(c.v) > 0 ==> Peak(MirrorValue(c.v)) in {r.r, r.g, r.b}
  {
    var v := MirrorValue(c.v);
    if v == 0 then Black
    else
      var high := Peak(v);
      if c.s == 0 then RGB(high, high, high)
      else
        var lv := ChromaLevels(c.h, c.s, v);
        ArrangeShowsLevels(ReduceHue(c.h), lv);
        Arrange(ReduceHue(c.h), lv)
  }

  /** The overload `hsv2rgb(uint8_t, uint8_t, uint8_t)`, which packs its
      arguments and converts them. */
  function Hsv2RgbOf(h: uint8, s: uint8, v: uint8): RGB {
    Hsv2Rgb(HSV(h, s, v))
  }
}
