/**
 C integer semantics used by the colour kernel: narrowing to the fixed-width
 types uint8_t and int8_t (two's complement), and C's integer division,
 which truncates toward zero where Dafny's `/` is Euclidean.
 */
module CInt {

  /** The values of a C `uint8_t`. */
  type uint8 = x: int | 0 <= x < 256

  /** The values of a C `int8_t`. */
  type int8 = x: int | -128 <= x < 128

  function Abs(x: int): nat {
    if x < 0 then -x else x
  }

  /** Conversion of an int to `uint8_t`: the unique byte congruent to `x` modulo 2^8. */
  function U8(x: int): (r: uint8)
    ensures 0 <= x < 256 ==> r == x
    ensures (x - r) % 256 == 0
  {
    x % 256
  }

  /** Narrowing of an int to `int8_t`, assuming two's complement: the unique
      value in [-128, 127] congruent to `x` modulo 2^8. */
  function ToInt8(x: int): (r: int8)
    ensures -128 <= x < 128 ==> r == x
    ensures (x - r) % 256 == 0
  {
    var m := x % 256;
    if m < 128 then m else m - 256
  }

  /** An int8 gap added back to its starting byte gives the ending byte, even
      when the true difference does not fit in int8 and wrapped. */
  lemma GapRoundTrip(a: uint8, b: uint8)
    ensures U8(a + ToInt8(b - a)) == b
  {
    var d := ToInt8(b - a);
    var m := (b - a) % 256;
    assert d == m || d == m - 256;
    assert (b - a) - m == 256 * ((b - a) / 256);
    assert a + m == b - 256 * ((b - a) / 256);
  }

  /** C's `a / b`: the quotient truncated toward zero, so that the remainder
      `a - q * b` is smaller than the divisor in magnitude and carries the sign
      of the dividend. */
  function TruncDiv(a: int, b: int): (q: int)
    requires b != 0
    ensures Abs(a - q * b) < Abs(b)
    ensures a >= 0 ==> a - q * b >= 0
    ensures a <= 0 ==> a - q * b <= 0
  {
    var n := Abs(a) / Abs(b);
    TruncDivRemainder(a, b, n);
    if (a < 0) == (b < 0) then n else -n
  }

  lemma MulSigns(x: int, y: int)
    ensures (-x) * (-y) == x * y
    ensures (-x) * y == -(x * y)
    ensures x * (-y) == -(x * y)
  {
  }

  lemma TruncDivRemainder(a: int, b: int, n: int)
    requires b != 0 && n == Abs(a) / Abs(b)
    ensures var q := if (a < 0) == (b < 0) then n else -n;
            && Abs(a - q * b) < Abs(b)
            && (a >= 0 ==> a - q * b >= 0)
            && (a <= 0 ==> a - q * b <= 0)
  {
    var aa: int, bb: int := Abs(a), Abs(b);
    var rr := aa % bb;
    assert aa == n * bb + rr;
    var q := if (a < 0) == (b < 0) then n else -n;
    MulSigns(n, bb);
    assert q * b == (if a >= 0 then n * bb else -(n * bb));
  }

  /** The quotient is determined by the truncation conditions: dividing an exact
      multiple gives back the multiplier. */
  lemma TruncDivOfMultiple(x: int, b: int)
    requires b != 0
    ensures TruncDiv(x * b, b) == x
  {
    var q := TruncDiv(x * b, b);
    assert x * b - q * b == (x - q) * b;
    if x != q {
      AbsMulAtLeast(x - q, b);
      assert false;
    }
  }

  lemma AbsMulAtLeast(k: int, b: int)
    requires k != 0
    ensures Abs(k * b) >= Abs(b)
  {
    var kk: int, bb: int := Abs(k), Abs(b);
    MulSigns(kk, bb);
    assert k * b == kk * bb || k * b == -(kk * bb);
    MulNonNegative(kk - 1, bb);
    assert kk * bb == (kk - 1) * bb + bb;
  }

  lemma MulNonNegative(x: nat, y: nat)
    ensures x * y >= 0
  {
  }

  /** For a positive divisor and a non-negative dividend, C's quotient is the
      Euclidean one. */
  lemma TruncDivNonNegative(a: int, b: int)
    requires a >= 0 && b > 0
    ensures TruncDiv(a, b) == a / b
  {
  }

  /** For a positive divisor and a non-positive dividend, C's quotient is the
      negated quotient of the magnitudes. */
  lemma TruncDivNonPositive(a: int, b: int)
    requires a <= 0 && b > 0
    ensures TruncDiv(a, b) == -((-a) / b)
  {
  }

  lemma MulMonotone(p: nat, x: int, y: int)
    requires x <= y
    ensures p * x <= p * y
  {
    assert p * y - p * x == p * (y - x);
    MulNonNegative(p, y - x);
  }

  lemma DivMonotone(x: int, y: int, d: int)
    requires 0 <= x <= y && d > 0
    ensures x / d <= y / d
  {
    var qx, qy := x / d, y / d;
    if qx > qy {
      assert d * (qy + 1) == d * qy + d;
      MulMonotone(d, qy + 1, qx);
      assert false;
    }
  }

  lemma MulDivCancel(x: int, d: int)
    requires d > 0
    ensures x * d / d == x
  {
    var q := x * d / d;
    var r := x * d % d;
    assert x * d == d * q + r;
    assert d * (x - q) == r;
    if x - q > 0 {
      MulMonotone(d, 1, x - q);
    } else if x - q < 0 {
      MulMonotone(d, x - q, -1);
    }
  }

  /** Dividing `x * k` by `d` for 0 <= k <= d stays within [0, x] and grows with k. */
  lemma {:induction false} ScaledQuotient(x: nat, i: int, j: int, d: int)
    requires d > 0 && 0 <= i <= j <= d
    ensures 0 <= x * i / d <= x * j / d <= x
  {
    var a, b, c := x * i, x * j, x * d;
    assert 0 <= a <= b <= c by {
      MulNonNegative(x, i);
      MulMonotone(x, i, j);
      MulMonotone(x, j, d);
    }
    assert 0 <= a / d by { DivMonotone(0, a, d); }
    assert a / d <= b / d by { DivMonotone(a, b, d); }
    assert b / d <= c / d by { DivMonotone(b, c, d); }
    assert c / d == x by { MulDivCancel(x, d); }
  }
}
