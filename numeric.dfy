/**
 * Number semantics shared by the engine and the palette utilities: the byte
 * cells of a Uint8ClampedArray, JavaScript's Math.round, and the remainder
 * operator `%` on numbers. All arithmetic is on exact reals.
 */
module Numeric {

  /** The value held by one cell of a Uint8ClampedArray. */
  type Byte = x: int | 0 <= x <= 255

  /** JavaScript's Math.round: the nearest integer, halves rounded towards +infinity. */
  function RoundHalfUp(x: real): (n: int)
    ensures n as real - 0.5 <= x < n as real + 0.5
  {
    (x + 0.5).Floor
  }

  /** Math.round leaves integers alone. */
  lemma {:induction false} RoundHalfUpInt(n: int)
    ensures RoundHalfUp(n as real) == n
  {
  }

  /** Rounding keeps integer bounds: lo <= x <= hi gives lo <= Math.round(x) <= hi. */
  lemma {:induction false} RoundHalfUpWithin(x: real, lo: int, hi: int)
    requires lo as real <= x <= hi as real
    ensures lo <= RoundHalfUp(x) <= hi
  {
  }

  /** Math.round is monotone. */
  lemma {:induction false} RoundHalfUpMonotone(x: real, y: real)
    requires x <= y
    ensures RoundHalfUp(x) <= RoundHalfUp(y)
  {
    assert x + 0.5 <= y + 0.5;
  }

  /** The nearest integer, ties to the even neighbour. */
  function RoundHalfEven(x: real): int {
    var f := x.Floor;
    var frac := x - f as real;
    if frac < 0.5 then f
    else if frac > 0.5 then f + 1
    else if f % 2 == 0 then f
    else f + 1
  }

  /** RoundHalfEven is within one half of its argument, and a tie goes to the even integer. */
  lemma {:induction false} RoundHalfEvenNearest(x: real)
    ensures RoundHalfEven(x) as real - 0.5 <= x <= RoundHalfEven(x) as real + 0.5
    ensures x == RoundHalfEven(x) as real - 0.5 || x == RoundHalfEven(x) as real + 0.5 ==> RoundHalfEven(x) % 2 == 0
  {
  }

  /** Math.max(lo, Math.min(hi, x)). */
  function Clamp(x: real, lo: real, hi: real): (y: real)
    requires lo <= hi
    ensures lo <= y <= hi
    ensures lo <= x <= hi ==> y == x
    ensures x < lo ==> y == lo
    ensures x > hi ==> y == hi
  {
    if x > hi then hi else if x < lo then lo else x
  }

  /**
   * The byte kept when `Math.max(0, Math.min(255, x))` is assigned to a
   * Uint8ClampedArray cell: the clamped value, rounded half to even.
   */
  function ClampedStore(x: real): Byte {
    RoundHalfEvenWithin(Clamp(x, 0.0, 255.0));
    RoundHalfEven(Clamp(x, 0.0, 255.0))
  }

  /** A value in [0, 255] rounds, half to even, into [0, 255]. */
  lemma {:induction false} RoundHalfEvenWithin(y: real)
    requires 0.0 <= y <= 255.0
    ensures 0 <= RoundHalfEven(y) <= 255
  {
    RoundHalfEvenNearest(y);
  }

  /** What a store keeps: 0 below the range, 255 above it, the nearest byte within it. */
  lemma {:induction false} ClampedStoreSpec(x: real)
    ensures x <= 0.0 ==> ClampedStore(x) == 0
    ensures x >= 255.0 ==> ClampedStore(x) == 255
    ensures 0.0 <= x <= 255.0 ==> ClampedStore(x) as real - 0.5 <= x <= ClampedStore(x) as real + 0.5
  {
    RoundHalfEvenNearest(Clamp(x, 0.0, 255.0));
  }

  /** Storing a byte value back into its cell keeps it. */
  lemma {:induction false} ClampedStoreByte(v: Byte)
    ensures ClampedStore(v as real) == v
  {
    ClampedStoreSpec(v as real);
  }

  /** Truncation towards zero, as the JavaScript `%` operator uses it. */
  function Trunc(x: real): (n: int)
    ensures x >= 0.0 ==> n as real <= x < n as real + 1.0
    ensures x < 0.0 ==> n as real - 1.0 < x <= n as real
  {
    if x >= 0.0 then x.Floor else -((-x).Floor)
  }

  /**
   * JavaScript's `a % m` on numbers: a - m * q for the quotient q truncated
   * towards zero, so the remainder takes the sign of the dividend. The
   * source divides only by the constants 360 and 2; RemBounds states the
   * remainder's range for those two.
   */
  function JsRem(a: real, m: real): real
    requires m > 0.0
  {
    a - m * Trunc(a / m) as real
  }

  /** The range of `a % 360` and `a % 2`, and where they leave a unchanged or subtract one m. */
  lemma {:induction false} RemBounds(a: real, m: real)
    requires m == 360.0 || m == 2.0
    ensures a >= 0.0 ==> 0.0 <= JsRem(a, m) < m
    ensures a < 0.0 ==> -m < JsRem(a, m) <= 0.0
    ensures 0.0 <= a < m ==> JsRem(a, m) == a
    ensures m <= a < 2.0 * m ==> JsRem(a, m) == a - m
    ensures m == 2.0 && 4.0 <= a < 6.0 ==> JsRem(a, m) == a - 4.0
  {
    if m == 360.0 {
      var q := Trunc(a / 360.0);
      assert JsRem(a, m) == a - 360.0 * q as real;
    } else {
      var q := Trunc(a / 2.0);
      assert JsRem(a, m) == a - 2.0 * q as real;
    }
  }
}
