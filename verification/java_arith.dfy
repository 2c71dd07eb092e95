/** The fixed-width Java arithmetic the attack relies on, written out over
    Dafny's unbounded integers: truncating division, the narrowing cast to
    `byte`, and `Math.round` applied to an exact quotient. */
module JavaArith {

  /** `Integer.MIN_VALUE`, the seed of the running maximum in the candidate scan. */
  const IntMinValue: int := -0x8000_0000

  /** `Byte.MIN_VALUE` and `Byte.MAX_VALUE`. */
  const ByteMinValue: int := -128
  const ByteMaxValue: int := 127

  predicate IsByte(x: int) {
    ByteMinValue <= x <= ByteMaxValue
  }

  /** `Math.max` on ints. */
  function Max(a: int, b: int): int {
    if a < b then b else a
  }

  /** Java's integer `/` for a positive divisor: the quotient is rounded toward
      zero, so the remainder carries the sign of the dividend. (Dafny's own `/`
      rounds toward minus infinity when the divisor is positive.) */
  function Div(a: int, b: int): (q: int)
    requires b > 0
    ensures a >= 0 ==> 0 <= a - q * b < b
    ensures a < 0 ==> -b < a - q * b <= 0
  {
    if a >= 0 then a / b else -((-a) / b)
  }

  /** The narrowing cast `(byte) x`: keeps the low eight bits and reads them
      as a two's-complement value. */
  function ToByte(x: int): (r: int)
    ensures IsByte(r)
    ensures (x - r) % 256 == 0
    ensures IsByte(x) ==> r == x
  {
    (x + 128) % 256 - 128
  }

  /** `Math.round(num / (double) den)` with the quotient taken exactly: the
      integer nearest to num/den, a half rounded up, i.e. floor(num/den + 1/2). */
  function RoundHalfUp(num: int, den: int): (r: int)
    requires den > 0
    ensures 2 * den * r <= 2 * num + den < 2 * den * (r + 1)
  {
    (2 * num + den) / (2 * den)
  }

  /** Rounding a quotient preserves an upper bound on it: if num <= den * hi
      then the rounded quotient is at most hi. */
  lemma RoundHalfUpAtMost(num: int, den: int, hi: int)
    requires den > 0
    requires num <= den * hi
    ensures RoundHalfUp(num, den) <= hi
  {
    var r := RoundHalfUp(num, den);
    assert 2 * den * r < 2 * den * (hi + 1) by {
      assert 2 * den * r <= 2 * num + den;
      assert 2 * num + den <= 2 * (den * hi) + den;
    }
    MultiplyCancels(r, hi + 1, 2 * den);
  }

  /** Rounding a quotient preserves a lower bound on it. */
  lemma RoundHalfUpAtLeast(num: int, den: int, lo: int)
    requires den > 0
    requires den * lo <= num
    ensures lo <= RoundHalfUp(num, den)
  {
    var r := RoundHalfUp(num, den);
    assert 2 * den * lo < 2 * den * (r + 1) by {
      assert 2 * num + den < 2 * den * (r + 1);
      assert 2 * (den * lo) <= 2 * num;
    }
    MultiplyCancels(lo, r + 1, 2 * den);
  }

  lemma MultiplyCancels(a: int, b: int, c: int)
    requires c > 0
    requires c * a < c * b
    ensures a < b
  {
  }
}
