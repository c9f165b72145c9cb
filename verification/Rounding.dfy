/** JavaScript's rounding over exact rationals: every rounded amount is an integer number of cents,
    tenths, thousandths or ten-thousandths, whichever the caller scales by. */
module Rounding {

  /** r is num / den rounded to the nearest integer, halves upwards. */
  predicate Rounds(num: int, den: int, r: int) {
    2 * (r * den) - den <= 2 * num < 2 * (r * den) + den
  }

  /** `Math.round(num / den)`: the floor of the exact quotient plus one half. */
  function RoundDiv(num: int, den: int): (r: int)
    requires den > 0
    ensures Rounds(num, den, r)
  {
    RoundedQuotient(num, den);
    (2 * num + den) / (2 * den)
  }

  lemma RoundedQuotient(num: int, den: int)
    requires den > 0
    ensures Rounds(num, den, (2 * num + den) / (2 * den))
  {
    var r := (2 * num + den) / (2 * den);
    assert 2 * num + den == (2 * den) * r + (2 * num + den) % (2 * den);
    assert (2 * den) * r == 2 * (r * den);
  }

  lemma LessTimes(a: int, b: int, u: int)
    ensures (a - b) * u == a * u - b * u
  {
  }

  lemma MulOrder(a: int, b: int, k: int)
    requires a <= b && 0 <= k
    ensures a * k <= b * k
  {
    assert 0 <= (b - a) * k;
    assert (b - a) * k == b * k - a * k;
  }

  /** Roundings keep order. */
  lemma RoundsMonotone(a: int, r: int, b: int, s: int, den: int)
    requires den > 0 && a <= b
    requires Rounds(a, den, r) && Rounds(b, den, s)
    ensures r <= s
  {
    assert (s + 1) * den == s * den + den;
    if s < r {
      MulOrder(s + 1, r, den);
    }
  }

  lemma RoundDivMonotone(a: int, b: int, den: int)
    requires den > 0 && a <= b
    ensures RoundDiv(a, den) <= RoundDiv(b, den)
  {
    RoundsMonotone(a, RoundDiv(a, den), b, RoundDiv(b, den), den);
  }

  /** Only one integer is the rounding of a quotient. */
  lemma RoundDivUnique(num: int, den: int, r: int)
    requires den > 0 && Rounds(num, den, r)
    ensures RoundDiv(num, den) == r
  {
    RoundsMonotone(num, RoundDiv(num, den), num, r, den);
    RoundsMonotone(num, r, num, RoundDiv(num, den), den);
  }

  /** Adding a whole number commutes with rounding. */
  lemma RoundDivShift(num: int, den: int, k: int)
    requires den > 0
    ensures RoundDiv(num + k * den, den) == RoundDiv(num, den) + k
  {
    var r := RoundDiv(num, den);
    assert (r + k) * den == r * den + k * den;
    RoundDivUnique(num + k * den, den, r + k);
  }

  lemma RoundDivWhole(k: int, den: int)
    requires den > 0
    ensures RoundDiv(k * den, den) == k
  {
    RoundDivUnique(k * den, den, k);
  }

  /** A rounded quotient lies within whole bounds that the exact quotient lies within. */
  lemma RoundDivWithin(num: int, den: int, lo: int, hi: int)
    requires den > 0 && lo * den <= num <= hi * den
    ensures lo <= RoundDiv(num, den) <= hi
  {
    RoundDivMonotone(lo * den, num, den);
    RoundDivMonotone(num, hi * den, den);
    RoundDivWhole(lo, den);
    RoundDivWhole(hi, den);
  }

  /** Exactly when a rounded quotient lies within whole bounds. */
  lemma RoundDivBetweenIff(num: int, den: int, lo: int, hi: int)
    requires den > 0
    ensures lo <= RoundDiv(num, den) <= hi <==> 2 * (lo * den) - den <= 2 * num < 2 * (hi * den) + den
  {
    RoundedBetweenIff(num, den, RoundDiv(num, den), lo, hi);
  }

  lemma RoundedBetweenIff(num: int, den: int, r: int, lo: int, hi: int)
    requires den > 0 && Rounds(num, den, r)
    ensures lo <= r <= hi <==> 2 * (lo * den) - den <= 2 * num < 2 * (hi * den) + den
  {
    assert (r + 1) * den == r * den + den && (hi + 1) * den == hi * den + den;
    if lo <= r {
      MulOrder(lo, r, den);
    } else {
      MulOrder(r + 1, lo, den);
    }
    if r <= hi {
      MulOrder(r, hi, den);
    } else {
      MulOrder(hi + 1, r, den);
    }
  }

  /** A quotient rounds to zero exactly when it is less than a half, or minus a half. */
  lemma RoundsToZeroIff(num: int, den: int)
    requires den > 0
    ensures RoundDiv(num, den) == 0 <==> -den <= 2 * num < den
  {
    if -den <= 2 * num < den {
      RoundDivUnique(num, den, 0);
    }
  }
}
