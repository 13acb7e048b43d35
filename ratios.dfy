/** Completion ratios as the pages compare and round them, stated on exact
    integers: `completed / total >= threshold` and
    `Math.round((completed / total) * 100)`. */
module Ratios {
  import opened Dates

  /** `num / den >= p / q` for a non-zero denominator: multiplying out flips
      the comparison when `den` is negative. */
  predicate RatioAtLeast(num: int, den: int, p: int, q: int)
    requires den != 0 && q > 0
  {
    if den > 0 then num * q >= p * den else num * q <= p * den
  }

  /** `Math.round((num / den) * 100)`, which rounds halves up:
      the whole percent `r` with `r - 1/2 <= 100 * num / den < r + 1/2`. */
  function RoundedPercent(num: int, den: int): (r: int)
    requires den != 0
    ensures den > 0 ==> -den <= 2 * (100 * num - r * den) < den
    ensures den < 0 ==> den < 2 * (100 * num - r * den) <= -den
  {
    var q := FloorDiv(200 * num + den, 2 * den);
    assert 2 * den * q == 2 * (q * den);
    q
  }

  /** A share of a positive whole rounds to a percentage in 0..100, to 0 for
      none of it and to 100 for all of it. */
  lemma PercentInRange(num: int, den: int)
    requires 0 <= num <= den && den > 0
    ensures 0 <= RoundedPercent(num, den) <= 100
    ensures num == 0 ==> RoundedPercent(num, den) == 0
    ensures num == den ==> RoundedPercent(num, den) == 100
  {
    var r := RoundedPercent(num, den);
    if r > 100 {
      assert r * den >= 101 * den by { MulLeft(101, r, den); }
      assert false;
    }
    if num == 0 && r > 0 {
      assert r * den >= den by { MulLeft(1, r, den); }
      assert false;
    }
    if num == den && r < 100 {
      assert r * den <= 99 * den by { MulLeft(r, 99, den); }
      assert false;
    }
  }

  /** Multiplying by a positive number keeps order. */
  lemma MulLeft(a: int, b: int, m: int)
    requires a <= b && m > 0
    ensures a * m <= b * m
  {
  }
}
