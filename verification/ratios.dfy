/** The ratio arithmetic of the summary table, held exactly in integer
    parts per million (ppm) instead of the page's binary floating point:
    a ratio `x` is represented by the integer `x * 1_000_000`. */
module Ratios {

  /** 1.0 in ppm. */
  const Million: int := 1000000
  /** The free-float classification step 0.05, in ppm. */
  const Step: int := 50000

  /** `r` is `n / d` rounded to the nearest integer with halves going up,
      which is what `Math.round` does: `r - 1/2 <= n/d < r + 1/2`. */
  ghost predicate RoundsTo(n: int, d: int, r: int) {
    d > 0 && d * (2 * r - 1) <= 2 * n < d * (2 * r + 1)
  }

  /** `k` is the smallest integer with `n / d <= k`, which is what
      `Math.ceil` does. */
  ghost predicate CeilsTo(n: int, d: int, k: int) {
    d > 0 && d * (k - 1) < n <= d * k
  }

  lemma MulLeft(d: int, a: int, b: int)
    requires d > 0 && a <= b
    ensures d * a <= d * b
  {
  }

  /** `Math.round(n / d)` for a positive divisor. */
  function RoundHalfUp(n: int, d: int): (r: int)
    requires d > 0
    ensures RoundsTo(n, d, r)
  {
    var q := (2 * n + d) / (2 * d);
    assert 2 * d * q <= 2 * n + d < 2 * d * q + 2 * d;
    q
  }

  /** There is only one integer that `n / d` rounds to. */
  lemma RoundsToUnique(n: int, d: int, r: int, r': int)
    requires RoundsTo(n, d, r) && RoundsTo(n, d, r')
    ensures r == r'
  {
    if r < r' {
      MulLeft(d, 2 * r + 1, 2 * r' - 1);
    } else if r' < r {
      MulLeft(d, 2 * r' + 1, 2 * r - 1);
    }
  }

  /** Rounding a value that is already a whole number leaves it unchanged. */
  lemma RoundWhole(k: int, d: int)
    requires d > 0
    ensures RoundHalfUp(k * d, d) == k
  {
    assert RoundsTo(k * d, d, k);
    RoundsToUnique(k * d, d, k, RoundHalfUp(k * d, d));
  }

  /** `Math.ceil(n / d)` for a positive divisor. */
  function CeilDiv(n: int, d: int): (k: int)
    requires d > 0
    ensures CeilsTo(n, d, k)
  {
    var q := (n + d - 1) / d;
    assert d * q <= n + d - 1 < d * q + d;
    q
  }

  /** The ceiling is the least multiple count that covers `n`. */
  lemma CeilDivLeast(n: int, d: int, k: int)
    requires d > 0 && n <= d * k
    ensures CeilDiv(n, d) <= k
  {
    var c := CeilDiv(n, d);
    if k < c {
      MulLeft(d, k, c - 1);
    }
  }

  /** `round6(n / d)` in ppm: the ratio `n / d` rounded half-up to six
      decimals. A negative divisor flips both signs, as `n / d` is the same
      number. */
  function Round6(n: int, d: int): (r: int)
    requires d != 0
    ensures d > 0 ==> RoundsTo(n * Million, d, r)
    ensures d < 0 ==> RoundsTo(-n * Million, -d, r)
  {
    if d > 0 then RoundHalfUp(n * Million, d) else RoundHalfUp(-n * Million, -d)
  }

  /** `fixedRatio = round6(major / issued)`, in ppm. */
  function FixedPpm(major: int, issued: int): (r: int)
    requires issued != 0
    ensures issued > 0 ==> RoundsTo(major * Million, issued, r)
    ensures issued < 0 ==> RoundsTo(-major * Million, -issued, r)
  {
    Round6(major, issued)
  }

  /** `floatRatioRaw = round6(1 - fixedRatio)`, in ppm. */
  function FloatPpm(fixedPpm: int): (r: int)
    ensures r + fixedPpm == Million
  {
    RoundWhole(Million - fixedPpm, Million);
    Round6(Million - fixedPpm, Million)
  }

  /** `ceilStep(floatRatioRaw, 0.05) / 0.05`: how many 0.05 steps the
      free-float weight `ffwRatio` is. */
  function FfwSteps(floatPpm: int): (k: int)
    ensures CeilsTo(floatPpm, Step, k)
  {
    CeilDiv(floatPpm, Step)
  }

  /** The free-float weight `ffwRatio` in ppm. */
  function FfwPpm(floatPpm: int): (w: int)
    ensures floatPpm <= w < floatPpm + Step
    ensures w % Step == 0
  {
    FfwSteps(floatPpm) * Step
  }

  /** `ffwRatio` is the smallest multiple of 0.05 not below `floatRatioRaw`. */
  lemma FfwLeast(floatPpm: int, k: int)
    requires floatPpm <= k * Step
    ensures FfwPpm(floatPpm) <= k * Step
  {
    CeilDivLeast(floatPpm, Step, k);
  }

  /** An exact multiple of 0.05 is its own free-float weight. */
  lemma FfwOfMultiple(k: int)
    ensures FfwSteps(k * Step) == k
    ensures FfwPpm(k * Step) == k * Step
  {
    CeilDivLeast(k * Step, Step, k);
  }
}
