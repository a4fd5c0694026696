/** Python's `round(x, 2)` on exact reals: to the nearest hundredth, ties to
    the even hundredth. Binary floating point is not modelled. */
module Rounding {

  /** The number of hundredths `round(x, 2)` keeps. */
  function RoundCents(x: real): (c: int)
    ensures -1.0 / 2.0 <= c as real - x * 100.0 <= 1.0 / 2.0
    ensures c as real - x * 100.0 == 1.0 / 2.0 || c as real - x * 100.0 == -1.0 / 2.0 ==> c % 2 == 0
  {
    var y := x * 100.0;
    var f := y.Floor;
    var frac := y - f as real;
    if frac < 1.0 / 2.0 then f
    else if frac > 1.0 / 2.0 then f + 1
    else if f % 2 == 0 then f
    else f + 1
  }

  /** `round(x, 2)`: a whole number of hundredths, at most half a hundredth
      away, and the even one on a tie. */
  function Round2(x: real): (r: real)
    ensures r == RoundCents(x) as real / 100.0
    ensures (r * 100.0).Floor as real == r * 100.0
    ensures -1.0 / 200.0 <= r - x <= 1.0 / 200.0
    ensures r - x == 1.0 / 200.0 || r - x == -1.0 / 200.0 ==> (r * 100.0).Floor % 2 == 0
  {
    var c := RoundCents(x);
    assert c as real / 100.0 * 100.0 == c as real;
    c as real / 100.0
  }

  /** A value already in whole hundredths is left alone. */
  lemma Round2Exact(n: int)
    ensures RoundCents(n as real / 100.0) == n
    ensures Round2(n as real / 100.0) == n as real / 100.0
  {
    assert n as real / 100.0 * 100.0 == n as real;
  }

  /** Rounding never reverses an order. */
  lemma {:induction false} RoundCentsMonotone(x: real, y: real)
    requires x <= y
    ensures RoundCents(x) <= RoundCents(y)
  {
    var fx := (x * 100.0).Floor;
    var fy := (y * 100.0).Floor;
    assert fx <= fy;
    if fx == fy {
      assert x * 100.0 - fx as real <= y * 100.0 - fy as real;
    } else {
      assert RoundCents(x) <= fx + 1 <= fy <= RoundCents(y);
    }
  }

  lemma Round2Monotone(x: real, y: real)
    requires x <= y
    ensures Round2(x) <= Round2(y)
  {
    RoundCentsMonotone(x, y);
  }

  /** Zero stays zero, so a positive value never rounds below zero. */
  lemma Round2NonNegative(x: real)
    requires x >= 0.0
    ensures Round2(x) >= 0.0
  {
    Round2Exact(0);
    assert 0 as real / 100.0 == 0.0;
    Round2Monotone(0.0, x);
  }

  /** Ties go to the even hundredth: 0.125 rounds to 0.12, 0.135 to 0.14. */
  lemma HalfEvenExamples()
    ensures Round2(0.125) == 0.12
    ensures Round2(0.135) == 0.14
  {
    assert (0.125 * 100.0).Floor == 12;
    assert (0.135 * 100.0).Floor == 13;
  }
}
