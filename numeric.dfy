/** Integer rounding shared by the period-hours calculation and timedelta division. */
module Numeric {

  /** Absolute value of an integer. */
  function Abs(x: int): (r: nat)
    ensures r == x || r == -x
  {
    if x < 0 then -x else x
  }

  /** `n / d` rounded to the nearest integer, ties to the even neighbour.
      This is Python's `round(n / d)` for the exact quotient and also the
      rounding `timedelta / int` applies to microseconds. */
  function RoundHalfEven(n: int, d: int): (r: int)
    requires d > 0
    ensures 2 * Abs(r * d - n) <= d
    ensures 2 * Abs(r * d - n) == d ==> r % 2 == 0
    ensures n >= 0 ==> r >= 0
  {
    var q := n / d;
    var rem := n % d;
    assert q * d + rem == n;
    if 2 * rem < d then q
    else if 2 * rem > d then q + 1
    else if q % 2 == 0 then q
    else q + 1
  }

  /** Rounding is monotone: a larger numerator never rounds lower. */
  lemma RoundHalfEvenMonotone(m: int, n: int, d: int)
    requires d > 0 && m <= n
    ensures RoundHalfEven(m, d) <= RoundHalfEven(n, d)
  {
    DivMonotone(m, n, d);
    if m / d == n / d {
      assert m % d <= n % d by {
        assert m == (m / d) * d + m % d && n == (n / d) * d + n % d;
      }
    }
  }

  lemma DivMonotone(m: int, n: int, d: int)
    requires d > 0 && m <= n
    ensures m / d <= n / d
  {
    var qm, qn := m / d, n / d;
    if qm > qn {
      MulMonotone(qn + 1, qm, d);
    }
  }

  lemma MulMonotone(x: int, y: int, d: int)
    requires x <= y && d > 0
    ensures x * d <= y * d
  {
    assert y * d - x * d == (y - x) * d;
  }
}
