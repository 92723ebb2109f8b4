/**
 * Python's built-in `round`, stated on exact reals: `round(x)` is the
 * integer nearest to `x`, ties going to the even neighbour, and
 * `round(x, 2)` is the nearest multiple of 1/100, ties again to even.
 */
module Rounding {

  function Abs(x: real): (r: real)
    ensures r >= 0.0 && (r == x || r == -x)
  {
    if x < 0.0 then -x else x
  }

  /** `round(x)` with no digits argument: round half to even. */
  function RoundHalfEven(x: real): (n: int)
    ensures Abs(n as real - x) <= 0.5
    ensures Abs(n as real - x) == 0.5 ==> n % 2 == 0
  {
    var f := x.Floor;
    var frac := x - f as real;
    if frac < 0.5 then f
    else if frac > 0.5 then f + 1
    else if f % 2 == 0 then f
    else f + 1
  }

  /**
   * The two properties in RoundHalfEven's contract pin the result down:
   * any integer within 1/2 of `x` that is even on a tie is that result.
   */
  lemma RoundHalfEvenUnique(x: real, m: int)
    requires Abs(m as real - x) <= 0.5
    requires Abs(m as real - x) == 0.5 ==> m % 2 == 0
    ensures m == RoundHalfEven(x)
  {
  }

  /** No integer is closer to `x` than `round(x)`. */
  lemma RoundHalfEvenNearest(x: real, m: int)
    ensures Abs(RoundHalfEven(x) as real - x) <= Abs(m as real - x)
  {
    var n := RoundHalfEven(x);
    if m < n {
      assert m as real <= n as real - 1.0;
      assert x - m as real >= 0.5;
    } else if m > n {
      assert m as real >= n as real + 1.0;
      assert m as real - x >= 0.5;
    }
  }

  /** Whole numbers are left as they are. */
  lemma RoundHalfEvenOfInt(k: int)
    ensures RoundHalfEven(k as real) == k
  {
  }

  /** Rounding never moves a non-negative value below zero. */
  lemma RoundHalfEvenNonNegative(x: real)
    requires x >= 0.0
    ensures RoundHalfEven(x) >= 0
  {
  }

  /** `round(x, 2)`: the nearest multiple of 1/100, ties to the even hundredth. */
  function RoundToHundredths(x: real): (y: real)
    ensures Abs(y - x) <= 0.005
    ensures (y * 100.0).Floor as real == y * 100.0
    ensures Abs(y - x) == 0.005 ==> (y * 100.0).Floor % 2 == 0
  {
    var n := RoundHalfEven(x * 100.0);
    var y := n as real / 100.0;
    assert y * 100.0 == n as real;
    assert y - x == (n as real - x * 100.0) / 100.0;
    assert (y * 100.0).Floor == n;
    assert Abs(y - x) == 0.005 ==> Abs(n as real - x * 100.0) == 0.5;
    y
  }

  /** Worked figures: the rotator angles of a typical pass, and the ties. */
  lemma RoundingExamples()
    ensures RoundHalfEven(359.6) == 360 && RoundHalfEven(10.4) == 10
    ensures RoundHalfEven(32.7) == 33 && RoundHalfEven(118.4) == 118
    ensures RoundHalfEven(0.5) == 0 && RoundHalfEven(1.5) == 2 && RoundHalfEven(2.5) == 2
    ensures RoundHalfEven(-0.5) == 0 && RoundHalfEven(-1.5) == -2
    ensures RoundHalfEven(0.0) == 0 && RoundHalfEven(45.0) == 45
    ensures RoundToHundredths(118.4) == 118.4 && RoundToHundredths(32.7) == 32.7
  {
  }
}
