/**
 * Python's `round` on exact real numbers. Python 3 rounds a number to the
 * nearest integer and breaks a tie towards the even neighbour; `round(t, 3)`
 * does the same at the third decimal place.
 */
module Rounding {

  /** `round(x)`: the nearest integer, ties going to the even one. */
  function RoundHalfEven(x: real): (r: int)
    ensures -0.5 <= r as real - x <= 0.5
    ensures (r as real - x == 0.5 || x - r as real == 0.5) ==> r % 2 == 0
    ensures x == x.Floor as real ==> r == x.Floor
  {
    var f := x.Floor;
    var d := x - f as real;
    if d < 0.5 then f
    else if d > 0.5 then f + 1
    else if f % 2 == 0 then f
    else f + 1
  }

  /** The two properties in RoundHalfEven's contract pin the result down: no other integer has them. */
  lemma RoundHalfEvenUnique(x: real, k: int)
    requires -0.5 <= k as real - x <= 0.5
    requires (k as real - x == 0.5 || x - k as real == 0.5) ==> k % 2 == 0
    ensures k == RoundHalfEven(x)
  {
  }

  /** Rounding never reverses the order of two numbers. */
  lemma RoundHalfEvenMonotone(x: real, y: real)
    requires x <= y
    ensures RoundHalfEven(x) <= RoundHalfEven(y)
  {
    var fx, fy := x.Floor, y.Floor;
    if fx < fy {
      assert RoundHalfEven(x) <= fx + 1 <= fy <= RoundHalfEven(y);
    } else {
      assert fx == fy;
    }
  }

  /** A real with at most three decimal places: a whole number of milliseconds. */
  predicate IsMillis(t: real) {
    (t * 1000.0).Floor as real == t * 1000.0
  }

  /** `round(t, 3)`. */
  function Round3(t: real): (r: real)
    ensures -0.0005 <= r - t <= 0.0005
    ensures IsMillis(r)
    ensures IsMillis(t) ==> r == t
  {
    var k := RoundHalfEven(t * 1000.0);
    MillisScale(k, t);
    k as real / 1000.0
  }

  /**
   * Dividing a whole number `k` by 1000 gives a whole number of
   * milliseconds, as far from `t` as `k` is from `t * 1000`, divided by 1000;
   * and exactly `t` when `k` is `t * 1000`.
   */
  lemma MillisScale(k: int, t: real)
    ensures (k as real / 1000.0) * 1000.0 == k as real
    ensures IsMillis(k as real / 1000.0)
    ensures k as real / 1000.0 - t == (k as real - t * 1000.0) / 1000.0
    ensures k as real == t * 1000.0 ==> k as real / 1000.0 == t
  {
    var r := k as real / 1000.0;
    assert r * 1000.0 == k as real;
    assert (r * 1000.0).Floor == k;
  }

  /** Rounding to milliseconds never reverses the order of two numbers. */
  lemma Round3Monotone(s: real, t: real)
    requires s <= t
    ensures Round3(s) <= Round3(t)
  {
    RoundHalfEvenMonotone(s * 1000.0, t * 1000.0);
  }

  /** Rounding to milliseconds twice is rounding once. */
  lemma Round3Idempotent(t: real)
    ensures Round3(Round3(t)) == Round3(t)
  {
  }
}
