/** Python's `round(x, 2)`, on exact reals: the nearest multiple of 0.01,
    and on an exact tie the one whose last digit is even. The properties
    are stated as lemmas rather than as postconditions, so that a proof
    that mentions a rounded value only carries the facts it asks for. */
module Rounding {

  /** The nearest integer to `y`; on a tie, the even one. */
  function RoundHalfEven(y: real): int
  {
    var f := y.Floor;
    var d := y - f as real;
    if d < 0.5 then f
    else if d > 0.5 then f + 1
    else if f % 2 == 0 then f
    else f + 1
  }

  /** `round(x, 2)`. */
  function Round2(x: real): real
  {
    RoundHalfEven(x * 100.0) as real / 100.0
  }

  /** The rounded integer is at most one half away, a tie goes to the even
      neighbour, and the sign is kept. */
  lemma RoundHalfEvenNearest(y: real)
    ensures -0.5 <= RoundHalfEven(y) as real - y <= 0.5
    ensures RoundHalfEven(y) as real - y == 0.5 ==> RoundHalfEven(y) % 2 == 0
    ensures y - RoundHalfEven(y) as real == 0.5 ==> RoundHalfEven(y) % 2 == 0
    ensures 0.0 <= y ==> 0 <= RoundHalfEven(y)
    ensures y <= 0.0 ==> RoundHalfEven(y) <= 0
  {
  }

  /** The result is at most half a hundredth away from `x` ... */
  lemma Round2Nearest(x: real)
    ensures -0.005 <= Round2(x) - x <= 0.005
  {
    RoundHalfEvenNearest(x * 100.0);
  }

  /** ... and is a whole number of hundredths. */
  lemma Round2IsHundredths(x: real)
    ensures (Round2(x) * 100.0).Floor as real == Round2(x) * 100.0
  {
    var n := RoundHalfEven(x * 100.0);
    var r := n as real / 100.0;
    assert r * 100.0 == n as real;
    assert (n as real).Floor == n;
  }

  /** Rounding keeps the sign: a non-negative number rounds to a
      non-negative one, a non-positive number to a non-positive one. */
  lemma Round2Sign(x: real)
    ensures 0.0 <= x ==> 0.0 <= Round2(x)
    ensures x <= 0.0 ==> Round2(x) <= 0.0
  {
    RoundHalfEvenNearest(x * 100.0);
  }

  lemma RoundHalfEvenMonotone(a: real, b: real)
    requires a <= b
    ensures RoundHalfEven(a) <= RoundHalfEven(b)
  {
    var fa, fb := a.Floor, b.Floor;
    assert fa <= fb;
    if fa < fb {
      assert RoundHalfEven(a) <= fa + 1 <= fb <= RoundHalfEven(b);
    }
  }

  /** Rounding never reverses the order of two numbers. */
  lemma Round2Monotone(a: real, b: real)
    requires a <= b
    ensures Round2(a) <= Round2(b)
  {
    RoundHalfEvenMonotone(a * 100.0, b * 100.0);
  }

  /** A number that already has at most two decimals is left as it is. */
  lemma Round2Hundredths(k: int)
    ensures Round2(k as real / 100.0) == k as real / 100.0
  {
    var y := (k as real / 100.0) * 100.0;
    assert y == k as real;
    assert y.Floor == k;
  }
}
