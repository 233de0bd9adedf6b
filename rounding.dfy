/** Python's built-in `round` on the program's numbers, which are modelled as reals:
    `round(x, 0)` rounds to the nearest integer and breaks ties towards the even neighbour,
    `round(x, 2)` does the same at two decimal places. */
module Rounding {

  /** `n` is the integer nearest to `x`, ties going to the even one. */
  predicate IsRoundHalfEven(x: real, n: int) {
    var d := n as real - x;
    -0.5 <= d <= 0.5 && ((d == 0.5 || d == -0.5) ==> n % 2 == 0)
  }

  /** `y` is a whole number and is `x` rounded half to even: what `round(x, 0)` stores. */
  predicate RoundedFrom(x: real, y: real) {
    y == y.Floor as real && IsRoundHalfEven(x, y.Floor)
  }

  function RoundHalfEven(x: real): (n: int)
    ensures IsRoundHalfEven(x, n)
  {
    var fl := x.Floor;
    var frac := x - fl as real;
    if frac < 0.5 then fl
    else if frac > 0.5 then fl + 1
    else if fl % 2 == 0 then fl
    else fl + 1
  }

  /** Python's `round(x, 0)`, whose result is again a number of the column's type. */
  function Round0(x: real): (y: real)
    ensures RoundedFrom(x, y)
  {
    RoundHalfEven(x) as real
  }

  /** Python's `round(x, 2)`: a multiple of 1/100 within half a hundredth of `x`; at an
      exact half-hundredth, the neighbour whose hundredths count is even. */
  function Round2(x: real): (y: real)
    ensures RoundedFrom(x * 100.0, y * 100.0)
    ensures (y * 100.0).Floor as real == y * 100.0
    ensures -0.005 <= y - x <= 0.005
  {
    RoundHalfEven(x * 100.0) as real / 100.0
  }

  /** The rounding relation determines its result: at most one integer is nearest. */
  lemma RoundHalfEvenUnique(x: real, a: int, b: int)
    requires IsRoundHalfEven(x, a) && IsRoundHalfEven(x, b)
    ensures a == b
  {
  }

  /** Rounding leaves a whole number where it is. */
  lemma Round0OfWhole(y: real)
    requires y == y.Floor as real
    ensures Round0(y) == y
  {
    RoundHalfEvenUnique(y, RoundHalfEven(y), y.Floor);
  }

  /** Python's `int(x)` on a number: drops the fraction, truncating towards zero. */
  function TruncateToInt(x: real): (n: int)
    ensures x >= 0.0 ==> n as real <= x < n as real + 1.0
    ensures x < 0.0 ==> n as real - 1.0 < x <= n as real
  {
    if x >= 0.0 then x.Floor else -((-x).Floor)
  }
}
