/** Python's `round(x, 2)`, taken over exact reals: the nearest multiple of
    0.01, a tie going to the even number of cents. */
module Rounding {

  /** The number of cents `x` rounds to. */
  function Cents(x: real): (n: int)
    ensures n as real - 0.5 <= x * 100.0 <= n as real + 0.5
    ensures x * 100.0 == n as real - 0.5 ==> n % 2 == 0
    ensures x * 100.0 == n as real + 0.5 ==> n % 2 == 0
  {
    var scaled := x * 100.0;
    var f := scaled.Floor;
    var frac := scaled - f as real;
    if frac < 0.5 then f
    else if frac > 0.5 then f + 1
    else if f % 2 == 0 then f
    else f + 1
  }

  /** `round(x, 2)`: never more than half a cent away from `x`. */
  function Round2(x: real): (r: real)
    ensures -0.005 <= r - x <= 0.005
    ensures r * 100.0 == Cents(x) as real
  {
    Cents(x) as real / 100.0
  }

  /** A whole number of cents is left as it is. */
  lemma Round2OfCents(n: int)
    ensures Round2(n as real / 100.0) == n as real / 100.0
  {
    var x := n as real / 100.0;
    assert x * 100.0 == n as real;
    assert (x * 100.0).Floor == n;
  }

  /** Rounding an already rounded amount changes nothing. */
  lemma Round2Idempotent(x: real)
    ensures Round2(Round2(x)) == Round2(x)
  {
    Round2OfCents(Cents(x));
  }
}
