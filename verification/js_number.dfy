/** JavaScript numbers over exact reals: a finite value or one of the three
    non-finite values, with the integer test and rounding the services use. */
module JsNumber {

  datatype Number = Finite(value: real) | NaN | PositiveInfinity | NegativeInfinity

  /** The integer `k` as a number. */
  function FromInt(k: int): real
  {
    k as real
  }

  /** `Number.isInteger` on a finite value: the value is some integer. */
  function IsInteger(x: real): (b: bool)
    ensures b <==> exists k :: FromInt(k) == x
  {
    assert FromInt(x.Floor) == x.Floor as real;
    x.Floor as real == x
  }

  /** `Math.round`: the nearest integer, halves rounded towards +infinity. */
  function Round(x: real): (r: int)
    ensures x - 0.5 < r as real <= x + 0.5
  {
    (x + 0.5).Floor
  }

  lemma RoundInteger(x: real)
    requires IsInteger(x)
    ensures Round(x) as real == x
  {
    var r, k := Round(x), x.Floor;
    assert k as real == x;
    assert -1 < r - k < 1;
  }
}
