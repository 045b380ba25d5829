/** The few facts about products and quotients of variables that the solver does not find alone. */
module Arithmetic {

  lemma AtLeastOnce(times: int, unit: nat)
    requires times >= 1
    ensures times * unit >= unit
  {
    assert times * unit == (times - 1) * unit + unit;
  }

  lemma OnlyZeroFits(times: int, unit: nat)
    requires times * unit < unit && times * unit + unit > 0
    ensures times == 0
  {
    if times >= 1 {
      AtLeastOnce(times, unit);
    } else if times <= -1 {
      assert (-times) * unit == -(times * unit);
      AtLeastOnce(-times, unit);
    }
  }

  /** The quotient is determined by any remainder below the divisor. */
  lemma QuotientIs(dividend: nat, divisor: nat, quotient: nat, remainder: nat)
    requires divisor > 0 && dividend == quotient * divisor + remainder && remainder < divisor
    ensures dividend / divisor == quotient
  {
    var d := dividend / divisor - quotient;
    assert dividend == (dividend / divisor) * divisor + dividend % divisor;
    assert d * divisor == remainder - dividend % divisor;
    OnlyZeroFits(d, divisor);
  }
}
