/** When a rate can be computed from two prices, and how good it is. */
module PriceRates {
  import opened Numerals
  import opened Wrappers
  import opened Decimals
  import opened DecimalArith
  import opened Coins
  import opened ExchangeRates
  import opened XmrAmounts

  /** The true ratio of the prices, rounded to 100 digits, is neither below 10^-100000 nor at or above 10^100001. */
  ghost predicate RatioInRange(xmrPrice: Decimal, ethPrice: Decimal) {
    && 2.0 * Mag(xmrPrice) + Shifted(ethPrice, -100000 - 100) >= 2.0 * Shifted(ethPrice, -100000)
    && 2.0 * Mag(xmrPrice) + Shifted(ethPrice, 100001 - 100) < 2.0 * Shifted(ethPrice, 100001)
  }

  lemma QuotientInRangeIff(x: Decimal, y: Decimal)
    requires x.coeff > 0 && y.coeff > 0
    ensures InRange(Quotient(x, y)) <==> RatioInRange(x, y)
  {
    hide Ten, Mag, Shifted, Quotient, NumDigits;
    var q := Quotient(x, y);
    QuotientDigits(x, y);
    QuotientBelowIff(x, y, -100000);
    QuotientBelowIff(x, y, 100001);
    LeadingIff(q, -100000);
    LeadingIff(q, 100001);
  }

  /** Exactly when a division succeeds. */
  lemma QuoOkIff(x: Decimal, y: Decimal)
    ensures Quo(x, y).Ok? <==>
            y.coeff > 0 && (x.coeff == 0 || (-100000 <= x.exponent - y.exponent <= 100000 && RatioInRange(x, y)))
  {
    hide Ten, Mag, Shifted, Quotient, NumDigits, RatioInRange, InRange;
    if x.coeff > 0 && y.coeff > 0 { QuotientInRangeIff(x, y); }
  }

  /** For positive prices a rate is computed exactly when their exponents differ by at most 100000 and their ratio is
      in range; rounding the ratio to six decimals never fails. */
  lemma RateOkIff(xmrPrice: Decimal, ethPrice: Decimal)
    requires Positive(xmrPrice) && Positive(ethPrice)
    ensures CalcExchangeRate(xmrPrice, ethPrice).Ok?
       <==> -100000 <= xmrPrice.exponent - ethPrice.exponent <= 100000 && RatioInRange(xmrPrice, ethPrice)
  {
    hide Ten, Mag, Shifted, Quotient, NumDigits, RoundToDecimalPlace, RatioInRange;
    var q := Quotient(xmrPrice, ethPrice);
    QuotientInRangeIff(xmrPrice, ethPrice);
    QuotientDigits(xmrPrice, ethPrice);
    if InRange(q) { RoundsInRange(q, MAX_RATE_DECIMALS); }
  }

  /** In particular for any prices whose leading digits are less than 99800 places apart. */
  lemma RateSucceeds(xmrPrice: Decimal, ethPrice: Decimal)
    requires Positive(xmrPrice) && Positive(ethPrice)
    requires -100000 <= xmrPrice.exponent - ethPrice.exponent <= 100000 && -99800 <= Lead(xmrPrice) - Lead(ethPrice) <= 99800
    ensures CalcExchangeRate(xmrPrice, ethPrice).Ok?
  {
    hide Ten, Mag, Shifted, Quotient, NumDigits, RoundToDecimalPlace, LastPlace;
    var q := Quotient(xmrPrice, ethPrice);
    QuotientPlace(xmrPrice, ethPrice);
    QuotientDigits(xmrPrice, ethPrice);
    QuotientLead(xmrPrice, ethPrice, q.exponent);
    RoundsInRange(q, MAX_RATE_DECIMALS);
  }

  /** A price of zero for XMR is a rate of zero, and a price of zero for ETH an error. */
  lemma RateOfZero(xmrPrice: Decimal, ethPrice: Decimal)
    ensures ethPrice.coeff == 0 ==> CalcExchangeRate(xmrPrice, ethPrice) == Err(DivisionByZero)
    ensures ethPrice.coeff > 0 && xmrPrice.coeff == 0 ==>
              CalcExchangeRate(xmrPrice, ethPrice).Ok? && CalcExchangeRate(xmrPrice, ethPrice).value.coeff == 0
  {
    if ethPrice.coeff > 0 && xmrPrice.coeff == 0 { ZeroRate(xmrPrice.negative != ethPrice.negative); }
  }

  lemma ZeroRate(negative: bool)
    ensures var r := RoundToDecimalPlace(Decimal(negative, 0, 0), MAX_RATE_DECIMALS); r.Ok? && r.value.coeff == 0
  {
    hide Pow;
  }
}
