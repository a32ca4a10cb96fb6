/** From the asset to XMR: conversions of every amount a contract can hold, and retrying a suggestion. */
module XmrAmounts {
  import opened Numerals
  import opened Wrappers
  import opened Decimals
  import opened DecimalArith
  import opened Coins
  import opened ExchangeRates
  import opened AssetAmounts
  import Evm

  /** The position above the leading digit: 10^(n-1) <= |d| < 10^n. */
  function Lead(d: Decimal): (n: int) {
    d.exponent + NumDigits(d.coeff)
  }

  /** Leading positions add up under multiplication, to within one. */
  lemma LeadProduct(x: Decimal, y: Decimal, a: Decimal)
    requires x.coeff > 0 && y.coeff > 0 && a.coeff > 0 && Mag(x) * Mag(y) == Mag(a)
    ensures Lead(x) + Lead(y) - 1 <= Lead(a) <= Lead(x) + Lead(y)
  {
    hide Ten, Mag, NumDigits;
    Leading(x);
    Leading(y);
    var i, j := Lead(x), Lead(y);
    TenAdd(i - 1, j - 1);
    TenAdd(i, j);
    ProductBetween(Ten(i - 1), Mag(x), Ten(i), Ten(j - 1), Mag(y), Ten(j), Mag(a));
    LeadingIff(a, i + j);
    LeadingIff(a, i + j - 2);
  }

  lemma ProductBetween(l: real, x: real, h: real, m: real, y: real, k: real, a: real)
    requires 0.0 < l <= x < h && 0.0 < m <= y < k && a == x * y
    ensures l * m <= a < h * k
  {
    MulMonoReal(l, x, m);
    MulMonoReal(m, y, x);
    MulMonoStrict(x, h, y);
    MulMonoStrict(y, k, h);
  }

  lemma EvmDigits(n: nat)
    requires 0 < n <= 4 * Evm.MAX_UINT
    ensures NumDigits(n) <= 80 && n < Pow(10, PRECISION)
  {
    hide Pow, NumDigits;
    TenToTheTen();
    PowAdd(10, 10, 10);
    PowAdd(10, 20, 20);
    PowAdd(10, 40, 40);
    NumDigitsIff(n, 80);
    PowMono(10, 80, PRECISION);
  }

  lemma EvmAmount(n: nat)
    requires 0 < n <= Evm.MAX_UINT
    ensures var a := ToStandard(FromUnits(n), ETHER_DECIMALS);
            && Positive(a) && FitsDivision(a) && Shifted(a, ETHER_DECIMALS) == n as real
            && -18 <= a.exponent <= 62 && Lead(a) <= 62
  {
    hide Ten, Pow, Reduce, ToStandard, Shifted, NumDigits, FitsDivision;
    var a := ToStandard(FromUnits(n), ETHER_DECIMALS);
    EvmAmountsFit(n);
    ToStandardShifted(n, ETHER_DECIMALS);
    AsUnits(a, ETHER_DECIMALS, n);
    ReducedUnits(n);
    EvmDigits(n);
    UnitsLead(a, n);
  }

  lemma UnitsLead(a: Decimal, n: nat)
    requires n > 0 && AddExponent(a, ETHER_DECIMALS) == Reduce(FromUnits(n))
    ensures Lead(a) == NumDigits(n) - ETHER_DECIMALS
  {
    hide Ten, Reduce, NumDigits, Mag;
    var r := Reduce(FromUnits(n));
    ReduceKeeps(FromUnits(n));
    SameLeading(r, FromUnits(n));
  }

  // ---- every amount of wei ----

  /** For every amount of wei a contract can hold and every rate with at most six decimals, `ToXMR` succeeds
      exactly when some whole number of piconero is worth exactly that amount, and returns it. */
  lemma EvmToXMRIff(n: nat, rate: Decimal, amountDecimals: nat)
    requires 0 < n <= Evm.MAX_UINT && Positive(rate) && Reduced(rate) && NumDecimals(rate) <= MAX_RATE_DECIMALS
    ensures var amount := ToStandard(FromUnits(n), ETHER_DECIMALS);
            && (ToXMR(rate, amount, amountDecimals).Ok? <==> exists z :: Buys(z, rate, amount))
            && (forall x :: ToXMR(rate, amount, amountDecimals) == Ok(x) ==> Positive(x) && Buys(x, rate, amount))
  {
    hide ToStandard, ToXMR, Quo, Buys, FitsDivision, Shifted, NumDecimals;
    var amount := ToStandard(FromUnits(n), ETHER_DECIMALS);
    EvmAmount(n);
    ToXMRIff(rate, amount, amountDecimals);
    if z :| Buys(z, rate, amount) { BuysInRange(rate, amount, z); }
  }

  /** A payable amount never takes the division out of its exponent range. */
  lemma BuysInRange(rate: Decimal, amount: Decimal, z: Decimal)
    requires Positive(rate) && Reduced(rate) && NumDecimals(rate) <= MAX_RATE_DECIMALS
    requires Positive(amount) && FitsDivision(amount) && -18 <= amount.exponent <= 62 && Lead(amount) <= 62
    requires Buys(z, rate, amount)
    ensures Quo(amount, rate).Ok?
  {
    hide Ten, Pow, Mag, Quotient, Reduce, NumDecimals, NumDigits, FitsDivision, Shifted;
    var x, q := Reduce(z), Quotient(amount, rate);
    BuysFits(z, rate, amount);
    ReduceKeeps(z);
    ReduceTwiceDecimals(z);
    assert x.coeff > 0 by { FactorsPositive(x, rate, amount); }
    QuotientExact(amount, rate, x);
    QuotientPositive(rate, amount);
    SameLeading(q, x);
    LeadingAbove(x, MONERO_DECIMALS);
    LeadingAbove(rate, MAX_RATE_DECIMALS);
    LeadProduct(x, rate, amount);
    RateExponent(rate);
  }

  lemma FactorsPositive(x: Decimal, y: Decimal, a: Decimal)
    requires a.coeff > 0 && Mag(x) * Mag(y) == Mag(a)
    ensures x.coeff > 0 && y.coeff > 0
  {
    hide Ten, Mag;
    ZeroMag(x);
    ZeroMag(y);
    ZeroMag(a);
  }

  lemma RateExponent(rate: Decimal)
    requires Reduced(rate) && NumDecimals(rate) <= MAX_RATE_DECIMALS
    ensures rate.exponent >= -(MAX_RATE_DECIMALS as int)
  {
    ReduceFixed(rate);
  }

  // ---- retrying a suggestion ----

  /** The XMR amount a refused conversion was rounded to, and the place it was rounded at. */
  lemma Refusal(rate: Decimal, amount: Decimal, amountDecimals: nat, alt: Decimal)
    returns (xmr: Decimal, place: nat, rounded: Decimal)
    requires Positive(rate) && Positive(amount) && ToXMR(rate, amount, amountDecimals) == Err(TooPrecise(Some(alt)))
    ensures xmr == Reduce(Quotient(amount, rate)) && Positive(xmr) && NumDecimals(xmr) > MONERO_DECIMALS
    ensures CalcAltNumeratorAmount(amountDecimals, MONERO_DECIMALS, rate, xmr) == Some(alt)
    ensures RoundingPlace(amountDecimals, MONERO_DECIMALS, rate) == Some(place) && place <= MONERO_DECIMALS
    ensures RoundToDecimalPlace(xmr, place) == Ok(rounded)
  {
    hide Quotient, Reduce, CalcAltNumeratorAmount, RoundToDecimalPlace, NumDecimals, InRange;
    xmr := Reduce(Quotient(amount, rate));
    QuotientPositive(rate, amount);
    place, rounded := RoundedOf(amountDecimals, rate, xmr);
  }

  /** A quotient that needs more than 12 decimals is small. */
  lemma RefusedIsSmall(rate: Decimal, amount: Decimal)
    requires Positive(rate) && Positive(amount) && NumDecimals(Reduce(Quotient(amount, rate))) > MONERO_DECIMALS
    ensures Mag(Reduce(Quotient(amount, rate))) < Ten(88)
  {
    hide Ten, Pow, Mag, Quotient, NumDigits, HalfUp, Reduce, LastPlace;
    var q := Quotient(amount, rate);
    var xmr := Reduce(q);
    QuotientPositive(rate, amount);
    ReduceKeeps(q);
    ReduceTwice(q);
    var num, den, u := QuotientParts(amount, rate);
    HalfUpBetween(num, den, Pow(10, PRECISION - 1), Pow(10, PRECISION));
    PowStrict(10, PRECISION, PRECISION + 1);
    NumDigitsIff(xmr.coeff, PRECISION + 1);
    LeadingIff(xmr, 88);
  }

  lemma RoundedIsSmall(xmr: Decimal, place: nat, rounded: Decimal)
    requires Positive(xmr) && Mag(xmr) < Ten(88) && RoundToDecimalPlace(xmr, place) == Ok(rounded)
    ensures Mag(rounded) < Ten(89)
  {
    hide Ten, Mag, RoundToDecimalPlace;
    RoundedClose(xmr, place, rounded);
    TenMono(-(place as int), 0);
    TenMono(0, 88);
    TenZero();
    TenNext(88);
  }

  /** A refused conversion's suggestion, converted again, gives exactly the XMR amount it was made from, whenever
      the product behind it fits 100 digits. */
  lemma SuggestionRetries(rate: Decimal, amount: Decimal, amountDecimals: nat, alt: Decimal,
                          xmr: Decimal, place: nat, rounded: Decimal)
    requires Positive(rate) && Positive(amount) && ToXMR(rate, amount, amountDecimals) == Err(TooPrecise(Some(alt)))
    requires xmr == Reduce(Quotient(amount, rate)) && RoundingPlace(amountDecimals, MONERO_DECIMALS, rate) == Some(place)
    requires RoundToDecimalPlace(xmr, place) == Ok(rounded) && rounded.coeff * Reduce(rate).coeff < Pow(10, PRECISION)
    ensures ToXMR(Reduce(rate), alt, amountDecimals) == Ok(rounded)
    ensures Mag(alt) == Mag(rounded) * Mag(rate)
  {
    hide Ten, Pow, Mag, Quotient, NumDigits, NumDecimals, Reduce, CalcAltNumeratorAmount, RoundToDecimalPlace, ToXMR, InRange,
         RoundingPlace, Mul;
    var x, p, r := Refusal(rate, amount, amountDecimals, alt);
    SuggestionDivides(amountDecimals, rate, xmr);
    RetryInRange(rate, amount, amountDecimals, alt, xmr, place, rounded);
  }

  lemma RetryInRange(rate: Decimal, amount: Decimal, amountDecimals: nat, alt: Decimal,
                     xmr: Decimal, place: nat, rounded: Decimal)
    requires Positive(rate) && Positive(amount) && ToXMR(rate, amount, amountDecimals) == Err(TooPrecise(Some(alt)))
    requires xmr == Reduce(Quotient(amount, rate)) && RoundingPlace(amountDecimals, MONERO_DECIMALS, rate) == Some(place)
    requires RoundToDecimalPlace(xmr, place) == Ok(rounded) && rounded.coeff * Reduce(rate).coeff < Pow(10, PRECISION)
    ensures InRange(rounded) && alt.exponent - Reduce(rate).exponent <= MAX_EXPONENT
  {
    hide Ten, Pow, Mag, Quotient, NumDigits, NumDecimals, Reduce, RoundToDecimalPlace, ToXMR, RoundingPlace, Mul;
    var x, q, r := Refusal(rate, amount, amountDecimals, alt);
    var den := Reduce(rate);
    SuggestionParts(amountDecimals, rate, xmr, place, rounded, den, Mul(rounded, den).value, alt);
    RefusedIsSmall(rate, amount);
    RoundedIsSmall(xmr, place, rounded);
    LeadingIff(rounded, 89);
    LeadingAbove(rounded, MONERO_DECIMALS);
    LeadProduct(rounded, den, alt);
    CoeffBelow(rounded.coeff, den.coeff);
  }

  lemma CoeffBelow(a: nat, b: nat)
    requires a > 0 && b > 0 && a * b < Pow(10, PRECISION)
    ensures NumDigits(b) <= PRECISION
  {
    hide Pow, NumDigits;
    MulMono(1, a, b);
    NumDigitsIff(b, PRECISION);
  }

  /** For every amount of wei a contract can hold every suggestion is payable: converting it again gives the XMR amount
      nearest to the quotient among all amounts of whole piconero, and it misses the request by at most half a piconero's
      worth and half a unit in the last digit of the division. */
  lemma EvmSuggestionRetries(n: nat, rate: Decimal, alt: Decimal) returns (z: Decimal)
    requires 0 < n <= Evm.MAX_UINT && Positive(rate) && NumDecimals(rate) <= MAX_RATE_DECIMALS
    requires ToXMR(rate, ToStandard(FromUnits(n), ETHER_DECIMALS), ETHER_DECIMALS) == Err(TooPrecise(Some(alt)))
    ensures ToXMR(Reduce(rate), alt, ETHER_DECIMALS) == Ok(z)
    ensures Positive(z) && NumDecimals(z) <= 12 && NumDecimals(alt) <= 18 && Mag(alt) == Mag(z) * Mag(rate)
    ensures var amount := ToStandard(FromUnits(n), ETHER_DECIMALS);
            && Positive(amount)
            && (forall w: Decimal :: !w.negative && NumDecimals(w) <= 12 ==>
                  Abs(Mag(z) - Mag(Quotient(amount, rate))) <= Abs(Mag(w) - Mag(Quotient(amount, rate))))
            && 2.0 * Abs(Mag(alt) - Mag(amount)) <= Ten(-12) * Mag(rate) + LastPlace(amount, rate)
  {
    hide ToStandard, ToXMR, Shifted, NumDecimals, Reduce, Quotient, RoundToDecimalPlace, CalcAltNumeratorAmount,
         Pow, FitsDivision, NumDigits, Mag, Ten, LastPlace, Abs, Mul, RoundingPlace;
    var amount := ToStandard(FromUnits(n), ETHER_DECIMALS);
    EvmAmount(n);
    var xmr, place, rounded := Refusal(rate, amount, ETHER_DECIMALS, alt);
    EvmPlace(rate, place);
    z := rounded;
    EvmProductFits(n, rate, amount, xmr, place, rounded);
    SuggestionRetries(rate, amount, ETHER_DECIMALS, alt, xmr, place, rounded);
    SuggestionFits(ETHER_DECIMALS, MONERO_DECIMALS, rate, xmr);
    SuggestionClose(ETHER_DECIMALS, rate, amount);
    SuggestionParts(ETHER_DECIMALS, rate, xmr, place, rounded, Reduce(rate), AltProduct(rate, xmr, alt, place, rounded), alt);
    ReduceKeeps(Quotient(amount, rate));
    forall w: Decimal | !w.negative && NumDecimals(w) <= 12
      ensures Abs(Mag(z) - Mag(Quotient(amount, rate))) <= Abs(Mag(w) - Mag(Quotient(amount, rate)))
    {
      RoundedClosest(xmr, 12, rounded, w);
    }
  }

  /** Six decimals in the rate leave room for all twelve of XMR. */
  lemma EvmPlace(rate: Decimal, place: nat)
    requires NumDecimals(rate) <= MAX_RATE_DECIMALS && RoundingPlace(ETHER_DECIMALS, MONERO_DECIMALS, rate) == Some(place)
    ensures place == 12
  {
    hide Reduce;
  }

  function AltProduct(rate: Decimal, xmr: Decimal, alt: Decimal, place: nat, rounded: Decimal): (p: Decimal)
    requires CalcAltNumeratorAmount(ETHER_DECIMALS, MONERO_DECIMALS, rate, xmr) == Some(alt)
    requires RoundingPlace(ETHER_DECIMALS, MONERO_DECIMALS, rate) == Some(place) && RoundToDecimalPlace(xmr, place) == Ok(rounded)
    ensures Mul(rounded, Reduce(rate)) == Ok(p) && alt == Reduce(p) && alt.coeff > 0
  {
    Mul(rounded, Reduce(rate)).value
  }

  /** No amount with as few decimals is closer than the rounded one. */
  lemma RoundedClosest(d: Decimal, place: nat, rounded: Decimal, w: Decimal)
    requires !d.negative && !w.negative && RoundToDecimalPlace(d, place) == Ok(rounded) && NumDecimals(w) <= place
    ensures Abs(Mag(rounded) - Mag(d)) <= Abs(Mag(w) - Mag(d))
  {
    hide Ten, Mag, RoundToDecimalPlace, Reduce, NumDecimals, Nearest, Shifted;
    RoundIsNearest(d, place);
    RoundSign(d, place);
    NumDecimalsIff(w, place);
    NearestClosest(Shifted(d, place), Shifted(w, place).Floor);
    ShiftedMag(d, place);
    ShiftedMag(w, place);
    ShiftedMag(rounded, place);
    Unscaled(Mag(rounded), Mag(w), Mag(d), Ten(place), Shifted(rounded, place), Shifted(w, place), Shifted(d, place));
  }

  lemma Unscaled(r: real, w: real, d: real, t: real, rt: real, wt: real, dt: real)
    requires t > 0.0 && rt == r * t && wt == w * t && dt == d * t && Abs(rt - dt) <= Abs(wt - dt)
    ensures Abs(r - d) <= Abs(w - d)
  {
    hide Abs;
    AbsScaled(r - d, t, rt - dt);
    AbsScaled(w - d, t, wt - dt);
    OrderScaled(Abs(r - d), Abs(w - d), t, Abs(rt - dt), Abs(wt - dt));
  }

  lemma AbsScaled(x: real, t: real, y: real)
    requires t > 0.0 && y == x * t
    ensures Abs(y) == Abs(x) * t
  {
    if x >= 0.0 { MulMonoReal(0.0, x, t); } else { MulMonoStrict(x, 0.0, t); assert -x * t == -(x * t); }
  }

  /** A refusal of an amount of wei carries a suggestion exactly when the quotient rounds to at least one piconero. */
  lemma EvmSuggestionIff(n: nat, rate: Decimal, suggestion: Option<Decimal>)
    requires 0 < n <= Evm.MAX_UINT && Positive(rate) && NumDecimals(rate) <= MAX_RATE_DECIMALS
    requires ToXMR(rate, ToStandard(FromUnits(n), ETHER_DECIMALS), ETHER_DECIMALS) == Err(TooPrecise(suggestion))
    ensures var amount := ToStandard(FromUnits(n), ETHER_DECIMALS);
            Positive(amount) && (suggestion.Some? <==> 2.0 * Mag(Quotient(amount, rate)) >= Ten(-12))
  {
    hide ToStandard, Shifted, NumDecimals, Reduce, Quotient, RoundToDecimalPlace, CalcAltNumeratorAmount,
         Pow, FitsDivision, NumDigits, Mag, Ten, RoundingPlace;
    var amount := ToStandard(FromUnits(n), ETHER_DECIMALS);
    EvmAmount(n);
    var q := Quotient(amount, rate);
    var xmr := Reduce(q);
    QuotientPositive(rate, amount);
    ReduceKeeps(q);
    ReduceKeeps(rate);
    ReduceTwiceDecimals(q);
    RoundingPlaceIff(ETHER_DECIMALS, MONERO_DECIMALS, rate);
    if RoundingPlace(ETHER_DECIMALS, MONERO_DECIMALS, rate).None? {
      NoPlace(rate, amount);
      HugeRateNoXmr(rate, amount);
    } else {
      EvmPlace(rate, RoundingPlace(ETHER_DECIMALS, MONERO_DECIMALS, rate).value);
      RefusedRounds(rate, amount, xmr);
      var rounded := RoundToDecimalPlace(xmr, 12).value;
      EvmProductFits(n, rate, amount, xmr, 12, rounded);
      RefusedIsSmall(rate, amount);
      RoundedIsSmall(xmr, 12, rounded);
      RoundedZeroIff(xmr, 12, rounded);
      SuggestionExistsIff(rate, xmr, rounded);
    }
  }

  lemma NoPlace(rate: Decimal, amount: Decimal)
    requires Positive(rate) && Positive(amount) && RoundingPlace(ETHER_DECIMALS, MONERO_DECIMALS, rate).None?
    ensures CalcAltNumeratorAmount(ETHER_DECIMALS, MONERO_DECIMALS, rate, Reduce(Quotient(amount, rate))).None?
  {
    hide Quotient, Reduce, RoundingPlace;
  }

  /** At a rate of 10^238 or more no amount of wei is worth a piconero. */
  lemma HugeRateNoXmr(rate: Decimal, amount: Decimal)
    requires Positive(rate) && Positive(amount) && Lead(amount) <= 62 && Reduce(rate).exponent > 237
    ensures 2.0 * Mag(Quotient(amount, rate)) < Ten(-12)
  {
    hide Ten, Mag, Quotient, NumDigits, Reduce, Shifted, LastPlace;
    var r := Reduce(rate);
    ReduceKeeps(rate);
    QuotientPlace(amount, rate);
    QuotientDigits(amount, rate);
    var q := Quotient(amount, rate);
    QuotientLead(amount, rate, q.exponent);
    SameLeading(rate, r);
    LeadingIff(q, -13);
    TenNext(-13);
  }

  lemma QuotientLead(x: Decimal, y: Decimal, e: int)
    requires x.coeff > 0 && y.coeff > 0 && Shifted(y, e + (PRECISION - 1)) <= Mag(x) < Shifted(y, e + PRECISION)
    ensures Lead(y) + e + PRECISION - 1 <= Lead(x) <= Lead(y) + e + PRECISION
  {
    hide Ten, NumDigits;
    var lo, hi := AddExponent(y, e + (PRECISION - 1)), AddExponent(y, e + PRECISION);
    assert Mag(lo) == Shifted(y, e + (PRECISION - 1)) && Mag(hi) == Shifted(y, e + PRECISION);
    LeadingIff(x, Lead(hi));
    LeadingIff(hi, Lead(hi));
    LeadingIff(lo, Lead(x));
    LeadingIff(x, Lead(x));
  }

  /** A number of about 100 digits that is in range can be rounded. */
  lemma RoundsInRange(d: Decimal, place: nat)
    requires d.coeff > 0 && InRange(d) && NumDigits(d.coeff) <= PRECISION + 1 && place <= 12 && d.exponent + place <= MAX_EXPONENT
    ensures RoundToDecimalPlace(d, place).Ok?
  {
    hide Ten, NumDigits, RoundToDecimalPlace;
    RoundOkIff(d, place);
    var s := AddExponent(d, place);
    assert Mag(s) == Shifted(d, place);
    LeadingIff(s, -1);
  }

  lemma RefusedRounds(rate: Decimal, amount: Decimal, xmr: Decimal)
    requires Positive(rate) && Positive(amount) && Quo(amount, rate).Ok? && xmr == Reduce(Quotient(amount, rate))
    requires NumDecimals(xmr) > MONERO_DECIMALS
    ensures RoundToDecimalPlace(xmr, 12).Ok?
  {
    hide Ten, Pow, Mag, Quotient, NumDigits, Reduce, RoundToDecimalPlace;
    var q := Quotient(amount, rate);
    QuotientDigits(amount, rate);
    ReduceKeeps(q);
    ReduceTwice(q);
    SameLeading(q, xmr);
    NumDigitsIff(q.coeff, PRECISION + 1);
    NumDigitsIff(xmr.coeff, PRECISION + 1);
    RoundsInRange(xmr, 12);
  }

  lemma RoundedZeroIff(d: Decimal, place: nat, rounded: Decimal)
    requires Positive(d) && RoundToDecimalPlace(d, place) == Ok(rounded)
    ensures rounded.coeff > 0 <==> 2.0 * Mag(d) >= Ten(-(place as int))
  {
    hide Ten, Mag, RoundToDecimalPlace, Reduce, NumDecimals, Shifted;
    RoundIsNearest(d, place);
    RoundSign(d, place);
    ZeroShiftedIff(rounded, place);
    ShiftedMag(d, place);
    TenAddNat(-(place as int), place);
    TenZero();
    HalfScaled(Mag(d), Ten(place), Ten(-(place as int)), Shifted(d, place));
  }

  lemma ZeroShiftedIff(d: Decimal, n: int)
    ensures Shifted(d, n) == 0.0 <==> d.coeff == 0
  {
    hide Ten;
    if d.coeff > 0 { PositiveShift(d, n); }
  }

  lemma HalfScaled(x: real, t: real, i: real, xt: real)
    requires t > 0.0 && i * t == 1.0 && xt == x * t
    ensures 2.0 * x >= i <==> xt >= 0.5
  {
    assert 2.0 * x * t == 2.0 * xt;
    if 2.0 * x >= i { MulMonoReal(i, 2.0 * x, t); } else { MulMonoStrict(2.0 * x, i, t); }
  }

  /** With a rounded amount and a product within bounds, multiplying back succeeds, and the suggestion is missing only
      for zero. */
  lemma SuggestionExistsIff(rate: Decimal, xmr: Decimal, rounded: Decimal)
    requires Positive(rate) && NumDecimals(rate) <= MAX_RATE_DECIMALS && RoundingPlace(ETHER_DECIMALS, MONERO_DECIMALS, rate) == Some(12)
    requires Positive(xmr) && RoundToDecimalPlace(xmr, 12) == Ok(rounded) && Mag(rounded) < Ten(89)
    requires rounded.coeff * Reduce(rate).coeff < Pow(10, PRECISION)
    ensures CalcAltNumeratorAmount(ETHER_DECIMALS, MONERO_DECIMALS, rate, xmr).Some? <==> rounded.coeff > 0
  {
    hide Ten, Pow, Mag, NumDigits, Reduce, RoundToDecimalPlace, NumDecimals, FitPrecision, Product, InRange, RoundingPlace;
    var den := Reduce(rate);
    ReduceKeeps(rate);
    if rounded.coeff > 0 {
      MulInRange(rate, xmr, rounded);
      ProductCoeff(rounded, den);
      ReduceZeroIff(Product(rounded, den));
    } else {
      ZeroProduct(rounded, den);
    }
  }

  lemma ProductCoeff(x: Decimal, y: Decimal)
    requires x.coeff > 0 && y.coeff > 0
    ensures Product(x, y).coeff > 0
  {
  }

  lemma ZeroProduct(x: Decimal, y: Decimal)
    requires x.coeff == 0
    ensures Mul(x, y).Ok? ==> Reduce(Mul(x, y).value).coeff == 0
  {
    hide Pow, HalfUp;
    OneDigit();
  }

  lemma MulInRange(rate: Decimal, xmr: Decimal, rounded: Decimal)
    requires Positive(rate) && NumDecimals(rate) <= MAX_RATE_DECIMALS && RoundingPlace(ETHER_DECIMALS, MONERO_DECIMALS, rate) == Some(12)
    requires Positive(xmr) && RoundToDecimalPlace(xmr, 12) == Ok(rounded) && Mag(rounded) < Ten(89) && rounded.coeff > 0
    requires rounded.coeff * Reduce(rate).coeff < Pow(10, PRECISION)
    ensures Mul(rounded, Reduce(rate)) == Ok(Product(rounded, Reduce(rate)))
  {
    hide Ten, Pow, Mag, NumDigits, Reduce, RoundToDecimalPlace, NumDecimals, Nearest, ShiftedVal, HalfUp;
    var den := Reduce(rate);
    var p := Product(rounded, den);
    ReduceKeeps(rate);
    ReduceTwiceDecimals(rate);
    RoundIsNearest(xmr, 12);
    OnPlace(rounded, 12);
    OnPlace(den, MAX_RATE_DECIMALS);
    RoundingPlaceIff(ETHER_DECIMALS, MONERO_DECIMALS, rate);
    LeadingIff(rounded, 89);
    LeadingAbove(rounded, 12);
    LeadingAbove(den, MAX_RATE_DECIMALS);
    ProductMag(rounded, den);
    ProductCoeff(rounded, den);
    LeadProduct(rounded, den, p);
    CoeffBelow(rounded.coeff, den.coeff);
    NumDigitsIff(p.coeff, PRECISION);
  }

  lemma EvmProductFits(n: nat, rate: Decimal, amount: Decimal, xmr: Decimal, place: nat, rounded: Decimal)
    requires 0 < n <= Evm.MAX_UINT && Positive(rate) && NumDecimals(rate) <= MAX_RATE_DECIMALS
    requires Positive(amount) && Shifted(amount, ETHER_DECIMALS) == n as real
    requires xmr == Reduce(Quotient(amount, rate)) && Positive(xmr) && place <= MONERO_DECIMALS
    requires RoundToDecimalPlace(xmr, place) == Ok(rounded)
    ensures rounded.coeff * Reduce(rate).coeff < Pow(10, PRECISION)
  {
    hide Ten, Pow, Mag, Quotient, NumDigits, NumDecimals, Reduce, RoundToDecimalPlace, Shifted, LastPlace;
    var den := Reduce(rate);
    ReduceKeeps(rate);
    ReduceKeeps(Quotient(amount, rate));
    AtMostDouble(xmr, place, rounded);
    QuotientAtMostDouble(amount, rate);
    var p := Product(rounded, den);
    ProductMag(rounded, den);
    ShiftedMag(p, ETHER_DECIMALS);
    ShiftedMag(amount, ETHER_DECIMALS);
    FourTimes(Mag(rounded), Mag(xmr), Mag(rate), Mag(p), Mag(xmr) * Mag(rate), Mag(amount), Ten(ETHER_DECIMALS), n as real);
    ProductExponent(xmr, place, rounded, rate);
    ShiftedAtLeast(p, ETHER_DECIMALS);
    if p.coeff > 0 { EvmDigits(p.coeff); } else { PowStrict(10, 0, PRECISION); PowZero(); }
  }

  lemma ProductExponent(xmr: Decimal, place: nat, rounded: Decimal, rate: Decimal)
    requires RoundToDecimalPlace(xmr, place) == Ok(rounded) && place <= MONERO_DECIMALS && NumDecimals(rate) <= MAX_RATE_DECIMALS
    ensures rounded.exponent + Reduce(rate).exponent >= -(ETHER_DECIMALS as int)
  {
    hide RoundToDecimalPlace, Reduce, ShiftedVal, Nearest;
    RoundIsNearest(xmr, place);
    ReduceFixed(rounded);
  }

  lemma FourTimes(r: real, x: real, rate: real, p: real, xR: real, a: real, t: real, n: real)
    requires rate >= 0.0 && t > 0.0 && r <= 2.0 * x && p == r * rate && xR == x * rate && xR <= 2.0 * a && n == a * t
    ensures p * t <= 4.0 * n
  {
    MulMonoReal(r, 2.0 * x, rate);
    assert 2.0 * x * rate == 2.0 * xR;
    MulMonoReal(p, 4.0 * a, t);
    assert 4.0 * a * t == 4.0 * n;
  }

  /** Rounding to a non-zero multiple at most doubles. */
  lemma AtMostDouble(xmr: Decimal, place: nat, rounded: Decimal)
    requires Positive(xmr) && RoundToDecimalPlace(xmr, place) == Ok(rounded)
    ensures Mag(rounded) <= 2.0 * Mag(xmr)
  {
    hide Ten, Mag, RoundToDecimalPlace, Reduce, NumDecimals, NumDigits, Nearest, ShiftedVal;
    RoundedClose(xmr, place, rounded);
    RoundIsNearest(xmr, place);
    if rounded.coeff == 0 {
      ZeroMag(rounded);
    } else {
      LeadingAbove(rounded, place);
      LeadingIff(rounded, -(place as int));
    }
  }

  lemma QuotientAtMostDouble(amount: Decimal, rate: Decimal)
    requires Positive(amount) && Positive(rate)
    ensures Mag(Quotient(amount, rate)) * Mag(rate) <= 2.0 * Mag(amount)
  {
    hide Ten, Mag, Quotient, LastPlace;
    QuotientBounds(amount, rate);
    TenMono(0, PRECISION - 1);
    TenZero();
    MulMonoReal(1.0, Ten(PRECISION - 1), LastPlace(amount, rate));
  }
}
