/** Exchange rates: ETH or token amounts to XMR by division, XMR back by multiplication. */
module ExchangeRates {
  import opened Numerals
  import opened Wrappers
  import Evm
  import opened Decimals
  import opened DecimalArith
  import opened Coins

  datatype RateError = Arithmetic(error: DecimalError) | TooPrecise(suggestion: Option<Decimal>)

  predicate Positive(d: Decimal) {
    !d.negative && d.coeff > 0
  }

  /** The place the XMR amount is rounded to before it is multiplied back. */
  function RoundingPlace(amountDecimals: nat, resultDecimals: nat, denominator: Decimal): (place: Option<nat>) {
    var most := Reduce(denominator).exponent + amountDecimals;
    if most < 0 || most > 255 then None
    else Some(if most > resultDecimals then resultDecimals else most)
  }

  /** `calcAltNumeratorAmount`: a nearby amount that does divide, if one is found. */
  function CalcAltNumeratorAmount(amountDecimals: nat, resultDecimals: nat, denominator: Decimal, unrounded: Decimal)
    : (alt: Option<Decimal>)
  {
    match RoundingPlace(amountDecimals, resultDecimals, denominator)
    case None => None
    case Some(place) =>
      match RoundToDecimalPlace(unrounded, place)
      case Err(_) => None
      case Ok(rounded) =>
        match Mul(rounded, Reduce(denominator))
        case Err(_) => None
        case Ok(p) => if Reduce(p).coeff == 0 then None else Some(Reduce(p))
  }

  /** `ToXMR`: the amount over the rate, refused when it would need fractions of a piconero. */
  function ToXMR(rate: Decimal, amount: Decimal, amountDecimals: nat): (r: Result<Decimal, RateError>) {
    match Quo(amount, rate)
    case Err(e) => Err(Arithmetic(e))
    case Ok(q) =>
      var xmr := Reduce(q);
      if NumDecimals(xmr) > MONERO_DECIMALS
      then Err(TooPrecise(CalcAltNumeratorAmount(amountDecimals, MONERO_DECIMALS, rate, xmr)))
      else Ok(xmr)
  }

  /** `ToETH` and `ToERC20Amount`: the XMR amount times the rate, refused beyond the asset's decimals. */
  function ToAsset(rate: Decimal, xmr: Decimal, decimals: nat): (r: Result<Decimal, RateError>) {
    match Mul(xmr, rate)
    case Err(e) => Err(Arithmetic(e))
    case Ok(p) => if NumDecimals(Reduce(p)) > decimals then Err(TooPrecise(None)) else Ok(Reduce(p))
  }

  function ToETH(rate: Decimal, xmr: Decimal): (r: Result<Decimal, RateError>) {
    ToAsset(rate, xmr, ETHER_DECIMALS)
  }

  function CalcExchangeRate(xmrPrice: Decimal, ethPrice: Decimal): (r: Result<Decimal, DecimalError>) {
    var q :- Quo(xmrPrice, ethPrice);
    RoundToDecimalPlace(q, MAX_RATE_DECIMALS)
  }

  /** The computed rate has at most six decimals and misses the true ratio of the prices by at most half a
      unit of the sixth decimal, plus half a unit in the last digit of the division. */
  lemma RateAccuracy(xmrPrice: Decimal, ethPrice: Decimal)
    requires Positive(xmrPrice) && Positive(ethPrice) && CalcExchangeRate(xmrPrice, ethPrice).Ok?
    ensures var rate := CalcExchangeRate(xmrPrice, ethPrice).value;
            && NumDecimals(rate) <= MAX_RATE_DECIMALS
            && 2.0 * Abs(Mag(rate) * Mag(ethPrice) - Mag(xmrPrice))
               <= Ten(-(MAX_RATE_DECIMALS as int)) * Mag(ethPrice) + LastPlace(xmrPrice, ethPrice)
  {
    hide RoundToDecimalPlace, NumDecimals, Mag, Ten, Quotient, LastPlace, InRange;
    var q := Quotient(xmrPrice, ethPrice);
    var rate := CalcExchangeRate(xmrPrice, ethPrice).value;
    QuotientBounds(xmrPrice, ethPrice);
    QuotientPositive(ethPrice, xmrPrice);
    RoundIsNearest(q, MAX_RATE_DECIMALS);
    RoundedClose(q, MAX_RATE_DECIMALS, rate);
    CloseEnough(Mag(rate), Mag(q), Mag(ethPrice), Mag(rate) * Mag(ethPrice), Mag(q) * Mag(ethPrice), Mag(xmrPrice),
                Ten(-(MAX_RATE_DECIMALS as int)), LastPlace(xmrPrice, ethPrice));
  }

  // ---- ToXMR is exact ----

  /** The XMR amounts that are worth exactly `amount` and have no fraction of a piconero. */
  ghost predicate Buys(xmr: Decimal, rate: Decimal, amount: Decimal) {
    NumDecimals(xmr) <= MONERO_DECIMALS && Mag(xmr) * Mag(rate) == Mag(amount)
  }

  /** Decimals in which both the amount and any 12-decimal XMR amount times a 6-decimal rate are whole. */
  function CommonDecimals(amount: Decimal): (m: nat) {
    if NumDecimals(amount) > ETHER_DECIMALS then NumDecimals(amount) else ETHER_DECIMALS
  }

  /** Below this size half a unit in the 100th digit is less than one unit in the common decimals. */
  ghost predicate FitsDivision(amount: Decimal) {
    Shifted(amount, CommonDecimals(amount)) < 2.0 * Ten(PRECISION - 1)
  }

  lemma WholeAt(d: Decimal, n: int)
    requires d.exponent + n >= 0
    ensures IsInt(Shifted(d, n))
  {
    ShiftedWhole(d, n);
  }

  lemma ProductWhole(x: Decimal, y: Decimal, n: nat)
    requires NumDecimals(x) + NumDecimals(y) <= n
    ensures var p := Product(Reduce(x), Reduce(y)); Mag(p) == Mag(x) * Mag(y) && IsInt(Shifted(p, n))
  {
    hide Ten, IsInt, Mag, Shifted, Reduce, Pow;
    ReduceKeeps(x);
    ReduceKeeps(y);
    ProductMag(Reduce(x), Reduce(y));
    WholeAt(Product(Reduce(x), Reduce(y)), n);
  }

  /** Two decimals that are whole after a shift and closer than a step below one are equal. */
  lemma CloseDecimals(x: Decimal, a: Decimal, m: int, s: real, k: real)
    requires IsInt(Shifted(x, m)) && IsInt(Shifted(a, m)) && Shifted(a, m) < 2.0 * k && s > 0.0 && k > 0.0
    requires -s <= 2.0 * (Mag(x) - Mag(a)) <= s && k * s <= Mag(a)
    ensures Mag(x) == Mag(a)
  {
    hide Ten, IsInt, Mag, Shifted;
    ShiftedMag(x, m);
    ShiftedMag(a, m);
    CloseWhole(Mag(x), Mag(a), Ten(m), s, k, Shifted(x, m), Shifted(a, m));
  }

  lemma CloseWhole(x: real, a: real, t: real, s: real, k: real, u: real, v: real)
    requires t > 0.0 && k > 0.0 && s > 0.0 && u == x * t && v == a * t && IsInt(u) && IsInt(v)
    requires -s <= 2.0 * (x - a) <= s && k * s <= a && v < 2.0 * k
    ensures x == a
  {
    hide IsInt;
    var w := s * t;
    assert w < 2.0 by {
      MulMonoReal(k * s, a, t);
      MulAssocReal(k, s, t);
      StepBelowTwo(k, w, k * s * t);
    }
    Spread(x, a, t, s, u, v, w);
    SmallInt(u, v);
    if x < a { MulMonoStrict(x, a, t); } else if a < x { MulMonoStrict(a, x, t); }
  }

  lemma Spread(x: real, a: real, t: real, s: real, u: real, v: real, w: real)
    requires t > 0.0 && u == x * t && v == a * t && w == s * t && -s <= 2.0 * (x - a) <= s
    ensures -w <= 2.0 * (u - v) <= w
  {
    MulMonoReal(-s, 2.0 * (x - a), t);
    MulMonoReal(2.0 * (x - a), s, t);
  }

  lemma StepBelowTwo(k: real, y: real, z: real)
    requires k > 0.0 && z == k * y && z < 2.0 * k
    ensures y < 2.0
  {
    if y >= 2.0 { MulMonoReal(2.0, y, k); }
  }

  /** Within the bound, a 12-decimal quotient multiplied back gives the amount with no error at all. */
  lemma QuotientIsExact(rate: Decimal, amount: Decimal)
    requires rate.coeff > 0 && amount.coeff > 0 && NumDecimals(rate) <= MAX_RATE_DECIMALS && FitsDivision(amount)
    requires NumDecimals(Quotient(amount, rate)) <= MONERO_DECIMALS
    ensures Mag(Quotient(amount, rate)) * Mag(rate) == Mag(amount)
  {
    hide Ten, IsInt, Mag, Shifted, NumDecimals, Quotient, LastPlace, Product, Reduce;
    var q, m := Quotient(amount, rate), CommonDecimals(amount);
    QuotientBounds(amount, rate);
    ProductWhole(q, rate, m);
    NumDecimalsIff(amount, m);
    CloseDecimals(Product(Reduce(q), Reduce(rate)), amount, m, LastPlace(amount, rate), Ten(PRECISION - 1));
  }

  /** An exact XMR amount for a bounded amount has fewer than 100 digits. */
  lemma BuysFits(xmr: Decimal, rate: Decimal, amount: Decimal)
    requires rate.coeff > 0 && amount.coeff > 0 && NumDecimals(rate) <= MAX_RATE_DECIMALS && FitsDivision(amount)
    requires Buys(xmr, rate, amount)
    ensures Reduce(xmr).coeff < Pow(10, PRECISION)
  {
    hide Ten, Pow, IsInt, Mag, Shifted, Reduce;
    var z, r, n := Reduce(xmr), Reduce(rate), CommonDecimals(amount) - MONERO_DECIMALS;
    ReduceKeeps(xmr);
    ReduceKeeps(rate);
    ShiftedAtLeast(z, MONERO_DECIMALS);
    ShiftedAtLeast(r, n);
    SplitShift(z, r, amount, MONERO_DECIMALS, n);
    GrowAtLeast(Shifted(z, MONERO_DECIMALS), Shifted(r, n), Shifted(amount, CommonDecimals(amount)));
    TenNext(PRECISION - 1);
    TenNat(PRECISION);
  }

  /** A decimal shifted to a whole number is at least its coefficient. */
  lemma ShiftedAtLeast(d: Decimal, n: int)
    requires d.exponent + n >= 0
    ensures Shifted(d, n) >= d.coeff as real
  {
    hide Ten, Shifted, Pow;
    ShiftedWhole(d, n);
    if d.coeff > 0 { MulMono(1, Pow(10, d.exponent + n), d.coeff); }
  }

  lemma GrowAtLeast(x: real, y: real, z: real)
    requires x * y == z && x >= 0.0 && y >= 1.0
    ensures x <= z
  {
    MulMonoReal(1.0, y, x);
  }

  lemma SplitShift(z: Decimal, r: Decimal, a: Decimal, m: int, n: int)
    requires Mag(z) * Mag(r) == Mag(a)
    ensures Shifted(z, m) * Shifted(r, n) == Shifted(a, m + n)
  {
    hide Ten, Mag, Shifted;
    ShiftedMag(z, m);
    ShiftedMag(r, n);
    ShiftedMag(a, m + n);
    TenAdd(m, n);
    SplitShiftReal(Mag(z), Mag(r), Mag(a), Ten(m), Ten(n), Ten(m + n), Shifted(z, m), Shifted(r, n));
  }

  lemma SplitShiftReal(z: real, r: real, a: real, s: real, t: real, st: real, u: real, v: real)
    requires z * r == a && st == s * t && u == z * s && v == r * t
    ensures u * v == a * st
  {
    FourProduct(z, r, s, t);
  }

  /** `ToXMR` succeeds exactly when some whole number of piconero is worth exactly the amount, and then
      the result is that number: dividing never loses anything and never refuses a payable amount. */
  lemma ToXMRIff(rate: Decimal, amount: Decimal, amountDecimals: nat)
    requires Positive(rate) && Positive(amount) && NumDecimals(rate) <= MAX_RATE_DECIMALS && FitsDivision(amount)
    ensures ToXMR(rate, amount, amountDecimals).Ok? <==> Quo(amount, rate).Ok? && exists z :: Buys(z, rate, amount)
    ensures forall x :: ToXMR(rate, amount, amountDecimals) == Ok(x) ==> Positive(x) && Buys(x, rate, amount)
  {
    hide Ten, Pow, Mag, Shifted, Quotient, Reduce, FitsDivision, NumDecimals;
    var q := Quotient(amount, rate);
    ReduceTwiceDecimals(q);
    QuotientPositive(rate, amount);
    if NumDecimals(q) <= MONERO_DECIMALS {
      QuotientIsExact(rate, amount);
      ReduceKeeps(q);
      assert Buys(Reduce(q), rate, amount);
    } else {
      forall z ensures !Buys(z, rate, amount) {
        if Buys(z, rate, amount) { NotBuys(z, rate, amount); }
      }
    }
  }

  /** An exact XMR amount of at most 100 digits is found at any size, as long as the exponents stay in range. */
  lemma ToXMRFinds(rate: Decimal, amount: Decimal, z: Decimal, amountDecimals: nat)
    requires Positive(rate) && Positive(amount) && Positive(z) && Buys(z, rate, amount) && z.coeff < Pow(10, PRECISION)
    ensures ToXMR(rate, amount, amountDecimals) == Ok(Reduce(z))
       <==> -MAX_EXPONENT <= amount.exponent - rate.exponent <= MAX_EXPONENT && InRange(z)
  {
    hide Ten, Pow, Mag, Quotient, Reduce, NumDecimals, NumDigits;
    var q := Quotient(amount, rate);
    QuotientExact(amount, rate, z);
    QuotientPositive(rate, amount);
    SameLeading(q, z);
    assert InRange(q) <==> InRange(z);
    ReduceKeeps(q);
    ReduceKeeps(z);
    ReducedUnique(Reduce(q), Reduce(z));
    SameDecimals(q, z, MONERO_DECIMALS);
    ReduceTwiceDecimals(q);
  }

  lemma QuotientPositive(rate: Decimal, amount: Decimal)
    requires Positive(rate) && Positive(amount)
    ensures Positive(Quotient(amount, rate)) && Positive(Reduce(Quotient(amount, rate)))
  {
    hide Ten, Mag, LastPlace, Quotient;
    QuotientBounds(amount, rate);
    var q := Quotient(amount, rate);
    assert !q.negative by { QuotientSign(rate, amount); }
    TenMono(0, PRECISION - 1);
    TenZero();
    StepTooSmall(q.coeff as real, LastPlace(amount, rate), Mag(amount), Ten(PRECISION - 1));
    ReduceKeeps(q);
  }

  lemma QuotientSign(rate: Decimal, amount: Decimal)
    requires Positive(rate) && Positive(amount)
    ensures !Quotient(amount, rate).negative
  {
    hide Pow, HalfUp, Align;
  }

  lemma StepTooSmall(q: real, s: real, a: real, k: real)
    requires s > 0.0 && k >= 1.0 && k * s <= a && -s <= 2.0 * (q * s - a)
    ensures q > 0.0
  {
    MulMonoReal(1.0, k, s);
    if q <= 0.0 { MulMonoReal(q, 0.0, s); }
  }

  lemma ReduceTwiceDecimals(d: Decimal)
    ensures NumDecimals(Reduce(d)) == NumDecimals(d)
  {
    ReduceTwice(d);
  }

  lemma NotBuys(z: Decimal, rate: Decimal, amount: Decimal)
    requires Positive(rate) && Positive(amount) && NumDecimals(rate) <= MAX_RATE_DECIMALS && FitsDivision(amount)
    requires Buys(z, rate, amount)
    ensures NumDecimals(Quotient(amount, rate)) <= MONERO_DECIMALS
  {
    hide Ten, Pow, Mag, Shifted, Quotient, Reduce, FitsDivision, NumDecimals, IsInt;
    BuysFits(z, rate, amount);
    ReduceKeeps(z);
    QuotientExact(amount, rate, Reduce(z));
    SameDecimals(Quotient(amount, rate), z, MONERO_DECIMALS);
  }

  lemma SameDecimals(x: Decimal, y: Decimal, n: nat)
    requires Mag(x) == Mag(y)
    ensures NumDecimals(x) <= n <==> NumDecimals(y) <= n
  {
    hide Ten, Mag, Shifted, NumDecimals, IsInt;
    NumDecimalsIff(x, n);
    NumDecimalsIff(y, n);
    ShiftedSame(x, y, n);
  }

  /** Every amount of wei an Ethereum contract can hold is within the bound. */
  lemma EvmAmountsFit(n: nat)
    requires 0 < n <= Evm.MAX_UINT
    ensures Positive(ToStandard(FromUnits(n), ETHER_DECIMALS)) && FitsDivision(ToStandard(FromUnits(n), ETHER_DECIMALS))
  {
    hide Ten, Pow, IsInt, Shifted, Reduce, ToStandard;
    var d := ToStandard(FromUnits(n), ETHER_DECIMALS);
    ToStandardShifted(n, ETHER_DECIMALS);
    RealIsInt(Shifted(d, ETHER_DECIMALS), n);
    NumDecimalsIff(d, ETHER_DECIMALS);
    TenToTheTen();
    PowAdd(10, 10, 10);
    PowAdd(10, 20, 20);
    PowAdd(10, 40, 40);
    PowMono(10, 80, PRECISION - 1);
    TenNat(PRECISION - 1);
    assert d.coeff > 0 by { ZeroShifted(d, ETHER_DECIMALS); }
  }

  lemma ZeroShifted(d: Decimal, n: int)
    ensures d.coeff == 0 ==> Shifted(d, n) == 0.0
  {
    hide Ten;
  }

  /** The bound is sharp: 2*10^99+1 wei at a rate of 2E-6 divide to a whole number of piconero and a half, which
      is rounded up and accepted, and is worth one wei more. */
  lemma InexactBeyondBound(amountDecimals: nat)
    ensures var p := Pow(10, PRECISION - 1);
            var rate, amount := Decimal(false, 2, -(MAX_RATE_DECIMALS as int)), Decimal(false, 2 * p + 1, -(ETHER_DECIMALS as int));
            && Shifted(amount, ETHER_DECIMALS) == 2.0 * Ten(PRECISION - 1) + 1.0 && !FitsDivision(amount)
            && ToXMR(rate, amount, amountDecimals).Ok?
            && !Buys(ToXMR(rate, amount, amountDecimals).value, rate, amount)
  {
    hide Ten, Pow, HalfUp, Quotient, Reduce, Mag, NumDecimals, Shifted, Quo;
    var p := Pow(10, PRECISION - 1);
    var rate, amount := Decimal(false, 2, -(MAX_RATE_DECIMALS as int)), Decimal(false, 2 * p + 1, -(ETHER_DECIMALS as int));
    var q := Quotient(amount, rate);
    SharpQuotient(rate, amount, p);
    TenNat(PRECISION - 1);
    SharpAmount(amount, p);
    SharpDecimals(q);
    ReduceTwiceDecimals(q);
    ReduceKeeps(q);
    SharpMag(q, rate, amount, p);
  }

  lemma SharpQuotient(rate: Decimal, amount: Decimal, p: nat)
    requires p == Pow(10, PRECISION - 1) && rate == Decimal(false, 2, -(MAX_RATE_DECIMALS as int))
    requires amount == Decimal(false, 2 * p + 1, -(ETHER_DECIMALS as int))
    ensures Quotient(amount, rate) == Decimal(false, p + 1, -(MONERO_DECIMALS as int))
    ensures Quo(amount, rate) == Ok(Quotient(amount, rate))
  {
    hide Pow, HalfUp, NumDigits;
    NumDigitsIff(2, 1);
    TenTimes(0);
    PowZero();
    TenTimes(PRECISION - 1);
    PowMono(10, 1, PRECISION - 1);
    HundredDigits(amount.coeff);
    HundredDigits(p + 1);
    SharpHalf(p);
  }

  /** (2p + 1) / 2 is p and a half. */
  lemma SharpHalf(p: nat)
    requires p > 0
    ensures HalfUp((2 * p + 1) * p, 2 * p) == p + 1
  {
    assert 2 * ((2 * p + 1) * p) + 2 * p == (p + 1) * (2 * (2 * p));
    DivModUnique(2 * ((2 * p + 1) * p) + 2 * p, 2 * (2 * p), p + 1, 0);
  }

  lemma SharpAmount(amount: Decimal, p: nat)
    requires Ten(PRECISION - 1) == p as real && amount == Decimal(false, 2 * p + 1, -(ETHER_DECIMALS as int))
    ensures Shifted(amount, ETHER_DECIMALS) == 2.0 * Ten(PRECISION - 1) + 1.0 && !FitsDivision(amount)
  {
    hide Ten, NumDecimals, Shifted;
    AtEther(amount);
    RealIsInt(Shifted(amount, ETHER_DECIMALS), 2 * p + 1);
    NumDecimalsIff(amount, ETHER_DECIMALS);
  }

  lemma AtEther(d: Decimal)
    requires d.exponent == -(ETHER_DECIMALS as int)
    ensures Shifted(d, ETHER_DECIMALS) == d.coeff as real
  {
    TenZero();
  }

  lemma SharpDecimals(q: Decimal)
    requires q.exponent == -(MONERO_DECIMALS as int)
    ensures NumDecimals(q) <= MONERO_DECIMALS
  {
    ReduceKeeps(q);
  }

  lemma SharpMag(q: Decimal, rate: Decimal, amount: Decimal, p: nat)
    requires q == Decimal(false, p + 1, -(MONERO_DECIMALS as int)) && rate == Decimal(false, 2, -(MAX_RATE_DECIMALS as int))
    requires amount == Decimal(false, 2 * p + 1, -(ETHER_DECIMALS as int))
    ensures Mag(q) * Mag(rate) != Mag(amount)
  {
    hide Ten;
    ProductMag(q, rate);
    if Mag(q) * Mag(rate) == Mag(amount) {
      CancelScale((p + 1) * 2, 2 * p + 1, Ten(-(ETHER_DECIMALS as int)), Mag(amount));
    }
  }

  // ---- the suggested amount ----

  /** A suggestion never needs more decimals than the asset has. */
  lemma SuggestionFits(amountDecimals: nat, resultDecimals: nat, rate: Decimal, unrounded: Decimal)
    requires CalcAltNumeratorAmount(amountDecimals, resultDecimals, rate, unrounded).Some?
    ensures var alt := CalcAltNumeratorAmount(amountDecimals, resultDecimals, rate, unrounded).value;
            Reduced(alt) && alt.coeff > 0 && NumDecimals(alt) <= amountDecimals
  {
    hide RoundToDecimalPlace, Reduce, Mul, Mag, Val;
    var place := RoundingPlace(amountDecimals, resultDecimals, rate).value;
    var rounded := RoundToDecimalPlace(unrounded, place).value;
    RoundIsNearest(unrounded, place);
    ReduceFixed(rounded);
    var p := Mul(rounded, Reduce(rate)).value;
    MulExponent(rounded, Reduce(rate));
    ReduceKeeps(p);
    ReduceZeroIff(p);
    ReduceTwice(p);
  }

  /** k units of the p-th decimal. */
  function OnPlaceUnits(k: nat, p: nat): (d: Decimal) {
    Decimal(false, k, -(p as int))
  }

  /** The rounding place behind a suggestion is the largest useful one: it is within the result's decimals, every amount
      on it times the rate fits the asset, and unless it is the result's last decimal, the next place would not. */
  lemma SuggestionPlace(amountDecimals: nat, resultDecimals: nat, rate: Decimal, unrounded: Decimal, alt: Decimal)
    returns (p: nat, rounded: Decimal)
    requires Positive(rate) && CalcAltNumeratorAmount(amountDecimals, resultDecimals, rate, unrounded) == Some(alt)
    ensures RoundToDecimalPlace(unrounded, p) == Ok(rounded)
    ensures Mul(rounded, Reduce(rate)).Ok? && alt == Reduce(Mul(rounded, Reduce(rate)).value)
    ensures p <= resultDecimals
    ensures forall k: nat :: NumDecimals(Product(OnPlaceUnits(k, p), rate)) <= amountDecimals
    ensures p == resultDecimals || NumDecimals(Product(OnPlaceUnits(1, p + 1), rate)) > amountDecimals
  {
    hide RoundToDecimalPlace, Reduce, Mul, NumDecimals, Product;
    p := RoundingPlace(amountDecimals, resultDecimals, rate).value;
    rounded := RoundToDecimalPlace(unrounded, p).value;
    forall k: nat ensures NumDecimals(Product(OnPlaceUnits(k, p), rate)) <= amountDecimals {
      UnitDecimals(rate, k, -(p as int), amountDecimals);
    }
    UnitDecimals(rate, 1, -(p as int) - 1, amountDecimals);
  }

  /** Some place fits exactly when the rate itself does; the place is then only capped by what a byte holds. */
  lemma RoundingPlaceIff(amountDecimals: nat, resultDecimals: nat, rate: Decimal)
    requires Positive(rate)
    ensures RoundingPlace(amountDecimals, resultDecimals, rate).Some?
       <==> NumDecimals(rate) <= amountDecimals && Reduce(rate).exponent + amountDecimals <= 255
  {
    hide Reduce;
  }

  /** Decimals of k units of a place times a rate, in terms of the rate's last decimal. */
  lemma UnitDecimals(rate: Decimal, k: nat, e: int, n: nat)
    requires Positive(rate)
    ensures e + Reduce(rate).exponent >= -(n as int) ==> NumDecimals(Product(Decimal(false, k, e), rate)) <= n
    ensures e + Reduce(rate).exponent < -(n as int) ==> NumDecimals(Product(Decimal(false, 1, e), rate)) > n
  {
    hide Ten, Mag, Reduce, Shifted, IsInt, Pow;
    var r := Reduce(rate);
    ReduceKeeps(rate);
    var d, one := Decimal(false, k, e), Decimal(false, 1, e);
    ProductMag(d, rate);
    ProductMag(d, r);
    ProductMag(one, rate);
    ProductMag(one, r);
    SameDecimals(Product(d, rate), Product(d, r), n);
    SameDecimals(Product(one, rate), Product(one, r), n);
    NumDecimalsIff(Product(d, r), n);
    NumDecimalsIff(Product(one, r), n);
    if e + r.exponent + n >= 0 { WholeAt(Product(d, r), n); } else { ShiftedNotWhole(Product(one, r), n); }
  }

  /** Dividing the suggestion again gives exactly the rounded XMR amount, as long as the product was not
      itself rounded and the division stays in the exponent range. */
  lemma SuggestionDivides(amountDecimals: nat, rate: Decimal, unrounded: Decimal)
    requires CalcAltNumeratorAmount(amountDecimals, MONERO_DECIMALS, rate, unrounded).Some?
    requires Positive(rate) && !unrounded.negative
    requires var place := RoundingPlace(amountDecimals, MONERO_DECIMALS, rate).value;
             RoundToDecimalPlace(unrounded, place).value.coeff * Reduce(rate).coeff < Pow(10, PRECISION)
    ensures var alt := CalcAltNumeratorAmount(amountDecimals, MONERO_DECIMALS, rate, unrounded).value;
            var place := RoundingPlace(amountDecimals, MONERO_DECIMALS, rate).value;
            var rounded := RoundToDecimalPlace(unrounded, place).value;
            && Mag(alt) == Mag(rounded) * Mag(rate)
            && (ToXMR(Reduce(rate), alt, amountDecimals) == Ok(rounded)
                <==> alt.exponent - Reduce(rate).exponent <= MAX_EXPONENT && InRange(rounded))
  {
    hide RoundToDecimalPlace, Reduce, Mul, Mag, NumDecimals, Pow, Product, Nearest, ShiftedVal, Quotient, NumDigits;
    var alt := CalcAltNumeratorAmount(amountDecimals, MONERO_DECIMALS, rate, unrounded).value;
    var place := RoundingPlace(amountDecimals, MONERO_DECIMALS, rate).value;
    var rounded := RoundToDecimalPlace(unrounded, place).value;
    var den := Reduce(rate);
    var p := Mul(rounded, den).value;
    SuggestionParts(amountDecimals, rate, unrounded, place, rounded, den, p, alt);
    QuotientExact(alt, den, rounded);
    RetryIff(alt, den, rounded, amountDecimals);
  }

  lemma SuggestionParts(amountDecimals: nat, rate: Decimal, unrounded: Decimal,
                        place: nat, rounded: Decimal, den: Decimal, p: Decimal, alt: Decimal)
    requires Positive(rate) && !unrounded.negative && den == Reduce(rate)
    requires RoundToDecimalPlace(unrounded, place) == Ok(rounded) && place <= MONERO_DECIMALS
    requires Mul(rounded, den) == Ok(p) && alt == Reduce(p) && alt.coeff > 0
    requires rounded.coeff * den.coeff < Pow(10, PRECISION)
    ensures Positive(den) && Positive(rounded) && Positive(alt) && Reduced(rounded) && Reduced(den) && Reduced(alt)
    ensures Mag(alt) == Mag(rounded) * Mag(den) && Mag(den) == Mag(rate)
    ensures rounded.coeff < Pow(10, PRECISION) && NumDecimals(rounded) <= MONERO_DECIMALS
    ensures alt.exponent >= rounded.exponent + den.exponent && rounded.exponent >= -(MONERO_DECIMALS as int)
  {
    hide RoundToDecimalPlace, Reduce, Mag, Pow, Nearest, ShiftedVal, Mul, Product;
    ReduceKeeps(rate);
    RoundIsNearest(unrounded, place);
    ReduceFixed(rounded);
    RoundSign(unrounded, place);
    SuggestionProduct(rounded, den, p);
  }

  lemma SuggestionProduct(rounded: Decimal, den: Decimal, p: Decimal)
    requires Mul(rounded, den) == Ok(p) && Reduce(p).coeff > 0 && rounded.coeff * den.coeff < Pow(10, PRECISION)
    requires !rounded.negative && Positive(den)
    ensures rounded.coeff > 0 && rounded.coeff < Pow(10, PRECISION) && Positive(Reduce(p)) && Reduced(Reduce(p))
    ensures Mag(Reduce(p)) == Mag(rounded) * Mag(den) && Reduce(p).exponent >= rounded.exponent + den.exponent
  {
    hide Reduce, Mag, Pow, Mul;
    MulExact(rounded, den);
    ProductMag(rounded, den);
    ReduceKeeps(p);
    ReduceZeroIff(p);
    FactorsBelow(rounded.coeff, den.coeff, p.coeff);
  }

  lemma FactorsBelow(a: nat, b: nat, c: nat)
    requires c == a * b && c > 0
    ensures 0 < a <= c
  {
  }

  lemma RoundSign(d: Decimal, place: nat)
    requires RoundToDecimalPlace(d, place).Ok? && !d.negative
    ensures !RoundToDecimalPlace(d, place).value.negative
  {
    hide Reduce, Pow, HalfUp, NumDigits;
    ReduceKeeps(AddExponent(RoundToIntegral(AddExponent(d, place)).value, -(place as int)));
  }

  lemma RetryIff(alt: Decimal, den: Decimal, rounded: Decimal, amountDecimals: nat)
    requires Positive(alt) && Positive(den) && Positive(rounded) && Reduced(rounded) && Reduced(den)
    requires Mag(Quotient(alt, den)) == Mag(rounded) && NumDecimals(rounded) <= MONERO_DECIMALS
    requires alt.exponent >= rounded.exponent + den.exponent && rounded.exponent >= -(MONERO_DECIMALS as int)
    ensures ToXMR(den, alt, amountDecimals) == Ok(rounded)
       <==> alt.exponent - den.exponent <= MAX_EXPONENT && InRange(rounded)
  {
    hide Reduce, Mag, NumDecimals, Pow, Quotient, NumDigits;
    var q := Quotient(alt, den);
    QuotientPositive(den, alt);
    SameLeading(q, rounded);
    ReduceKeeps(q);
    ReducedUnique(Reduce(q), rounded);
    assert InRange(q) <==> InRange(rounded);
  }

  /** The suggestion misses the requested amount by at most half a unit of the rounding place times the
      rate, plus half a unit in the last digit of the division. */
  lemma SuggestionClose(amountDecimals: nat, rate: Decimal, amount: Decimal)
    requires Positive(rate) && Positive(amount)
    requires var xmr := Reduce(Quotient(amount, rate));
             && CalcAltNumeratorAmount(amountDecimals, MONERO_DECIMALS, rate, xmr).Some?
             && var place := RoundingPlace(amountDecimals, MONERO_DECIMALS, rate).value;
                RoundToDecimalPlace(xmr, place).value.coeff * Reduce(rate).coeff < Pow(10, PRECISION)
    ensures var xmr := Reduce(Quotient(amount, rate));
            var alt := CalcAltNumeratorAmount(amountDecimals, MONERO_DECIMALS, rate, xmr).value;
            var place := RoundingPlace(amountDecimals, MONERO_DECIMALS, rate).value;
            2.0 * Abs(Mag(alt) - Mag(amount)) <= Ten(-(place as int)) * Mag(rate) + LastPlace(amount, rate)
  {
    hide RoundToDecimalPlace, Reduce, Mag, Pow, Ten, Quotient, LastPlace, CalcAltNumeratorAmount, RoundingPlace, InRange, ToXMR, Abs;
    var q := Quotient(amount, rate);
    var xmr := Reduce(q);
    QuotientPositive(rate, amount);
    SuggestionDivides(amountDecimals, rate, xmr);
    var place, rounded := RoundedOf(amountDecimals, rate, xmr);
    var alt := CalcAltNumeratorAmount(amountDecimals, MONERO_DECIMALS, rate, xmr).value;
    ProductClose(q, rate, amount, place, rounded, Mag(alt));
  }

  lemma RoundedOf(amountDecimals: nat, rate: Decimal, xmr: Decimal) returns (place: nat, rounded: Decimal)
    requires CalcAltNumeratorAmount(amountDecimals, MONERO_DECIMALS, rate, xmr).Some?
    ensures RoundingPlace(amountDecimals, MONERO_DECIMALS, rate) == Some(place)
    ensures RoundToDecimalPlace(xmr, place) == Ok(rounded)
  {
    hide RoundToDecimalPlace, Reduce, Mul;
    place := RoundingPlace(amountDecimals, MONERO_DECIMALS, rate).value;
    rounded := RoundToDecimalPlace(xmr, place).value;
  }

  lemma ProductClose(q: Decimal, rate: Decimal, amount: Decimal, place: nat, rounded: Decimal, alt: real)
    requires Positive(rate) && Positive(amount) && q == Quotient(amount, rate) && !Reduce(q).negative
    requires RoundToDecimalPlace(Reduce(q), place) == Ok(rounded) && alt == Mag(rounded) * Mag(rate)
    ensures 2.0 * Abs(alt - Mag(amount)) <= Ten(-(place as int)) * Mag(rate) + LastPlace(amount, rate)
  {
    hide RoundToDecimalPlace, Reduce, Mag, Ten, Quotient, LastPlace, Abs;
    ReduceKeeps(q);
    QuotientBounds(amount, rate);
    RoundedClose(Reduce(q), place, rounded);
    CloseEnough(Mag(rounded), Mag(q), Mag(rate), alt, Mag(q) * Mag(rate), Mag(amount),
                Ten(-(place as int)), LastPlace(amount, rate));
  }

  lemma RoundedClose(d: Decimal, place: nat, rounded: Decimal)
    requires RoundToDecimalPlace(d, place) == Ok(rounded) && !d.negative
    ensures 2.0 * Abs(Mag(rounded) - Mag(d)) <= Ten(-(place as int))
  {
    hide RoundToDecimalPlace, Reduce, Mag, Ten, Nearest, Shifted;
    RoundIsNearest(d, place);
    RoundSign(d, place);
    NearestIff(Shifted(d, place), Nearest(Shifted(d, place)));
    ShiftedMag(d, place);
    ShiftedMag(rounded, place);
    TenAddNat(-(place as int), place);
    TenZero();
    Unscale(Mag(rounded), Mag(d), Ten(place), Ten(-(place as int)), Shifted(rounded, place), Shifted(d, place));
  }

  lemma Unscale(r: real, d: real, t: real, i: real, rt: real, dt: real)
    requires t > 0.0 && i * t == 1.0 && rt == r * t && dt == d * t && -1.0 <= 2.0 * (rt - dt) <= 1.0
    ensures -i <= 2.0 * (r - d) <= i
  {
    var g := 2.0 * (r - d);
    assert g * t == 2.0 * (rt - dt);
    if g > i { MulMonoStrict(i, g, t); }
    if g < -i { MulMonoStrict(g, -i, t); }
  }

  lemma CloseEnough(r: real, u: real, rate: real, rR: real, uR: real, a: real, i: real, s: real)
    requires rate >= 0.0 && 2.0 * Abs(r - u) <= i && rR == r * rate && uR == u * rate && -s <= 2.0 * (uR - a) <= s
    ensures 2.0 * Abs(rR - a) <= i * rate + s
  {
    var g := 2.0 * (r - u);
    MulMonoReal(g, i, rate);
    MulMonoReal(-i, g, rate);
    assert g * rate == 2.0 * (rR - uR);
  }
}
