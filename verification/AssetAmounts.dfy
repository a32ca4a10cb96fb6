/** From XMR to the asset: when multiplying by a rate succeeds, and what arrives as whole wei. */
module AssetAmounts {
  import opened Numerals
  import opened Wrappers
  import opened Decimals
  import opened DecimalArith
  import opened Coins
  import opened ExchangeRates

  /** Rounding to 100 digits never adds decimals. */
  lemma FitDecimals(d: Decimal, n: nat)
    requires d.coeff > 0 && NumDecimals(d) <= n
    ensures NumDecimals(FitPrecision(d)) <= n
  {
    hide Ten, Pow, NumDigits, HalfUp, Reduce, IsInt, Shifted;
    var f, r := FitPrecision(d), Reduce(d);
    if f.exponent + n >= 0 {
      WholeAt(f, n);
      NumDecimalsIff(f, n);
    } else if f != d {
      ReduceCoeff(d);
      FitDivisible(d, r.coeff, r.exponent - d.exponent);
      SameDecimals(f, d, n);
    }
  }

  /** Below 10^100 units nothing is rounded. */
  lemma FitExact(d: Decimal, n: nat)
    requires d.coeff > 0 && NumDecimals(d) <= n && Shifted(d, n) < Ten(PRECISION)
    ensures Mag(FitPrecision(d)) == Mag(d)
  {
    hide Ten, Pow, NumDigits, FitPrecision, Reduce, Shifted, Mag;
    var r := Reduce(d);
    ReduceCoeff(d);
    ReduceKeeps(d);
    ShiftedSame(r, d, n);
    ShiftedAtLeast(r, n);
    TenNat(PRECISION);
    var j := r.exponent - d.exponent;
    PowAdd(10, PRECISION, j);
    MulMono(r.coeff + 1, Pow(10, PRECISION), Pow(10, j));
    NumDigitsIff(d.coeff, PRECISION + j);
    FitDivisible(d, r.coeff, j);
  }

  lemma ProductDecimals(x: Decimal, y: Decimal, n: nat)
    requires NumDecimals(x) + NumDecimals(y) <= n
    ensures NumDecimals(Product(x, y)) <= n
  {
    hide Ten, Mag, Shifted, NumDecimals, IsInt, Reduce, Product;
    ProductWhole(x, y, n);
    ProductMag(x, y);
    ShiftedSame(Product(Reduce(x), Reduce(y)), Product(x, y), n);
    NumDecimalsIff(Product(x, y), n);
  }

  lemma ProductPositive(x: Decimal, y: Decimal)
    requires Positive(x) && Positive(y)
    ensures Positive(Product(x, y))
  {
  }

  /** A positive value with n decimals has its leading digit at or above the n-th decimal. */
  lemma LeadingAbove(d: Decimal, n: nat)
    requires d.coeff > 0 && NumDecimals(d) <= n
    ensures d.exponent + NumDigits(d.coeff) > -(n as int)
  {
    hide Ten, Pow, Mag, Shifted, NumDigits, Reduce;
    var l := d.exponent + NumDigits(d.coeff);
    if l <= -(n as int) {
      Leading(d);
      TenMono(l, -(n as int));
      var r := Reduce(d);
      ReduceKeeps(d);
      ShiftedSame(d, r, n);
      ShiftedAtLeast(r, n);
      ShiftedMag(d, n);
      TenAddNat(-(n as int), n);
      TenZero();
      MulMonoStrict(Mag(d), Ten(-(n as int)), Ten(n));
    }
  }

  /** The product at which rounding to 100 digits first reaches 10^100001. */
  ghost function MulLimit(): (r: real) {
    Ten(MAX_EXPONENT + 1) - Ten(MAX_EXPONENT + 1 - PRECISION) / 2.0
  }

  lemma MulLimitIff(d: Decimal)
    requires d.coeff > 0
    ensures Mag(FitPrecision(d)) < Ten(MAX_EXPONENT + 1) <==> Mag(d) < MulLimit()
  {
    hide Ten, Mag, FitPrecision;
    FitBelowIff(d, MAX_EXPONENT + 1);
  }

  /** Multiplying fails exactly when the exact product reaches the limit; with at most as many decimals in XMR
      amount and rate together as the asset has, precision is never the reason. */
  lemma ToAssetOkIff(rate: Decimal, xmr: Decimal, decimals: nat)
    requires Positive(rate) && Positive(xmr) && ExponentsInRange(xmr, rate)
    requires NumDecimals(xmr) + NumDecimals(rate) <= decimals <= 255
    ensures ToAsset(rate, xmr, decimals).Ok? <==> Mag(xmr) * Mag(rate) < MulLimit()
    ensures ToAsset(rate, xmr, decimals).Err? ==> ToAsset(rate, xmr, decimals) == Err(Arithmetic(OutOfRange))
  {
    hide Ten, Mag, NumDecimals, FitPrecision, Product, ToAsset, MulLimit;
    ToAssetRounded(rate, xmr, decimals);
    ProductPositive(xmr, rate);
    ProductMag(xmr, rate);
    MulLimitIff(Product(xmr, rate));
  }

  /** The same in terms of the rounded product, which is then the result. */
  lemma ToAssetRounded(rate: Decimal, xmr: Decimal, decimals: nat)
    requires Positive(rate) && Positive(xmr) && ExponentsInRange(xmr, rate)
    requires NumDecimals(xmr) + NumDecimals(rate) <= decimals <= 255
    ensures ToAsset(rate, xmr, decimals).Ok? <==> Mag(FitPrecision(Product(xmr, rate))) < Ten(MAX_EXPONENT + 1)
    ensures ToAsset(rate, xmr, decimals).Err? ==> ToAsset(rate, xmr, decimals) == Err(Arithmetic(OutOfRange))
    ensures ToAsset(rate, xmr, decimals).Ok? ==> ToAsset(rate, xmr, decimals).value == Reduce(FitPrecision(Product(xmr, rate)))
    ensures Positive(FitPrecision(Product(xmr, rate))) && NumDecimals(FitPrecision(Product(xmr, rate))) <= decimals
  {
    hide Ten, Mag, NumDigits, Reduce, NumDecimals, FitPrecision, Product;
    var p := Product(xmr, rate);
    var f := FitPrecision(p);
    ProductPositive(xmr, rate);
    ProductDecimals(xmr, rate, decimals);
    FitDecimals(p, decimals);
    FitLeading(p);
    FitSign(p);
    LeadingAbove(p, decimals);
    LeadingIff(f, MAX_EXPONENT + 1);
    ReduceTwiceDecimals(f);
  }

  lemma FitSign(d: Decimal)
    ensures FitPrecision(d).negative == d.negative
  {
    hide Pow, NumDigits, HalfUp;
  }

  /** A token may have fewer decimals than amount and rate together: the conversion then succeeds exactly when
      the amount is a whole number of the token's units, and gives the exact product. */
  lemma ToTokenIff(rate: Decimal, xmr: Decimal, decimals: nat)
    requires Positive(rate) && Positive(xmr) && ExponentsInRange(xmr, rate)
    requires NumDecimals(xmr) <= MONERO_DECIMALS && NumDecimals(rate) <= MAX_RATE_DECIMALS
    requires Shifted(Product(xmr, rate), ETHER_DECIMALS) < Ten(PRECISION)
    ensures ToAsset(rate, xmr, decimals).Ok? <==> IsInt(Shifted(Product(xmr, rate), decimals))
    ensures ToAsset(rate, xmr, decimals).Ok? ==> Val(ToAsset(rate, xmr, decimals).value) == Val(xmr) * Val(rate)
    ensures ToAsset(rate, xmr, decimals).Err? ==> ToAsset(rate, xmr, decimals) == Err(TooPrecise(None))
  {
    hide Ten, Mag, NumDigits, Reduce, NumDecimals, FitPrecision, Product, Shifted, IsInt, Val;
    var p := Product(xmr, rate);
    var f := FitPrecision(p);
    ToEtherFits(rate, xmr);
    ReduceTwiceDecimals(f);
    SameDecimals(f, p, decimals);
    NumDecimalsIff(p, decimals);
    ReduceKeeps(f);
    ProductMag(xmr, rate);
  }

  lemma ToEtherFits(rate: Decimal, xmr: Decimal)
    requires Positive(rate) && Positive(xmr) && ExponentsInRange(xmr, rate)
    requires NumDecimals(xmr) <= MONERO_DECIMALS && NumDecimals(rate) <= MAX_RATE_DECIMALS
    requires Shifted(Product(xmr, rate), ETHER_DECIMALS) < Ten(PRECISION)
    ensures Mul(xmr, rate) == Ok(FitPrecision(Product(xmr, rate)))
    ensures var p, f := Product(xmr, rate), FitPrecision(Product(xmr, rate)); Mag(f) == Mag(p) && Val(f) == Val(p)
  {
    hide Ten, Mag, NumDigits, Reduce, NumDecimals, FitPrecision, Product, Shifted;
    var p := Product(xmr, rate);
    ProductPositive(xmr, rate);
    ProductDecimals(xmr, rate, ETHER_DECIMALS);
    FitExact(p, ETHER_DECIMALS);
    FitSign(p);
    BelowRange(p);
    ToAssetRounded(rate, xmr, ETHER_DECIMALS);
  }

  /** XMR to ether, to wei, to the `big.Int` sent on chain. */
  function ToWei(rate: Decimal, xmr: Decimal): (r: Result<nat, RateError>) {
    match ToETH(rate, xmr)
    case Err(e) => Err(e)
    case Ok(eth) =>
      match ToUnits(eth, ETHER_DECIMALS)
      case Err(e) => Err(Arithmetic(e))
      case Ok(wei) =>
        match BigInt(wei)
        case Err(e) => Err(Arithmetic(e))
        case Ok(n) => Ok(n)
  }

  /** The value in wei, before any rounding. */
  ghost function WeiValue(rate: Decimal, xmr: Decimal): (r: real) {
    Shifted(Product(xmr, rate), ETHER_DECIMALS)
  }

  /** What reaches the chain is exactly XMR amount times rate times 10^18, whenever that is below 10^100;
      above it the conversion fails. */
  lemma ToWeiIff(rate: Decimal, xmr: Decimal, n: nat)
    requires Positive(rate) && Positive(xmr) && ExponentsInRange(xmr, rate)
    requires NumDecimals(xmr) <= MONERO_DECIMALS && NumDecimals(rate) <= MAX_RATE_DECIMALS
    ensures ToWei(rate, xmr) == Ok(n) <==> n as real == WeiValue(rate, xmr) && n < Pow(10, PRECISION)
    ensures WeiValue(rate, xmr) == Mag(xmr) * Mag(rate) * Ten(ETHER_DECIMALS)
    ensures ToWei(rate, xmr).Ok? <==> WeiValue(rate, xmr) < Ten(PRECISION)
  {
    hide Ten, Pow, Mag, Shifted, NumDecimals, Product, ToWei, WeiValue;
    WeiValueIs(rate, xmr);
    TenNat(PRECISION);
    if WeiValue(rate, xmr) < Ten(PRECISION) {
      ToWeiSmall(rate, xmr);
    } else {
      ToWeiLarge(rate, xmr);
    }
  }

  lemma WeiValueIs(rate: Decimal, xmr: Decimal)
    ensures WeiValue(rate, xmr) == Mag(xmr) * Mag(rate) * Ten(ETHER_DECIMALS)
  {
    hide Ten, Mag, Shifted, Product;
    ProductMag(xmr, rate);
    ShiftedMag(Product(xmr, rate), ETHER_DECIMALS);
  }

  lemma ToWeiSmall(rate: Decimal, xmr: Decimal)
    requires Positive(rate) && Positive(xmr) && ExponentsInRange(xmr, rate)
    requires NumDecimals(xmr) <= MONERO_DECIMALS && NumDecimals(rate) <= MAX_RATE_DECIMALS
    requires WeiValue(rate, xmr) < Ten(PRECISION)
    ensures WeiValue(rate, xmr) > 0.0 && WeiValue(rate, xmr).Floor as real == WeiValue(rate, xmr)
    ensures ToWei(rate, xmr) == Ok(WeiValue(rate, xmr).Floor)
  {
    hide Ten, Pow, Mag, Shifted, IsInt, NumDecimals, Product, ToAsset, ToUnits, BigInt, Reduce, FitPrecision;
    var p := Product(xmr, rate);
    var f := FitPrecision(p);
    ProductPositive(xmr, rate);
    ProductDecimals(xmr, rate, ETHER_DECIMALS);
    FitExact(p, ETHER_DECIMALS);
    ToAssetRounded(rate, xmr, ETHER_DECIMALS);
    BelowRange(p);
    var e := Reduce(f);
    ReduceKeeps(f);
    ShiftedSame(e, p, ETHER_DECIMALS);
    var n := WholeUnits(p, ETHER_DECIMALS);
    TenNat(PRECISION);
    UnitsOf(e, ETHER_DECIMALS, n);
    BigIntOfUnits(n);
  }

  lemma BelowRange(p: Decimal)
    requires Shifted(p, ETHER_DECIMALS) < Ten(PRECISION)
    ensures Mag(p) < Ten(MAX_EXPONENT + 1)
  {
    hide Ten, Mag, Shifted;
    ShiftedMag(p, ETHER_DECIMALS);
    TenMono(0, ETHER_DECIMALS);
    TenZero();
    MulMonoReal(1.0, Ten(ETHER_DECIMALS), Mag(p));
    TenMono(PRECISION, MAX_EXPONENT + 1);
  }

  /** The whole number of units a positive amount with few enough decimals is worth. */
  lemma WholeUnits(d: Decimal, n: nat) returns (k: nat)
    requires d.coeff > 0 && NumDecimals(d) <= n
    ensures k > 0 && k as real == Shifted(d, n) && Shifted(d, n).Floor == k
  {
    hide Ten, Pow, Shifted, Reduce;
    var r := Reduce(d);
    ReduceKeeps(d);
    ShiftedSame(d, r, n);
    ShiftedAtLeast(r, n);
    NumDecimalsIff(d, n);
    k := Shifted(d, n).Floor;
  }

  lemma ToWeiLarge(rate: Decimal, xmr: Decimal)
    requires Positive(rate) && Positive(xmr) && ExponentsInRange(xmr, rate)
    requires NumDecimals(xmr) <= MONERO_DECIMALS && NumDecimals(rate) <= MAX_RATE_DECIMALS
    requires WeiValue(rate, xmr) >= Ten(PRECISION)
    ensures ToWei(rate, xmr).Err?
  {
    hide Ten, Pow, Mag, Shifted, IsInt, NumDecimals, Product, ToAsset, ToUnits, BigInt, Reduce, FitPrecision, NumDigits;
    var p := Product(xmr, rate);
    var f := FitPrecision(p);
    ToAssetRounded(rate, xmr, ETHER_DECIMALS);
    var e := Reduce(f);
    ReduceKeeps(f);
    ReduceTwiceDecimals(f);
    ShiftedSame(e, f, ETHER_DECIMALS);
    var n := WholeUnits(f, ETHER_DECIMALS);
    ProductPositive(xmr, rate);
    StillLarge(p, ETHER_DECIMALS);
    TenNat(PRECISION);
    UnitsOf(e, ETHER_DECIMALS, n);
    BigIntOfUnits(n);
  }

  lemma StillLarge(p: Decimal, n: nat)
    requires p.coeff > 0 && Shifted(p, n) >= Ten(PRECISION)
    ensures Shifted(FitPrecision(p), n) >= Ten(PRECISION)
  {
    hide Ten, Mag, FitPrecision, NumDigits;
    var f := FitPrecision(p);
    FitLeading(p);
    LeadingIff(AddExponent(p, n), PRECISION);
    LeadingIff(AddExponent(f, n), PRECISION);
    assert Mag(AddExponent(p, n)) == Shifted(p, n) && Mag(AddExponent(f, n)) == Shifted(f, n) by {
      MagShift(p, n);
      MagShift(f, n);
    }
  }

  lemma MagShift(d: Decimal, n: int)
    ensures Mag(AddExponent(d, n)) == Shifted(d, n)
  {
    hide Ten;
  }
}
