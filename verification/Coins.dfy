/** Coin amounts in standard units and in their smallest denomination. */
module Coins {
  import opened Numerals
  import opened Wrappers
  import opened Decimals
  import opened DecimalArith

  const ETHER_DECIMALS: nat := 18
  const MONERO_DECIMALS: nat := 12
  const MAX_RATE_DECIMALS: nat := 6
  /** The fixed fee of a relayed claim, 0.01 ETH. */
  const RELAYER_FEE_WEI: nat := 10_000_000_000_000_000
  const UINT64_LIMIT: nat := 0x1_0000_0000_0000_0000

  // ---- validation ----

  datatype ValidateError = NotSet | IsZero | IsNegative | TooManyDigits | TooManyDecimals

  /** `ValidatePositive`; the checked value is left in its reduced form. */
  function ValidatePositive(d: Decimal, maxDecimals: nat): (err: Option<ValidateError>) {
    if d.coeff == 0 then Some(IsZero)
    else if d.negative then Some(IsNegative)
    else
      var r := Reduce(d);
      if NumDigits(r.coeff) > PRECISION then Some(TooManyDigits)
      else if r.exponent < -(maxDecimals as int) then Some(TooManyDecimals)
      else None
  }

  /** Accepted are exactly the positive values with at most that many decimals whose significant
      digits number at most 100, however they are written. */
  lemma ValidatePositiveIff(d: Decimal, maxDecimals: nat)
    ensures ValidatePositive(d, maxDecimals).None?
       <==> Val(d) > 0.0 && NumDecimals(d) <= maxDecimals && Reduce(d).coeff < Pow(10, PRECISION)
    ensures ValidatePositive(Reduce(d), maxDecimals).None? <==> ValidatePositive(d, maxDecimals).None?
  {
    hide Ten, Pow, NumDigits, Mag;
    ReduceKeeps(d);
    ReduceFixed(Reduce(d));
    ZeroMag(d);
    NumDigitsIff(Reduce(d).coeff, PRECISION);
  }

  /** Which error a refused value gets, by its value alone. */
  lemma ValidateErrors(d: Decimal, maxDecimals: nat)
    ensures ValidatePositive(d, maxDecimals) == Some(IsZero) <==> Val(d) == 0.0
    ensures ValidatePositive(d, maxDecimals) == Some(IsNegative) <==> Val(d) < 0.0
    ensures ValidatePositive(d, maxDecimals) == Some(TooManyDigits) <==> Val(d) > 0.0 && Reduce(d).coeff >= Pow(10, 100)
    ensures ValidatePositive(d, maxDecimals) == Some(TooManyDecimals)
       <==> Val(d) > 0.0 && Reduce(d).coeff < Pow(10, 100) && NumDecimals(d) > maxDecimals
  {
    hide Ten, Pow, NumDigits, Mag;
    ReduceKeeps(d);
    ZeroMag(d);
    NumDigitsIff(Reduce(d).coeff, PRECISION);
  }

  // ---- whole numbers of the smallest denomination ----

  function FromUnits(n: nat): (d: Decimal) {
    Decimal(false, n, 0)
  }

  /** `AsMonero`, `AsEther`, `NewERC20TokenAmountFromBigInt`: units to standard amount. */
  function ToStandard(units: Decimal, decimals: nat): (d: Decimal) {
    Reduce(AddExponent(units, -(decimals as int)))
  }

  /** `MoneroToPiconero`, `EtherToWei`: standard amount to units, rounded to whole units. */
  function ToUnits(amount: Decimal, decimals: nat): (r: Result<Decimal, DecimalError>) {
    RoundToDecimalPlace(AddExponent(amount, decimals), 0)
  }

  /** `Uint64` parses the plain decimal text, so it accepts only a whole number written without a point. */
  function Uint64(d: Decimal): (r: Result<nat, DecimalError>) {
    if d.negative || d.exponent < 0 || d.coeff * Pow(10, d.exponent) >= UINT64_LIMIT then Err(InvalidOperation)
    else Ok(d.coeff * Pow(10, d.exponent))
  }

  /** `BigInt`: quantize to exponent 0 within 100 digits, then the coefficient. */
  function BigInt(d: Decimal): (r: Result<nat, DecimalError>) {
    var w :- RoundToIntegral(d);
    if NumDigits(w.coeff) > PRECISION then Err(InvalidOperation) else Ok(w.coeff)
  }

  /** `ERC20TokenAmount.BigInt` of an amount in standard units. */
  function TokenBigInt(amount: Decimal, decimals: nat): (r: Result<nat, DecimalError>) {
    BigInt(AddExponent(amount, decimals))
  }

  /** `Uint64` gives a number exactly when the decimal is that whole number below 2^64, written without decimals. */
  lemma Uint64Iff(d: Decimal, n: nat)
    ensures Uint64(d) == Ok(n) <==> !d.negative && d.exponent >= 0 && Mag(d) == n as real && n < 18446744073709551616
  {
    hide Ten, Pow, IsInt;
    if d.exponent >= 0 {
      ShiftedWhole(d, 0);
      assert Shifted(d, 0) == Mag(d);
    }
  }

  /** `BigInt` gives the nearest whole number exactly when it has at most 100 digits and the exponent is in range. */
  lemma BigIntIff(d: Decimal, n: nat)
    ensures BigInt(d) == Ok(n) <==>
            && n == Nearest(Mag(d)) && n < Pow(10, 100)
            && d.exponent <= 100000 && (d.exponent >= -100000 || Mag(d) < Ten(-1))
  {
    hide Ten, Pow, Nearest, HalfUp, NumDigits, RoundToIntegral;
    assert AddExponent(d, 0) == d && Shifted(d, 0) == Mag(d);
    RoundOkIff(d, 0);
    if RoundToIntegral(d).Ok? {
      RoundToIntegralNearest(d);
      NumDigitsIff(RoundToIntegral(d).value.coeff, PRECISION);
    }
  }

  /** A positive whole number and its reduced form. */
  lemma ReducedUnits(n: nat)
    requires 0 < n
    ensures var r := Reduce(FromUnits(n));
            0 <= r.exponent < NumDigits(n) && !r.negative && r.coeff > 0 && n == r.coeff * Pow(10, r.exponent)
  {
    hide Pow, NumDigits, Ten, Mag;
    var d := FromUnits(n);
    ReduceKeeps(d);
    ReduceCoeff(d);
    var r := Reduce(d);
    if r.exponent >= NumDigits(n) {
      NumDigitsBounds(n);
      PowMono(10, NumDigits(n), r.exponent);
      MulMono(1, r.coeff, Pow(10, r.exponent));
    }
  }

  lemma UnitsDecimals(n: nat)
    requires n > 0
    ensures NumDecimals(Reduce(FromUnits(n))) == 0
  {
    hide Pow, NumDigits;
    ReducedUnits(n);
    ReduceTwice(FromUnits(n));
  }

  /** A reduced amount worth n units, moved to units, is n in reduced form. */
  lemma AsUnits(d: Decimal, decimals: nat, n: nat)
    requires n > 0 && Reduced(d) && !d.negative && Shifted(d, decimals) == n as real
    ensures AddExponent(d, decimals) == Reduce(FromUnits(n))
  {
    hide Ten, Reduce;
    var s := AddExponent(d, decimals);
    TenZero();
    assert Val(s) == Val(FromUnits(n));
    ReduceKeeps(FromUnits(n));
    ZeroMag(s);
    ReducedUnique(s, Reduce(FromUnits(n)));
  }

  /** Converting to whole units is exact for amounts below 10^100 units, and above that `BigInt` gives up. */
  lemma UnitsOf(d: Decimal, decimals: nat, n: nat)
    requires n > 0 && Reduced(d) && !d.negative && Shifted(d, decimals) == n as real
    ensures n < Pow(10, PRECISION) ==> ToUnits(d, decimals) == Ok(Reduce(FromUnits(n)))
    ensures ToUnits(d, decimals).Ok? ==> ToUnits(d, decimals) == Ok(Reduce(FromUnits(n)))
  {
    hide Pow, NumDigits, RoundToDecimalPlace, NumDecimals, Shifted, Reduce;
    var r := Reduce(FromUnits(n));
    AsUnits(d, decimals, n);
    ReducedUnits(n);
    NumDigitsIff(n, PRECISION);
    if n < Pow(10, PRECISION) { InExponentRange(r, 0); }
    if RoundToDecimalPlace(r, 0).Ok? {
      UnitsDecimals(n);
      RoundIdentityIff(r, 0);
      ReduceTwice(FromUnits(n));
    }
  }

  /** An amount with no fraction of a unit fails to convert exactly when its exponent, in units, leaves the range. */
  lemma ToUnitsOkIff(d: Decimal, decimals: nat)
    requires Reduced(d) && NumDecimals(d) <= decimals
    ensures ToUnits(d, decimals).Ok? <==> d.exponent + decimals <= MAX_EXPONENT
    ensures ToUnits(d, decimals).Err? ==> ToUnits(d, decimals) == Err(OutOfRange)
  {
    hide Pow, HalfUp, NumDigits, Reduce;
    ReduceFixed(d);
  }

  lemma ToStandardShifted(n: nat, decimals: nat)
    requires n > 0
    ensures var d := ToStandard(FromUnits(n), decimals); Reduced(d) && !d.negative && Shifted(d, decimals) == n as real
  {
    hide Ten, Reduce;
    var s := AddExponent(FromUnits(n), -(decimals as int));
    ReduceKeeps(s);
    ShiftedSame(Reduce(s), s, decimals);
    TenZero();
  }

  /** Units to a standard amount and back is the identity, for every whole number below 10^100. */
  lemma UnitsRoundTrip(n: nat, decimals: nat)
    requires n < Pow(10, PRECISION) && decimals <= 255
    ensures ToUnits(ToStandard(FromUnits(n), decimals), decimals) == Ok(Reduce(FromUnits(n)))
  {
    hide Pow, ToUnits, ToStandard, Shifted, Reduce;
    if n == 0 {
      ZeroRounds(decimals);
    } else {
      ToStandardShifted(n, decimals);
      UnitsOf(ToStandard(FromUnits(n), decimals), decimals, n);
    }
  }

  lemma InExponentRange(d: Decimal, place: nat)
    requires 0 <= d.exponent + place <= MAX_EXPONENT
    ensures RoundToDecimalPlace(d, place).Ok?
  {
    hide Reduce;
  }

  lemma ZeroRounds(decimals: nat)
    requires decimals <= 255
    ensures ToUnits(ToStandard(FromUnits(0), decimals), decimals) == Ok(Reduce(FromUnits(0)))
  {
    hide Pow;
  }

  /** `uint64` piconero to XMR and back loses nothing, for every `uint64`. */
  lemma PiconeroRoundTrip(n: nat)
    requires n < UINT64_LIMIT
    ensures var back := ToUnits(ToStandard(FromUnits(n), MONERO_DECIMALS), MONERO_DECIMALS);
            back.Ok? && Uint64(back.value) == Ok(n)
  {
    hide NumDigits, ToUnits, ToStandard, Reduce, Pow;
    assert n < Pow(10, PRECISION) by {
      PowAdd(10, 10, 10);
      PowMono(10, 20, PRECISION);
      TenToTheTen();
    }
    UnitsRoundTrip(n, MONERO_DECIMALS);
    if n == 0 { ReduceZero(); } else { ReducedUnits(n); }
  }

  lemma ReduceZero()
    ensures Reduce(FromUnits(0)) == Zero && Zero.coeff * Pow(10, 0) == 0
  {
  }

  lemma TenToTheTen()
    ensures Pow(10, 10) == 1_00000_00000
  {
  }

  /** Wei to ether and back to a `big.Int` loses nothing below 10^100. */
  lemma WeiRoundTrip(n: nat)
    requires n < Pow(10, PRECISION)
    ensures var back := ToUnits(ToStandard(FromUnits(n), ETHER_DECIMALS), ETHER_DECIMALS);
            back.Ok? && BigInt(back.value) == Ok(n)
  {
    hide Pow, NumDigits, ToUnits, ToStandard, Reduce;
    UnitsRoundTrip(n, ETHER_DECIMALS);
    BigIntOfUnits(n);
  }

  lemma BigIntOfUnits(n: nat)
    ensures n < Pow(10, PRECISION) ==> BigInt(Reduce(FromUnits(n))) == Ok(n)
    ensures n >= Pow(10, PRECISION) ==> BigInt(Reduce(FromUnits(n))).Err?
  {
    hide Pow, NumDigits, Reduce;
    NumDigitsIff(n, PRECISION);
    if n == 0 {
      ReduceZero();
      ZeroDigits();
    } else {
      ReducedUnits(n);
    }
  }

  lemma ZeroDigits()
    ensures NumDigits(0) == 1
  {
  }

  /** A token amount made from a `big.Int` gives it back exactly when it has at most 100 digits. */
  lemma TokenRoundTripIff(n: nat, decimals: nat)
    requires decimals <= 255
    ensures TokenBigInt(ToStandard(FromUnits(n), decimals), decimals) == Ok(n) <==> n < Pow(10, PRECISION)
  {
    hide Pow, NumDigits, Reduce, ToStandard, BigInt;
    if n == 0 {
      ZeroToken(decimals);
      NumDigitsIff(0, PRECISION);
      ZeroDigits();
    } else {
      ToStandardShifted(n, decimals);
      AsUnits(ToStandard(FromUnits(n), decimals), decimals, n);
      BigIntOfUnits(n);
    }
  }

  lemma ZeroToken(decimals: nat)
    requires decimals <= 255
    ensures TokenBigInt(ToStandard(FromUnits(0), decimals), decimals) == Ok(0)
  {
    hide Pow;
    ZeroDigits();
  }
}
