/** The operations on decimals held by reference: which arguments they rewrite, and that a rewritten
    argument keeps its value. */
module DecimalCells {
  import opened Numerals
  import opened Wrappers
  import opened Decimals
  import opened DecimalArith
  import opened Coins
  import opened ExchangeRates

  const MAX_INT32: int := 0x7fff_ffff
  const MIN_INT32: int := -0x8000_0000

  function Int32(n: int): (r: int)
    ensures MIN_INT32 <= r <= MAX_INT32
  {
    (n - MIN_INT32) % 0x1_0000_0000 + MIN_INT32
  }

  /** The exponent field is an int32. */
  predicate InInt32(d: Decimal) {
    MIN_INT32 <= d.exponent <= MAX_INT32
  }

  /** An operation either panics on exponent overflow or returns, with a result or an error. */
  datatype Outcome<T> = Panics | Returns(result: Result<T, DecimalError>)

  class Cell {
    var d: Decimal

    constructor (d: Decimal)
      ensures this.d == d
    {
      this.d := d;
    }
  }

  /** Adds to the exponent in 32-bit arithmetic; the false result is the panic. */
  method IncreaseExponent(n: Cell, delta: nat) returns (ok: bool)
    requires delta <= 255 && InInt32(n.d)
    modifies n
    ensures ok <==> old(n.d.exponent) + delta <= MAX_INT32
    ensures ok ==> n.d == AddExponent(old(n.d), delta)
  {
    var e := n.d.exponent;
    n.d := n.d.(exponent := Int32(e + delta));
    ok := n.d.exponent >= e;
  }

  method DecreaseExponent(n: Cell, delta: nat) returns (ok: bool)
    requires delta <= 255 && InInt32(n.d)
    modifies n
    ensures ok <==> old(n.d.exponent) - delta >= MIN_INT32
    ensures ok ==> n.d == AddExponent(old(n.d), -(delta as int))
  {
    var e := n.d.exponent;
    n.d := n.d.(exponent := Int32(e - delta));
    ok := n.d.exponent <= e;
  }

  /** Moves trailing zeros into the exponent. */
  method ReduceInPlace(n: Cell)
    modifies n
    ensures n.d == Reduce(old(n.d)) && Val(n.d) == Val(old(n.d))
  {
    ReduceKeeps(n.d);
    if n.d.coeff == 0 {
      n.d := Zero;
      return;
    }
    while n.d.coeff % 10 == 0
      invariant n.d.coeff > 0
      invariant Reduce(n.d) == Reduce(old(n.d))
      decreases n.d.coeff
    {
      n.d := Decimal(n.d.negative, n.d.coeff / 10, n.d.exponent + 1);
    }
  }

  method CountDecimals(value: Cell) returns (n: nat)
    modifies value
    ensures value.d == Reduce(old(value.d)) && Val(value.d) == Val(old(value.d))
    ensures n == NumDecimals(old(value.d))
  {
    ReduceInPlace(value);
    if value.d.exponent >= 0 { return 0; }
    return -value.d.exponent;
  }

  method ExceedsDecimals(value: Cell, maxDecimals: nat) returns (exceeds: bool)
    modifies value
    ensures value.d == Reduce(old(value.d)) && Val(value.d) == Val(old(value.d))
    ensures exceeds <==> NumDecimals(old(value.d)) > maxDecimals
  {
    var n := CountDecimals(value);
    exceeds := n > maxDecimals;
  }

  /** Works on a copy: the argument keeps even its representation. Panics exactly when the shifted exponent
      overflows; the shift back never does. */
  method RoundToPlace(n: Cell, place: nat) returns (r: Outcome<Cell>)
    requires place <= 255 && InInt32(n.d)
    ensures r.Panics? <==> n.d.exponent + place > MAX_INT32
    ensures r.Returns? && r.result.Ok? ==> fresh(r.result.value) && Ok(r.result.value.d) == RoundToDecimalPlace(n.d, place)
    ensures r.Returns? && r.result.Err? ==> Err(r.result.error) == RoundToDecimalPlace(n.d, place)
  {
    hide Reduce, RoundToIntegral;
    var result := new Cell(n.d);
    var ok := IncreaseExponent(result, place);
    if !ok { return Panics; }
    var w := RoundToIntegral(result.d);
    if w.Err? { return Returns(Err(w.error)); }
    result.d := w.value;
    assert result.d.exponent == 0 by { RoundToIntegralNearest(AddExponent(n.d, place)); }
    ok := DecreaseExponent(result, place);
    if !ok { return Panics; }
    ReduceInPlace(result);
    r := Returns(Ok(result));
  }

  method Validate(value: Cell?, maxDecimals: nat) returns (err: Option<ValidateError>)
    modifies value
    ensures value == null ==> err == Some(NotSet)
    ensures value != null ==> err == ValidatePositive(old(value.d), maxDecimals)
    ensures value != null ==> Val(value.d) == Val(old(value.d)) && (err.None? ==> value.d == Reduce(old(value.d)))
  {
    if value == null { return Some(NotSet); }
    if value.d.coeff == 0 { return Some(IsZero); }
    if value.d.negative { return Some(IsNegative); }
    ReduceInPlace(value);
    if NumDigits(value.d.coeff) > PRECISION { return Some(TooManyDigits); }
    if value.d.exponent < -(maxDecimals as int) { return Some(TooManyDecimals); }
    return None;
  }

  /** Rewrites the denominator in reduced form and nothing else. */
  method CalcAlt(amountDecimals: nat, resultDecimals: nat, denominator: Cell, unrounded: Cell) returns (alt: Cell?, panics: bool)
    requires amountDecimals <= 255 && resultDecimals <= 255 && denominator != unrounded && InInt32(unrounded.d)
    modifies denominator
    ensures denominator.d == Reduce(old(denominator.d)) && Val(denominator.d) == Val(old(denominator.d))
    ensures panics <==> var place := RoundingPlace(amountDecimals, resultDecimals, old(denominator.d));
                        place.Some? && unrounded.d.exponent + place.value > MAX_INT32
    ensures !panics ==>
            var spec := CalcAltNumeratorAmount(amountDecimals, resultDecimals, old(denominator.d), unrounded.d);
            && (alt == null <==> spec.None?)
            && (alt != null ==> fresh(alt) && spec == Some(alt.d))
  {
    hide Reduce, RoundToDecimalPlace, Mul;
    ReduceTwice(denominator.d);
    ReduceInPlace(denominator);
    panics := false;
    var place := denominator.d.exponent + amountDecimals;
    if place < 0 || place > 255 { return null, false; }
    if place > resultDecimals { place := resultDecimals; }
    var rounded := RoundToPlace(unrounded, place);
    if rounded.Panics? { return null, true; }
    if rounded.result.Err? { return null, false; }
    var product := Mul(rounded.result.value.d, denominator.d);
    if product.Err? { return null, false; }
    alt := new Cell(product.value);
    ReduceInPlace(alt);
    if alt.d.coeff == 0 { return null, false; }
  }

  /** What `ToXMR` returns: a new decimal, an arithmetic error, or a refusal that may carry a suggestion. */
  datatype Conversion = Converted(xmr: Cell) | Failed(error: DecimalError) | Refused(suggestion: Option<Decimal>)

  /** Only a refused conversion touches the rate, and only its representation. */
  method ConvertToXMR(rate: Cell, amount: Decimal, amountDecimals: nat) returns (r: Conversion)
    requires amountDecimals <= 255
    modifies rate
    ensures Val(rate.d) == Val(old(rate.d)) && (r.Refused? || rate.d == old(rate.d))
    ensures r.Converted? ==> fresh(r.xmr) && ToXMR(old(rate.d), amount, amountDecimals) == Ok(r.xmr.d)
    ensures r.Failed? ==> ToXMR(old(rate.d), amount, amountDecimals) == Err(Arithmetic(r.error))
    ensures r.Refused? ==> ToXMR(old(rate.d), amount, amountDecimals) == Err(TooPrecise(r.suggestion))
  {
    hide Reduce, CalcAltNumeratorAmount, InRange, Val, Quotient;
    var q := Quo(amount, rate.d);
    if q.Err? { return Failed(q.error); }
    var x := new Cell(q.value);
    var exceeds := ExceedsDecimals(x, MONERO_DECIMALS);
    ReduceTwiceDecimals(q.value);
    if !exceeds { return Converted(x); }
    QuotientShiftable(amount, rate.d);
    var alt, panics := CalcAlt(amountDecimals, MONERO_DECIMALS, rate, x);
    assert !panics;
    r := Refused(if alt == null then None else Some(alt.d));
  }

  /** A quotient that needs decimals has an exponent no shift can overflow, so `ToXMR` never panics. */
  lemma QuotientShiftable(amount: Decimal, rate: Decimal)
    requires Quo(amount, rate).Ok? && NumDecimals(Quo(amount, rate).value) > 0
    ensures MIN_INT32 <= Reduce(Quo(amount, rate).value).exponent <= MAX_INT32 - 255
  {
    hide Quotient, Mag, Ten, NumDigits;
    var q := Quo(amount, rate).value;
    ReduceKeeps(q);
    if q.coeff > 0 {
      assert NumDigits(q.coeff) <= PRECISION + 1 by {
        hide Pow, HalfUp;
        var num, den, u := QuotientParts(amount, rate);
        HalfUpBetween(num, den, Pow(10, PRECISION - 1), Pow(10, PRECISION));
        PowStrict(10, PRECISION, PRECISION + 1);
        NumDigitsIff(q.coeff, PRECISION + 1);
      }
    }
  }

  method ConvertToAsset(rate: Cell, xmr: Cell, decimals: nat) returns (r: Result<Cell, RateError>)
    ensures r.Ok? ==> fresh(r.value) && ToAsset(rate.d, xmr.d, decimals) == Ok(r.value.d)
    ensures r.Err? ==> ToAsset(rate.d, xmr.d, decimals) == Err(r.error)
  {
    hide Reduce, Mul;
    var p := Mul(xmr.d, rate.d);
    if p.Err? { return Err(Arithmetic(p.error)); }
    var amount := new Cell(p.value);
    var exceeds := ExceedsDecimals(amount, decimals);
    ReduceTwiceDecimals(p.value);
    if exceeds { return Err(TooPrecise(None)); }
    r := Ok(amount);
  }

  /** `AsMonero`, `AsEther`: a copy is shifted and reduced; panics exactly when the shift underflows. */
  method AsStandard(units: Cell, decimals: nat) returns (amount: Cell?)
    requires decimals <= 255 && InInt32(units.d)
    ensures amount == null <==> units.d.exponent - decimals < MIN_INT32
    ensures amount != null ==> fresh(amount) && amount.d == ToStandard(units.d, decimals)
  {
    var copy := new Cell(units.d);
    var ok := DecreaseExponent(copy, decimals);
    if !ok { return null; }
    ReduceInPlace(copy);
    amount := copy;
  }

  /** `MoneroToPiconero`, `EtherToWei`: a copy is shifted and rounded; the callers panic on a returned error too. */
  method AsUnits(amount: Cell, decimals: nat) returns (r: Outcome<Cell>)
    requires decimals <= 255 && InInt32(amount.d)
    ensures r.Panics? <==> amount.d.exponent + decimals > MAX_INT32
    ensures r.Returns? && r.result.Ok? ==> fresh(r.result.value) && Ok(r.result.value.d) == ToUnits(amount.d, decimals)
    ensures r.Returns? && r.result.Err? ==> Err(r.result.error) == ToUnits(amount.d, decimals)
  {
    hide RoundToDecimalPlace;
    var units := new Cell(amount.d);
    var ok := IncreaseExponent(units, decimals);
    if !ok { return Panics; }
    r := RoundToPlace(units, 0);
  }
}
