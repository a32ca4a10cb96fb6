/** The decimal context in use: 100 digits, round half up, exponents within +-100000, and errors for
    everything outside. */
module DecimalArith {
  import opened Numerals
  import opened Wrappers
  import opened Decimals

  const PRECISION: nat := 100
  const MAX_EXPONENT: int := 100000

  datatype DecimalError = OutOfRange | DivisionByZero | InvalidOperation

  // ---- rounding to a whole number ----

  /** The nearest whole number, ties away from zero: the reference all rounding is measured against. */
  ghost function Nearest(x: real): (k: int) {
    if x >= 0.0 then (x + 0.5).Floor else -((0.5 - x).Floor)
  }

  ghost function Abs(x: real): (r: real) {
    if x >= 0.0 then x else -x
  }

  /** `Nearest` is pinned down by distance alone: at most one half away, and outwards on a tie. */
  lemma NearestIff(x: real, k: int)
    ensures k == Nearest(x) <==> Abs(k as real - x) < 0.5 || (Abs(k as real - x) == 0.5 && Abs(k as real) > Abs(x))
  {
    var n := Nearest(x);
    if x >= 0.0 {
      assert n as real <= x + 0.5 < n as real + 1.0;
    } else {
      assert (-n) as real <= 0.5 - x < (-n) as real + 1.0;
    }
    if k < n { assert k as real <= n as real - 1.0; } else if k > n { assert k as real >= n as real + 1.0; }
  }

  lemma NearestMonotone(x: real, y: real)
    requires x <= y
    ensures Nearest(x) <= Nearest(y)
  {
  }

  /** No whole number is closer. */
  lemma NearestClosest(x: real, k: int)
    ensures Abs(Nearest(x) as real - x) <= Abs(k as real - x)
  {
    var n := Nearest(x);
    NearestIff(x, n);
    if k < n { assert k as real <= n as real - 1.0; } else if k > n { assert k as real >= n as real + 1.0; }
  }

  lemma NearestOfInt(x: real)
    requires IsInt(x)
    ensures Nearest(x) as real == x
  {
    NearestIff(x, x.Floor);
  }

  function HalfUp(num: nat, den: nat): (q: nat)
    requires den > 0
  {
    (2 * num + den) / (2 * den)
  }

  lemma HalfUpBounds(num: nat, den: nat)
    requires den > 0
    ensures 2 * (HalfUp(num, den) * den) <= 2 * num + den < 2 * (HalfUp(num, den) * den) + 2 * den
  {
    var q := HalfUp(num, den);
    assert 2 * num + den == q * (2 * den) + (2 * num + den) % (2 * den);
    assert q * (2 * den) == 2 * (q * den);
  }

  lemma HalfUpExact(k: nat, num: nat, den: nat)
    requires den > 0 && num == k * den
    ensures HalfUp(num, den) == k
  {
    assert 2 * num + den == k * (2 * den) + den;
    DivModUnique(2 * num + den, 2 * den, k, den);
  }

  /** Integer rounding of a fraction is the nearest whole number to it. */
  lemma HalfUpNearest(num: nat, den: nat, x: real)
    requires den > 0 && x >= 0.0 && x * (den as real) == num as real
    ensures HalfUp(num, den) == Nearest(x)
  {
    hide HalfUp;
    var q := HalfUp(num, den);
    HalfUpBounds(num, den);
    assert (q * den) as real == q as real * den as real;
    BetweenScaled(q as real, x + 0.5, den as real, x * (den as real));
  }

  lemma BetweenScaled(q: real, y: real, d: real, n: real)
    requires d > 0.0 && n == (y - 0.5) * d && 2.0 * (q * d) <= 2.0 * n + d < 2.0 * (q * d) + 2.0 * d
    ensures q <= y < q + 1.0
  {
    assert 2.0 * n + d == 2.0 * (y * d);
    if q > y { MulMonoStrict(y, q, d); }
    if y >= q + 1.0 { MulMonoReal(q + 1.0, y, d); }
  }

  function NumDigits(c: nat): (n: nat)
    ensures n > 0
  {
    if c == 0 then 1 else |Minimal(10, c)|
  }

  lemma NumDigitsIff(c: nat, n: nat)
    requires n > 0
    ensures NumDigits(c) <= n <==> c < Pow(10, n)
  {
    hide Minimal, Pow;
    MinimalLength(10, c, n);
    if c == 0 { assert Pow(10, n) > 0; }
  }

  lemma NumDigitsBounds(c: nat)
    requires c > 0
    ensures Pow(10, NumDigits(c) - 1) <= c < Pow(10, NumDigits(c))
  {
    hide Minimal, Pow;
    MinimalLength(10, c, NumDigits(c));
    MinimalLength(10, c, NumDigits(c) - 1);
  }

  /** `RoundToIntegralValue`: errors only on exponents outside the system's range. */
  function RoundToIntegral(d: Decimal): (r: Result<Decimal, DecimalError>) {
    if d.exponent > MAX_EXPONENT || (d.exponent < -MAX_EXPONENT && NumDigits(d.coeff) >= -d.exponent) then Err(OutOfRange)
    else if d.exponent >= 0 then Ok(Decimal(d.negative, d.coeff * Pow(10, d.exponent), 0))
    else Ok(Decimal(d.negative, HalfUp(d.coeff, Pow(10, -d.exponent)), 0))
  }

  lemma RoundToIntegralNearest(d: Decimal)
    requires RoundToIntegral(d).Ok?
    ensures RoundToIntegral(d).value.exponent == 0 && RoundToIntegral(d).value.negative == d.negative
    ensures RoundToIntegral(d).value.coeff == Nearest(Mag(d))
  {
    hide HalfUp, Ten, Nearest;
    if d.exponent >= 0 {
      ShiftedWhole(d, 0);
      NearestOfInt(Mag(d));
    } else {
      var p := Pow(10, -d.exponent);
      TenAddNat(d.exponent, -d.exponent);
      TenZero();
      TenNat(-d.exponent);
      MulAssocReal(d.coeff as real, Ten(d.exponent), p as real);
      HalfUpNearest(d.coeff, p, Mag(d));
    }
  }

  // ---- rounding to a decimal place ----

  function AddExponent(d: Decimal, delta: int): (r: Decimal) {
    Decimal(d.negative, d.coeff, d.exponent + delta)
  }

  /** Shift, round to a whole number, shift back, reduce. */
  function RoundToDecimalPlace(d: Decimal, place: nat): (r: Result<Decimal, DecimalError>) {
    var w :- RoundToIntegral(AddExponent(d, place));
    Ok(Reduce(AddExponent(w, -(place as int))))
  }

  /** The value times 10^n, with its sign. */
  ghost function ShiftedVal(d: Decimal, n: int): (r: real) {
    if d.negative then -Shifted(d, n) else Shifted(d, n)
  }

  lemma NearestSigned(x: real)
    requires x >= 0.0
    ensures Nearest(-x) == -Nearest(x)
  {
  }

  /** The result is the nearest multiple of 10^-place, ties away from zero, in reduced form. */
  lemma RoundIsNearest(d: Decimal, place: nat)
    requires RoundToDecimalPlace(d, place).Ok?
    ensures var r := RoundToDecimalPlace(d, place).value;
            Reduced(r) && ShiftedVal(r, place) == Nearest(ShiftedVal(d, place)) as real && NumDecimals(r) <= place
  {
    hide Ten, Nearest, RoundToIntegral, Reduce, IsInt;
    var s := AddExponent(d, place);
    RoundToIntegralNearest(s);
    assert Mag(s) == Shifted(d, place);
    var w := RoundToIntegral(s).value;
    var u := AddExponent(w, -(place as int));
    ReduceKeeps(u);
    ShiftedSame(Reduce(u), u, place);
    TenZero();
    assert Shifted(u, place) == w.coeff as real;
    NearestSigned(Mag(s));
    RealIsInt(Shifted(u, place), w.coeff);
    NumDecimalsIff(u, place);
    ReduceTwice(u);
  }

  lemma ReduceTwice(d: Decimal)
    ensures Reduce(Reduce(d)) == Reduce(d)
  {
    ReduceKeeps(d);
    ReduceFixed(Reduce(d));
  }

  lemma ShiftedValVal(d: Decimal, n: int)
    ensures ShiftedVal(d, n) == Val(d) * Ten(n)
  {
    hide Ten, Shifted, Mag;
    ShiftedMag(d, n);
    assert -Mag(d) * Ten(n) == -(Mag(d) * Ten(n));
  }

  lemma ShiftedValOrder(x: Decimal, y: Decimal, n: int)
    ensures Val(x) <= Val(y) <==> ShiftedVal(x, n) <= ShiftedVal(y, n)
  {
    hide Ten, ShiftedVal, Val;
    ShiftedValVal(x, n);
    ShiftedValVal(y, n);
    OrderScaled(Val(x), Val(y), Ten(n), ShiftedVal(x, n), ShiftedVal(y, n));
  }

  lemma OrderScaled(x: real, y: real, t: real, u: real, v: real)
    requires t > 0.0 && u == x * t && v == y * t
    ensures x <= y <==> u <= v
  {
    if x <= y { MulMonoReal(x, y, t); } else { MulMonoStrict(y, x, t); }
  }

  /** Rounding preserves order. */
  lemma RoundMonotone(x: Decimal, y: Decimal, place: nat)
    requires RoundToDecimalPlace(x, place).Ok? && RoundToDecimalPlace(y, place).Ok? && Val(x) <= Val(y)
    ensures Val(RoundToDecimalPlace(x, place).value) <= Val(RoundToDecimalPlace(y, place).value)
  {
    hide Ten, Nearest, RoundToDecimalPlace, ShiftedVal, Val;
    var u, v := RoundToDecimalPlace(x, place).value, RoundToDecimalPlace(y, place).value;
    RoundIsNearest(x, place);
    RoundIsNearest(y, place);
    ShiftedValOrder(x, y, place);
    NearestMonotone(ShiftedVal(x, place), ShiftedVal(y, place));
    ShiftedValOrder(u, v, place);
  }

  lemma SameShifted(x: Decimal, y: Decimal, n: int)
    requires ShiftedVal(x, n) == ShiftedVal(y, n)
    ensures Val(x) == Val(y)
  {
    ShiftedValOrder(x, y, n);
    ShiftedValOrder(y, x, n);
  }

  lemma ShiftedValWhole(d: Decimal, n: nat)
    ensures IsInt(ShiftedVal(d, n)) <==> NumDecimals(d) <= n
  {
    hide Shifted, NumDecimals;
    NumDecimalsIff(d, n);
    var x := Shifted(d, n);
    if IsInt(x) { RealIsInt(-x, -x.Floor); }
    if IsInt(-x) { RealIsInt(x, -((-x).Floor)); }
  }

  /** Rounding changes the value exactly when there are more decimals than the place. */
  lemma RoundIdentityIff(d: Decimal, place: nat)
    requires RoundToDecimalPlace(d, place).Ok?
    ensures Val(RoundToDecimalPlace(d, place).value) == Val(d) <==> NumDecimals(d) <= place
    ensures NumDecimals(d) <= place ==> RoundToDecimalPlace(d, place).value == Reduce(d)
  {
    hide Ten, Nearest, RoundToDecimalPlace, ShiftedVal, Val, NumDecimals, Reduce, IsInt;
    var r := RoundToDecimalPlace(d, place).value;
    RoundIsNearest(d, place);
    ShiftedValWhole(d, place);
    ShiftedValWhole(r, place);
    ShiftedValVal(d, place);
    ShiftedValVal(r, place);
    if NumDecimals(d) <= place {
      NearestOfInt(ShiftedVal(d, place));
      SameShifted(r, d, place);
      ReduceKeeps(d);
      ReducedUnique(r, Reduce(d));
    } else if Val(r) == Val(d) {
      IsIntEq(ShiftedVal(r, place), ShiftedVal(d, place));
    }
  }

  lemma IsIntEq(x: real, y: real)
    requires IsInt(x) && x == y
    ensures IsInt(y)
  {
  }

  /** Rounding again changes nothing; it fails only for values too large to round at all. */
  lemma RoundIdempotent(d: Decimal, place: nat)
    requires RoundToDecimalPlace(d, place).Ok?
    ensures var r := RoundToDecimalPlace(d, place).value;
            RoundToDecimalPlace(r, place) == if r.exponent + place <= MAX_EXPONENT then Ok(r) else Err(OutOfRange)
  {
    hide RoundToIntegral, Reduce, NumDecimals;
    RoundIsNearest(d, place);
    var r := RoundToDecimalPlace(d, place).value;
    ReduceFixed(r);
    OnPlace(r, place);
    RoundOkIff(r, place);
    if RoundToDecimalPlace(r, place).Ok? { RoundIdentityIff(r, place); }
  }

  /** Rounding any decimal fails exactly when the shifted exponent is above the range, or below it on a value of at
      least a tenth; whether digits are rounded off never matters. */
  lemma RoundOkIff(d: Decimal, place: nat)
    ensures RoundToDecimalPlace(d, place).Ok?
       <==> d.exponent + place <= 100000 && (d.exponent + place >= -100000 || Shifted(d, place) < Ten(-1))
    ensures RoundToDecimalPlace(d, place).Err? ==> RoundToDecimalPlace(d, place) == Err(OutOfRange)
  {
    hide Pow, HalfUp, NumDigits, Ten;
    var s := AddExponent(d, place);
    assert Mag(s) == Shifted(d, place);
    if d.coeff > 0 { LeadingIff(s, -1); } else { OneDigit(); }
  }

  lemma OneDigit()
    ensures NumDigits(0) == 1
  {
  }

  lemma OnPlace(d: Decimal, place: nat)
    requires Reduced(d) && NumDecimals(d) <= place
    ensures d.exponent + place >= 0
  {
    ReduceFixed(d);
  }

  // ---- 100-digit arithmetic ----

  predicate InRange(d: Decimal) {
    -MAX_EXPONENT <= d.exponent + NumDigits(d.coeff) - 1 <= MAX_EXPONENT
  }

  /** Keeps the 100 most significant digits, rounding half up. */
  function FitPrecision(d: Decimal): (r: Decimal) {
    var nd := NumDigits(d.coeff);
    if nd <= PRECISION then d
    else
      var q := HalfUp(d.coeff, Pow(10, nd - PRECISION));
      if q == Pow(10, PRECISION) then Decimal(d.negative, Pow(10, PRECISION - 1), d.exponent + (nd - PRECISION) + 1)
      else Decimal(d.negative, q, d.exponent + (nd - PRECISION))
  }

  function Product(x: Decimal, y: Decimal): (p: Decimal) {
    Decimal(x.negative != y.negative, x.coeff * y.coeff, x.exponent + y.exponent)
  }

  predicate ExponentsInRange(x: Decimal, y: Decimal) {
    -MAX_EXPONENT <= x.exponent <= MAX_EXPONENT && -MAX_EXPONENT <= y.exponent <= MAX_EXPONENT
  }

  function Mul(x: Decimal, y: Decimal): (r: Result<Decimal, DecimalError>) {
    var p := Product(x, y);
    if !ExponentsInRange(x, y) || !InRange(p) || !InRange(FitPrecision(p)) then Err(OutOfRange) else Ok(FitPrecision(p))
  }

  lemma ProductMag(x: Decimal, y: Decimal)
    ensures Mag(Product(x, y)) == Mag(x) * Mag(y)
    ensures Val(Product(x, y)) == Val(x) * Val(y)
  {
    hide Ten;
    TenAdd(x.exponent, y.exponent);
    CastMul(x.coeff, y.coeff, x.coeff as real * (y.coeff as real), y.coeff as real);
    FourProduct(x.coeff as real, y.coeff as real, Ten(x.exponent), Ten(y.exponent));
    SignProduct(Mag(x), Mag(y));
  }

  lemma FourProduct(a: real, b: real, s: real, t: real)
    ensures (a * b) * (s * t) == (a * s) * (b * t)
  {
  }

  lemma SignProduct(a: real, b: real)
    ensures -a * b == -(a * b) && a * -b == -(a * b) && -a * -b == a * b
  {
  }

  /** A product of at most 100 digits is exact. */
  lemma MulExact(x: Decimal, y: Decimal)
    requires x.coeff * y.coeff < Pow(10, PRECISION) && Mul(x, y).Ok?
    ensures Mul(x, y).value == Product(x, y)
  {
    hide Pow, HalfUp;
    NumDigitsIff(x.coeff * y.coeff, PRECISION);
  }

  /** Rounding to 100 digits is exact when all the digits it drops are zeros. */
  lemma FitDivisible(d: Decimal, c: nat, j: nat)
    requires d.coeff > 0 && d.coeff == c * Pow(10, j) && NumDigits(d.coeff) <= PRECISION + j
    ensures Mag(FitPrecision(d)) == Mag(d) && FitPrecision(d).negative == d.negative
  {
    hide Pow, NumDigits, HalfUp, Ten;
    var nd := NumDigits(d.coeff);
    if nd > PRECISION {
      var k := nd - PRECISION;
      var q := c * Pow(10, j - k);
      PowAdd(10, j - k, k);
      MulAssoc(c, Pow(10, j - k), Pow(10, k));
      HalfUpExact(q, d.coeff, Pow(10, k));
      NumDigitsBounds(d.coeff);
      PowAdd(10, PRECISION, k);
      if q >= Pow(10, PRECISION) { MulMono(Pow(10, PRECISION), q, Pow(10, k)); }
      Rescale(q, d.exponent + k, k);
    }
  }

  /** Rounding to 100 digits never lowers the leading position and raises it by one at most. */
  lemma FitLeading(d: Decimal)
    requires d.coeff > 0
    ensures var f := FitPrecision(d);
            && f.coeff > 0
            && d.exponent + NumDigits(d.coeff) <= f.exponent + NumDigits(f.coeff) <= d.exponent + NumDigits(d.coeff) + 1
  {
    hide Pow, NumDigits, HalfUp;
    var nd := NumDigits(d.coeff);
    if nd > PRECISION {
      var k := nd - PRECISION;
      var q := HalfUp(d.coeff, Pow(10, k));
      NumDigitsBounds(d.coeff);
      PowAdd(10, PRECISION - 1, k);
      PowAdd(10, PRECISION, k);
      HalfUpBetween(d.coeff, Pow(10, k), Pow(10, PRECISION - 1), Pow(10, PRECISION));
      PowStrict(10, PRECISION - 1, PRECISION);
      HundredDigits(FitPrecision(d).coeff);
    }
  }

  lemma HalfUpBetween(num: nat, den: nat, lo: nat, hi: nat)
    requires den > 0 && lo * den <= num < hi * den
    ensures lo <= HalfUp(num, den) <= hi
  {
    hide HalfUp;
    var q := HalfUp(num, den);
    HalfUpBounds(num, den);
    NextMultiple(q, den, q * den);
    NextMultiple(hi, den, hi * den);
    if q < lo { MulMono(q + 1, lo, den); }
    if q > hi { MulMono(hi + 1, q, den); }
  }

  lemma NextMultiple(q: nat, den: nat, z: nat)
    requires z == q * den
    ensures (q + 1) * den == z + den
  {
  }

  lemma HundredDigits(q: nat)
    requires Pow(10, PRECISION - 1) <= q < Pow(10, PRECISION)
    ensures NumDigits(q) == PRECISION
  {
    hide Pow, NumDigits;
    NumDigitsIff(q, PRECISION);
    NumDigitsIff(q, PRECISION - 1);
  }

  /** Rounding to 100 digits errs by at most half a unit in the hundredth digit. */
  lemma FitClose(d: Decimal)
    requires d.coeff > 0
    ensures 2.0 * Abs(Mag(FitPrecision(d)) - Mag(d)) <= Ten(d.exponent + NumDigits(d.coeff) - PRECISION)
    ensures FitPrecision(d).negative == d.negative
  {
    hide Ten, Pow, NumDigits, HalfUp;
    var nd := NumDigits(d.coeff);
    if nd > PRECISION {
      var k := nd - PRECISION;
      var p := Pow(10, k);
      var q := HalfUp(d.coeff, p);
      assert Mag(FitPrecision(d)) == (q * p) as real * Ten(d.exponent) by { FitMag(d, k, q); }
      HalfUpBounds(d.coeff, p);
      TenAdd(k, d.exponent);
      TenNat(k);
      CloseScaled(q * p, d.coeff, p, Ten(d.exponent), Mag(FitPrecision(d)), Mag(d), Ten(d.exponent + k));
    }
  }

  lemma FitMag(d: Decimal, k: nat, q: nat)
    requires d.coeff > 0 && NumDigits(d.coeff) == PRECISION + k && k > 0 && q == HalfUp(d.coeff, Pow(10, k))
    ensures Mag(FitPrecision(d)) == (q * Pow(10, k)) as real * Ten(d.exponent)
  {
    hide Ten, Pow, NumDigits, HalfUp;
    Rescale(q, d.exponent + k, k);
    if q == Pow(10, PRECISION) {
      Rescale(Pow(10, PRECISION - 1), d.exponent + k + 1, 1);
      TenTimes(PRECISION - 1);
      TenTimes(0);
      PowZero();
    }
  }

  lemma CloseScaled(a: nat, c: nat, p: nat, t: real, x: real, y: real, b: real)
    requires t > 0.0 && x == a as real * t && y == c as real * t && b == p as real * t
    requires 2 * a <= 2 * c + p < 2 * a + 2 * p
    ensures 2.0 * Abs(x - y) <= b
  {
    WithinScaled(2.0 * (a as real - c as real), p as real, t, 2.0 * (x - y), b);
  }

  lemma WithinScaled(g: real, p: real, t: real, z: real, b: real)
    requires t > 0.0 && z == g * t && b == p * t && -p <= g <= p
    ensures -b <= z <= b
  {
    MulMonoReal(g, p, t);
    MulMonoReal(-p, g, t);
  }

  /** Rounding to 100 digits stays below a power of ten exactly when the value is below it by more than half
      a unit in the hundredth digit. */
  lemma FitBelowIff(d: Decimal, n: int)
    requires d.coeff > 0
    ensures Mag(FitPrecision(d)) < Ten(n) <==> 2.0 * Mag(d) + Ten(n - PRECISION) < 2.0 * Ten(n)
  {
    hide Ten, Mag, FitPrecision, NumDigits;
    var f, l := FitPrecision(d), d.exponent + NumDigits(d.coeff);
    FitLeading(d);
    Leading(d);
    if l < n {
      TenMono(l, n - 1);
      TenMono(n - PRECISION, n - 1);
      TenNext(n - 1);
      LeadingIff(f, n);
    } else if l > n {
      TenMono(n, l - 1);
      LeadingIff(f, n);
    } else {
      FitAtEdge(d, n);
    }
  }

  lemma LeadingIff(d: Decimal, n: int)
    requires d.coeff > 0
    ensures d.exponent + NumDigits(d.coeff) <= n <==> Mag(d) < Ten(n)
  {
    hide Ten, Mag, NumDigits;
    Leading(d);
    var l := d.exponent + NumDigits(d.coeff);
    if l <= n { TenMono(l, n); } else { TenMono(n, l - 1); }
  }

  /** The value whose leading digit is just below the power of ten. */
  lemma FitAtEdge(d: Decimal, n: int)
    requires d.coeff > 0 && d.exponent + NumDigits(d.coeff) == n
    ensures Mag(FitPrecision(d)) < Ten(n) <==> 2.0 * Mag(d) + Ten(n - PRECISION) < 2.0 * Ten(n)
  {
    hide Ten, Pow, NumDigits, HalfUp;
    var nd := NumDigits(d.coeff);
    NumDigitsBounds(d.coeff);
    TenAdd(nd, d.exponent);
    TenNat(nd);
    var t := Ten(d.exponent);
    if nd <= PRECISION {
      TenMono(n - PRECISION, d.exponent);
      BelowByOne(d.coeff, Pow(10, nd), t, Mag(d), Ten(n));
    } else {
      var k := nd - PRECISION;
      TenAdd(k, d.exponent);
      TenNat(k);
      PowAdd(10, k, PRECISION);
      HalfUpBelowIff(d.coeff, Pow(10, k), Pow(10, PRECISION), Pow(10, nd));
      EdgeScaled(d.coeff, Pow(10, k), Pow(10, nd), t, Mag(d), Ten(n - PRECISION), Ten(n));
      CarryAtEdge(d, n);
    }
  }

  lemma HalfUpBelowIff(num: nat, den: nat, top: nat, z: nat)
    requires den > 0 && z == den * top
    ensures HalfUp(num, den) < top <==> 2 * num + den < 2 * z
  {
    DivBelow(2 * num + den, 2 * den, top);
    MulAssoc(2, den, top);
  }

  lemma EdgeScaled(c: nat, p: nat, z: nat, t: real, x: real, y: real, top: real)
    requires t > 0.0 && x == c as real * t && y == p as real * t && top == z as real * t
    ensures 2 * c + p < 2 * z <==> 2.0 * x + y < 2.0 * top
  {
    var a, b := 2 * c + p, 2 * z;
    assert 2.0 * x + y == a as real * t && 2.0 * top == b as real * t;
    ScaleOrders(a, b, t, 2.0 * x + y, 2.0 * top);
  }

  lemma BelowByOne(c: nat, p: nat, t: real, x: real, y: real)
    requires c < p && t > 0.0 && x == c as real * t && y == p as real * t
    ensures x + t <= y
  {
    Gap(c, p, t, x, y);
  }

  /** Only a carry through all hundred digits reaches the power of ten. */
  lemma CarryAtEdge(d: Decimal, n: int)
    requires d.coeff > 0 && d.exponent + NumDigits(d.coeff) == n && NumDigits(d.coeff) > PRECISION
    ensures Mag(FitPrecision(d)) < Ten(n) <==> HalfUp(d.coeff, Pow(10, NumDigits(d.coeff) - PRECISION)) < Pow(10, PRECISION)
  {
    hide Ten, Pow, NumDigits, HalfUp, Mag;
    var k := NumDigits(d.coeff) - PRECISION;
    var q, f := HalfUp(d.coeff, Pow(10, k)), FitPrecision(d);
    NumDigitsBounds(d.coeff);
    PowAdd(10, PRECISION - 1, k);
    PowAdd(10, PRECISION, k);
    HalfUpBetween(d.coeff, Pow(10, k), Pow(10, PRECISION - 1), Pow(10, PRECISION));
    PowStrict(10, PRECISION - 1, PRECISION);
    HundredDigits(f.coeff);
    LeadingIff(f, n);
  }

  /** Rounding a product only drops digits, so it never adds decimals. */
  lemma MulExponent(x: Decimal, y: Decimal)
    requires Mul(x, y).Ok?
    ensures Mul(x, y).value.exponent >= x.exponent + y.exponent
    ensures Mul(x, y).value.negative == (x.negative != y.negative)
  {
    hide Pow, HalfUp;
  }

  /** Bringing both coefficients to the same number of digits, then the dividend at least the divisor. */
  function Align(a: nat, b: nat): (r: (nat, nat, int))
    ensures b > 0 ==> r.1 > 0
  {
    var diff := NumDigits(a) - NumDigits(b);
    var dividend := if diff < 0 then a * Pow(10, -diff) else a;
    var divisor := if diff > 0 then b * Pow(10, diff) else b;
    if dividend < divisor then (10 * dividend, divisor, 1 - diff) else (dividend, divisor, -diff)
  }

  /** The quotient of two non-zero decimals to exactly 100 digits, rounded half up. */
  function Quotient(x: Decimal, y: Decimal): (q: Decimal)
    requires x.coeff > 0 && y.coeff > 0
  {
    var (dividend, divisor, adjust) := Align(x.coeff, y.coeff);
    Decimal(x.negative != y.negative,
            HalfUp(dividend * Pow(10, PRECISION - 1), divisor),
            x.exponent - y.exponent - adjust - (PRECISION - 1))
  }

  function Quo(x: Decimal, y: Decimal): (r: Result<Decimal, DecimalError>) {
    if y.coeff == 0 then Err(DivisionByZero)
    else if x.coeff == 0 then Ok(Decimal(x.negative != y.negative, 0, 0))
    else
      var q := Quotient(x, y);
      if !(-MAX_EXPONENT <= x.exponent - y.exponent <= MAX_EXPONENT) || !InRange(q) then Err(OutOfRange) else Ok(q)
  }

  /** Alignment scales both sides by powers of ten and leaves a one-digit quotient. */
  lemma AlignScales(a: nat, b: nat) returns (s: nat, t: nat)
    requires a > 0 && b > 0
    ensures Align(a, b) == (a * Pow(10, s), b * Pow(10, t), s - t)
    ensures Align(a, b).1 <= Align(a, b).0 < 10 * Align(a, b).1
  {
    hide Pow, NumDigits;
    var m, n := NumDigits(a), NumDigits(b);
    NumDigitsBounds(a);
    NumDigitsBounds(b);
    s, t := if m < n then n - m else 0, if m > n then m - n else 0;
    ScaledDigits(a, m, s);
    ScaledDigits(b, n, t);
    PowZero();
    TenTimes(m + s - 1);
    if Align(a, b).0 != a * Pow(10, s) {
      TenTimes(s);
      TenFold(a, Pow(10, s));
      s := s + 1;
    }
  }

  lemma PowZero()
    ensures Pow(10, 0) == 1
  {
  }

  lemma TenTimes(n: nat)
    ensures Pow(10, n + 1) == 10 * Pow(10, n)
  {
  }

  lemma ScaledDigits(c: nat, m: nat, s: nat)
    requires m > 0 && Pow(10, m - 1) <= c < Pow(10, m)
    ensures Pow(10, m + s - 1) <= c * Pow(10, s) < Pow(10, m + s)
  {
    hide Pow;
    PowAdd(10, m - 1, s);
    PowAdd(10, m, s);
    MulMono(Pow(10, m - 1), c, Pow(10, s));
    MulMono(c + 1, Pow(10, m), Pow(10, s));
  }

  /** One unit in the last place of the quotient, times the divisor. */
  ghost function LastPlace(x: Decimal, y: Decimal): (r: real)
    requires x.coeff > 0 && y.coeff > 0
    ensures r > 0.0
  {
    hide Ten;
    PositiveMag(y);
    MulMonoStrict(0.0, Mag(y), Ten(Quotient(x, y).exponent));
    Mag(y) * Ten(Quotient(x, y).exponent)
  }

  /** The quotient times the divisor misses the dividend by at most half a unit in the last place, and
      the quotient has 100 significant digits. */
  lemma QuotientBounds(x: Decimal, y: Decimal)
    requires x.coeff > 0 && y.coeff > 0
    ensures var q, step := Quotient(x, y), LastPlace(x, y);
            && Mag(q) * Mag(y) == q.coeff as real * step
            && -step <= 2.0 * (q.coeff as real * step - Mag(x)) <= step
            && Ten(PRECISION - 1) * step <= Mag(x) < Ten(PRECISION) * step
  {
    hide Ten, Pow, HalfUp, Align;
    var q, step := Quotient(x, y), LastPlace(x, y);
    var num, den, u := QuotientParts(x, y);
    HalfUpBounds(num, den);
    QuotientScaled(q.coeff, num, den, u, Mag(x), step);
    TenNat(PRECISION - 1);
    TenNat(PRECISION);
    DigitsScaled(num, den, Pow(10, PRECISION - 1), Pow(10, PRECISION), u, Mag(x), step);
    ThreeProduct(q.coeff as real, Ten(q.exponent), Mag(y));
  }

  /** The integer division behind the quotient, and the common scale of its two sides. */
  lemma QuotientParts(x: Decimal, y: Decimal) returns (num: nat, den: nat, u: real)
    requires x.coeff > 0 && y.coeff > 0
    ensures den > 0 && u > 0.0 && Quotient(x, y).coeff == HalfUp(num, den)
    ensures Mag(x) == num as real * u && LastPlace(x, y) == den as real * u
    ensures Pow(10, PRECISION - 1) * den <= num < Pow(10, PRECISION) * den
  {
    hide Ten, Pow, HalfUp, Align, Mag;
    var s, t := AlignScales(x.coeff, y.coeff);
    var k := PRECISION - 1;
    num, den, u := Align(x.coeff, y.coeff).0 * Pow(10, k), Align(x.coeff, y.coeff).1, Ten(x.exponent - s - k);
    ScaledDividend(x, s, k);
    ScaledDivisor(y, Quotient(x, y).exponent, t);
    MulMono(den, Align(x.coeff, y.coeff).0, Pow(10, k));
    MulMono(Align(x.coeff, y.coeff).0 + 1, 10 * den, Pow(10, k));
    TenTimes(k);
    TenFold(den, Pow(10, k));
  }

  lemma ScaledDividend(x: Decimal, s: nat, k: nat)
    ensures Mag(x) == (x.coeff * Pow(10, s) * Pow(10, k)) as real * Ten(x.exponent - s - k)
  {
    hide Ten, Pow;
    Rescale(x.coeff, x.exponent, s + k);
    PowAdd(10, s, k);
    MulAssoc(x.coeff, Pow(10, s), Pow(10, k));
  }

  lemma ScaledDivisor(y: Decimal, e: int, t: nat)
    ensures Mag(y) * Ten(e) == (y.coeff * Pow(10, t)) as real * Ten(y.exponent + e - t)
  {
    hide Ten, Pow;
    ShiftedMag(y, e);
    Rescale(y.coeff, y.exponent + e, t);
  }

  lemma QuotientScaled(q: nat, num: nat, den: nat, u: real, n: real, d: real)
    requires 2 * (q * den) <= 2 * num + den < 2 * (q * den) + 2 * den
    requires u > 0.0 && n == num as real * u && d == den as real * u
    ensures -d <= 2.0 * (q as real * d - n) <= d
  {
    var z := q * den;
    assert q as real * d == z as real * u by {
      assert z as real == q as real * (den as real);
      MulAssocReal(q as real, den as real, u);
    }
    MulMonoReal(2.0 * (z as real), 2.0 * (num as real) + (den as real), u);
    MulMonoReal(2.0 * (num as real) + (den as real), 2.0 * (z as real) + 2.0 * (den as real), u);
  }

  lemma DigitsScaled(num: nat, den: nat, p: nat, p10: nat, u: real, n: real, d: real)
    requires p * den <= num < p10 * den && u > 0.0 && n == num as real * u && d == den as real * u
    ensures p as real * d <= n < p10 as real * d
  {
    MulMonoReal((p * den) as real, num as real, u);
    MulMonoStrict(num as real, (p10 * den) as real, u);
    assert (p * den) as real * u == p as real * d by { MulAssocReal(p as real, den as real, u); }
    assert (p10 * den) as real * u == p10 as real * d by { MulAssocReal(p10 as real, den as real, u); }
  }

  lemma ThreeProduct(a: real, b: real, c: real)
    ensures (a * b) * c == a * (c * b)
  {
  }

  lemma QuotientCoeff(x: Decimal, y: Decimal, z: Decimal)
    requires x.coeff > 0 && y.coeff > 0 && z.coeff < Pow(10, PRECISION) && Mag(z) * Mag(y) == Mag(x)
    ensures var q := Quotient(x, y);
            q.exponent <= z.exponent && q.coeff == z.coeff * Pow(10, z.exponent - q.exponent)
  {
    hide Ten, Pow, Quotient, LastPlace, Mag;
    QuotientBounds(x, y);
    var q, step := Quotient(x, y), LastPlace(x, y);
    var m := z.exponent - q.exponent;
    var f := z.coeff as real * Ten(m);
    assert f * step == Mag(x) by { TrueQuotient(x, y, z); }
    assert m >= 0 by {
      if m < 0 {
        BelowTen(z.coeff, m);
        MulMonoStrict(f, Ten(PRECISION - 1), step);
      }
    }
    TenNat(m);
    CastMul(z.coeff, Pow(10, m), f, Ten(m));
    WithinHalf(q.coeff, z.coeff * Pow(10, m), step, Mag(x));
  }

  /** If some decimal of at most 100 digits is the true quotient, the quotient is exactly it. */
  lemma QuotientExact(x: Decimal, y: Decimal, z: Decimal)
    requires x.coeff > 0 && y.coeff > 0 && z.coeff < Pow(10, PRECISION) && Mag(z) * Mag(y) == Mag(x)
    ensures Mag(Quotient(x, y)) == Mag(z)
  {
    hide Ten, Pow, Quotient;
    QuotientCoeff(x, y, z);
    Rescale(z.coeff, z.exponent, z.exponent - Quotient(x, y).exponent);
  }

  lemma TrueQuotient(x: Decimal, y: Decimal, z: Decimal)
    requires x.coeff > 0 && y.coeff > 0 && Mag(z) * Mag(y) == Mag(x)
    ensures z.coeff as real * Ten(z.exponent - Quotient(x, y).exponent) * LastPlace(x, y) == Mag(x)
  {
    hide Ten, Quotient;
    var e := Quotient(x, y).exponent;
    TenAdd(z.exponent - e, e);
    Regroup4(z.coeff as real, Ten(z.exponent - e), Mag(y), Ten(e), Ten(z.exponent));
  }

  lemma Regroup4(c: real, s: real, y: real, t: real, st: real)
    requires st == s * t
    ensures c * s * (y * t) == c * st * y
  {
    assert c * s * (y * t) == c * (s * t) * y;
  }

  lemma BelowTen(c: nat, m: int)
    requires c < Pow(10, PRECISION) && m < 0
    ensures c as real * Ten(m) < Ten(PRECISION - 1)
  {
    hide Ten, Pow;
    TenMono(m, -1);
    TenNat(PRECISION);
    TenAdd(PRECISION, -1);
    MulMonoReal(Ten(m), Ten(-1), c as real);
    MulMonoStrict(c as real, Ten(PRECISION), Ten(-1));
  }

  lemma WithinHalf(q: nat, k: nat, step: real, n: real)
    requires step > 0.0 && k as real * step == n && -step <= 2.0 * (q as real * step - n) <= step
    ensures q == k
  {
    if q > k {
      Gap(k, q, step, n, q as real * step);
    } else if q < k {
      Gap(q, k, step, q as real * step, n);
    }
  }

  lemma Gap(i: nat, j: nat, step: real, a: real, b: real)
    requires i < j && step > 0.0 && a == i as real * step && b == j as real * step
    ensures a + step <= b
  {
    var d := j - i;
    assert b - a == d as real * step;
    MulMonoReal(1.0, d as real, step);
  }

  /** Decimals of equal magnitude have the same leading position. */
  lemma SameLeading(x: Decimal, y: Decimal)
    requires x.coeff > 0 && y.coeff > 0 && Mag(x) == Mag(y)
    ensures x.exponent + NumDigits(x.coeff) == y.exponent + NumDigits(y.coeff)
  {
    hide Ten, NumDigits, Mag;
    Leading(x);
    Leading(y);
    var i, j := x.exponent + NumDigits(x.coeff), y.exponent + NumDigits(y.coeff);
    if i < j { TenMono(i, j - 1); } else if j < i { TenMono(j, i - 1); }
  }

  lemma Leading(x: Decimal)
    requires x.coeff > 0
    ensures Ten(x.exponent + NumDigits(x.coeff) - 1) <= Mag(x) < Ten(x.exponent + NumDigits(x.coeff))
  {
    hide Ten, Pow, NumDigits;
    var n := NumDigits(x.coeff);
    NumDigitsBounds(x.coeff);
    TenNat(n);
    TenNat(n - 1);
    TenAdd(n, x.exponent);
    TenAdd(n - 1, x.exponent);
    BetweenTens(Ten(n - 1), x.coeff as real, Ten(n), Ten(x.exponent), Ten(n - 1 + x.exponent), Mag(x), Ten(n + x.exponent));
  }

  lemma BetweenTens(lo: real, c: real, hi: real, t: real, lo': real, c': real, hi': real)
    requires lo <= c < hi && t > 0.0 && lo' == lo * t && c' == c * t && hi' == hi * t
    ensures lo' <= c' < hi'
  {
    MulMonoReal(lo, c, t);
    MulMonoStrict(c, hi, t);
  }

  // ---- the size of a quotient ----

  lemma ShiftedAdd(d: Decimal, n: int, k: int)
    ensures Shifted(d, n + k) == Shifted(d, n) * Ten(k)
  {
    hide Ten;
    TenAdd(d.exponent + n, k);
    MulAssocReal(d.coeff as real, Ten(d.exponent + n), Ten(k));
  }

  lemma ShiftedMono(d: Decimal, m: int, n: int)
    requires m <= n
    ensures Shifted(d, m) <= Shifted(d, n)
  {
    hide Ten;
    TenMono(d.exponent + m, d.exponent + n);
    MulMonoReal(Ten(d.exponent + m), Ten(d.exponent + n), d.coeff as real);
  }

  /** The quotient's exponent places the dividend among the divisor's multiples by powers of ten. */
  lemma QuotientPlace(x: Decimal, y: Decimal)
    requires x.coeff > 0 && y.coeff > 0
    ensures var e := Quotient(x, y).exponent;
            LastPlace(x, y) == Shifted(y, e) && Shifted(y, e + (PRECISION - 1)) <= Mag(x) < Shifted(y, e + PRECISION)
  {
    hide Ten, Mag, Shifted, Quotient;
    var e := Quotient(x, y).exponent;
    QuotientBounds(x, y);
    ShiftedMag(y, e);
    ShiftedAdd(y, e, PRECISION - 1);
    ShiftedAdd(y, e, PRECISION);
  }

  /** The rounded quotient is below a power of ten exactly when the true one is, by more than half a unit in the
      hundredth digit. */
  lemma QuotientBelowIff(x: Decimal, y: Decimal, n: int)
    requires x.coeff > 0 && y.coeff > 0
    ensures Mag(Quotient(x, y)) < Ten(n) <==> 2.0 * Mag(x) + Shifted(y, n - PRECISION) < 2.0 * Shifted(y, n)
  {
    hide Ten, Pow, Mag, Shifted, Quotient, HalfUp, LastPlace, NumDigits;
    var q := Quotient(x, y);
    QuotientPlace(x, y);
    QuotientDigits(x, y);
    var e := q.exponent;
    if e + PRECISION < n {
      ShiftedMono(y, e + PRECISION, n - 1);
      ShiftedMono(y, n - PRECISION, n - 1);
      ShiftedAdd(y, n - 1, 1);
      TenNext(0);
      TenZero();
      LeadingIff(q, n);
    } else if e + PRECISION > n {
      ShiftedMono(y, n, e + (PRECISION - 1));
      PositiveShift(y, n - PRECISION);
      LeadingIff(q, n);
    } else {
      QuotientAtEdge(x, y);
    }
  }

  lemma PositiveShift(y: Decimal, n: int)
    requires y.coeff > 0
    ensures Shifted(y, n) > 0.0
  {
    hide Ten;
    MulMonoStrict(0.0, y.coeff as real, Ten(y.exponent + n));
  }

  /** A quotient has 100 digits, or 101 after a carry through all of them. */
  lemma QuotientDigits(x: Decimal, y: Decimal)
    requires x.coeff > 0 && y.coeff > 0
    ensures var q := Quotient(x, y);
            q.coeff > 0 && PRECISION <= NumDigits(q.coeff) <= PRECISION + 1 && (NumDigits(q.coeff) == PRECISION + 1 <==> q.coeff == Pow(10, PRECISION))
  {
    hide Ten, Pow, Mag, Quotient, HalfUp, LastPlace, NumDigits;
    var q := Quotient(x, y);
    var num, den, u := QuotientParts(x, y);
    HalfUpBetween(num, den, Pow(10, PRECISION - 1), Pow(10, PRECISION));
    NumDigitsIff(q.coeff, PRECISION - 1);
    NumDigitsIff(q.coeff, PRECISION);
    NumDigitsIff(q.coeff, PRECISION + 1);
    PowStrict(10, PRECISION, PRECISION + 1);
  }

  lemma QuotientAtEdge(x: Decimal, y: Decimal)
    requires x.coeff > 0 && y.coeff > 0
    ensures var q := Quotient(x, y);
            var n := q.exponent + PRECISION;
            Mag(q) < Ten(n) <==> 2.0 * Mag(x) + Shifted(y, n - PRECISION) < 2.0 * Shifted(y, n)
  {
    hide Ten, Pow, Mag, Shifted, Quotient, HalfUp, LastPlace, NumDigits;
    var q := Quotient(x, y);
    var n := q.exponent + PRECISION;
    QuotientPlace(x, y);
    QuotientDigits(x, y);
    LeadingIff(q, n);
    var num, den, u := QuotientParts(x, y);
    HalfUpBetween(num, den, Pow(10, PRECISION - 1), Pow(10, PRECISION));
    HalfUpBelowIff(num, den, Pow(10, PRECISION), den * Pow(10, PRECISION));
    ShiftedAdd(y, q.exponent, PRECISION);
    TenNat(PRECISION);
    EdgeTop(den, Pow(10, PRECISION), u, LastPlace(x, y), Ten(PRECISION), Shifted(y, n));
    EdgeScaled(num, den, den * Pow(10, PRECISION), u, Mag(x), LastPlace(x, y), Shifted(y, n));
  }

  lemma EdgeTop(den: nat, p: nat, u: real, step: real, t: real, top: real)
    requires step == den as real * u && t == p as real && top == step * t
    ensures top == (den * p) as real * u
  {
    assert (den * p) as real == den as real * (p as real);
  }
}
