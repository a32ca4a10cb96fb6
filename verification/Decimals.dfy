/** Decimal numbers as `apd.Decimal` stores them: sign, coefficient and exponent. Only finite values;
    every NaN or infinity the arithmetic could produce is reported as an error by the traps in use. */
module Decimals {
  import opened Numerals

  datatype Decimal = Decimal(negative: bool, coeff: nat, exponent: int)

  const Zero := Decimal(false, 0, 0)

  // ---- powers of ten and values ----

  ghost function Ten(e: int): (r: real)
    ensures r > 0.0
  {
    if e >= 0 then Pow(10, e) as real else 1.0 / (Pow(10, -e) as real)
  }

  ghost function Mag(d: Decimal): (r: real)
    ensures r >= 0.0
  {
    d.coeff as real * Ten(d.exponent)
  }

  ghost function Val(d: Decimal): (r: real) {
    if d.negative then -Mag(d) else Mag(d)
  }

  lemma TenZero()
    ensures Ten(0) == 1.0
  {
  }

  lemma TenNat(n: nat)
    ensures Ten(n) == Pow(10, n) as real
  {
  }

  lemma {:induction false} TenNext(e: int)
    ensures Ten(e + 1) == 10.0 * Ten(e)
  {
    if e < 0 {
      assert Pow(10, -e) == 10 * Pow(10, -e - 1);
    }
  }

  lemma {:induction false} TenAddNat(e: int, n: nat)
    ensures Ten(e + n) == Ten(e) * Ten(n)
  {
    hide Ten;
    if n == 0 {
      TenZero();
    } else {
      TenAddNat(e, n - 1);
      TenNext(e + n - 1);
      TenNext(n - 1);
    }
  }

  lemma TenAdd(a: int, b: int)
    ensures Ten(a + b) == Ten(a) * Ten(b)
  {
    hide Ten;
    if b >= 0 {
      TenAddNat(a, b);
    } else {
      TenAddNat(a + b, -b);
      TenAddNat(b, -b);
      TenZero();
      CancelTen(Ten(a + b), Ten(-b), Ten(b), Ten(a));
    }
  }

  lemma CancelTen(x: real, y: real, z: real, w: real)
    requires x * y == w && z * y == 1.0
    ensures x == w * z
  {
    assert x == x * (z * y);
    assert x * (z * y) == (x * y) * z;
  }

  lemma TenMono(a: int, b: int)
    requires a <= b
    ensures Ten(a) <= Ten(b)
  {
    hide Ten;
    TenAddNat(a, b - a);
    TenNat(b - a);
    GrowReal(Ten(a), Ten(b - a), Ten(b));
  }

  lemma GrowReal(x: real, y: real, z: real)
    requires z == x * y && 1.0 <= y && 0.0 < x
    ensures x <= z
  {
    MulMonoReal(1.0, y, x);
  }

  lemma MulMonoReal(x: real, y: real, z: real)
    requires x <= y && z >= 0.0
    ensures x * z <= y * z
  {
  }

  lemma MulMonoStrict(x: real, y: real, z: real)
    requires x < y && z > 0.0
    ensures x * z < y * z
  {
  }

  // ---- integers among the reals ----

  ghost predicate IsInt(x: real) {
    x == x.Floor as real
  }

  /** An integer strictly between -1 and 1 is zero. */
  lemma SmallInt(x: real, y: real)
    requires IsInt(x) && IsInt(y) && -1.0 < x - y < 1.0
    ensures x == y
  {
    var d := x.Floor - y.Floor;
    assert d as real == x - y;
  }

  // ---- shifting and reducing ----

  /** c * 10^e rewritten with a smaller exponent. */
  lemma Rescale(c: nat, e: int, n: nat)
    ensures c as real * Ten(e) == (c * Pow(10, n)) as real * Ten(e - n)
  {
    hide Ten;
    TenAddNat(e - n, n);
    TenNat(n);
    RegroupReal(c as real, Ten(e - n), Pow(10, n) as real);
  }

  lemma RegroupReal(x: real, y: real, z: real)
    ensures x * (y * z) == (x * z) * y
  {
  }

  /** `Reduce` moves trailing zeros of the coefficient into the exponent; zero becomes plain zero. */
  function Reduce(d: Decimal): (r: Decimal)
    decreases d.coeff
  {
    if d.coeff == 0 then Zero
    else if d.coeff % 10 == 0 then Reduce(Decimal(d.negative, d.coeff / 10, d.exponent + 1))
    else d
  }

  predicate Reduced(d: Decimal) {
    d == Zero || d.coeff % 10 != 0
  }

  /** Only the representation changes, never the value. */
  lemma {:induction false} ReduceKeeps(d: Decimal)
    ensures Val(Reduce(d)) == Val(d) && Mag(Reduce(d)) == Mag(d)
    ensures Reduced(Reduce(d))
    ensures Reduce(d).negative == (d.negative && d.coeff != 0)
    ensures d.coeff != 0 ==> Reduce(d).coeff != 0 && Reduce(d).exponent >= d.exponent && Reduce(d).coeff <= d.coeff
    decreases d.coeff
  {
    hide Ten;
    if d.coeff != 0 && d.coeff % 10 == 0 {
      var c := Decimal(d.negative, d.coeff / 10, d.exponent + 1);
      ReduceKeeps(c);
      TenNext(d.exponent);
      assert Mag(c) == Mag(d) by { ShiftOne(d.coeff / 10, Ten(d.exponent)); }
    }
  }

  lemma ShiftOne(c: nat, t: real)
    ensures c as real * (10.0 * t) == (10 * c) as real * t
  {
  }

  lemma ReduceZeroIff(d: Decimal)
    ensures Reduce(d).coeff == 0 <==> d.coeff == 0
  {
    ReduceKeeps(d);
  }

  lemma ReduceFixed(d: Decimal)
    requires Reduced(d)
    ensures Reduce(d) == d
  {
  }

  /** Equal magnitudes written without trailing zeros are the same coefficient and exponent. */
  lemma ReducedUnique(x: Decimal, y: Decimal)
    requires Reduced(x) && Reduced(y) && Val(x) == Val(y)
    ensures x == y
  {
    hide Ten;
    if x.coeff == 0 || y.coeff == 0 {
      ZeroMag(x);
      ZeroMag(y);
    } else {
      PositiveMag(x);
      PositiveMag(y);
      if x.exponent <= y.exponent { SameExponent(x, y); } else { SameExponent(y, x); }
    }
  }

  /** Reducing splits off exactly a power of ten. */
  lemma {:induction false} ReduceCoeff(d: Decimal)
    requires d.coeff > 0
    ensures Reduce(d).exponent >= d.exponent
    ensures d.coeff == Reduce(d).coeff * Pow(10, Reduce(d).exponent - d.exponent)
    decreases d.coeff
  {
    if d.coeff % 10 == 0 {
      var c := Decimal(d.negative, d.coeff / 10, d.exponent + 1);
      ReduceCoeff(c);
      TenFold(Reduce(c).coeff, Pow(10, Reduce(c).exponent - c.exponent));
    } else {
      assert Pow(10, 0) == 1;
    }
  }

  lemma ZeroMag(d: Decimal)
    ensures Mag(d) == 0.0 <==> d.coeff == 0
  {
    if d.coeff > 0 { PositiveMag(d); }
  }

  lemma PositiveMag(d: Decimal)
    requires d.coeff > 0
    ensures Mag(d) > 0.0
  {
    hide Ten;
    MulMonoStrict(0.0, d.coeff as real, Ten(d.exponent));
  }

  lemma SameExponent(x: Decimal, y: Decimal)
    requires x.coeff > 0 && y.coeff > 0 && x.coeff % 10 != 0 && Mag(x) == Mag(y) && x.exponent <= y.exponent
    ensures x.coeff == y.coeff && x.exponent == y.exponent
  {
    hide Ten;
    var n := y.exponent - x.exponent;
    var b := y.coeff * Pow(10, n);
    assert Mag(y) == b as real * Ten(x.exponent) by {
      Rescale(y.coeff, y.exponent, n);
      assert y.exponent - n == x.exponent;
    }
    CancelScale(x.coeff, b, Ten(x.exponent), Mag(x));
    if n > 0 {
      TenFold(y.coeff, Pow(10, n - 1));
    }
  }

  lemma TenFold(a: int, b: int)
    ensures a * (10 * b) == 10 * (a * b)
  {
  }

  lemma CancelScale(a: int, b: int, t: real, z: real)
    requires t > 0.0 && z == a as real * t && z == b as real * t
    ensures a == b
  {
    if a < b { MulMonoStrict(a as real, b as real, t); } else if b < a { MulMonoStrict(b as real, a as real, t); }
  }

  /** Digits needed after the decimal point. */
  function NumDecimals(d: Decimal): (n: nat) {
    var r := Reduce(d);
    if r.exponent >= 0 then 0 else -r.exponent
  }

  /** The magnitude times 10^n. */
  ghost function Shifted(d: Decimal, n: int): (r: real) {
    d.coeff as real * Ten(d.exponent + n)
  }

  lemma ShiftedMag(d: Decimal, n: int)
    ensures Shifted(d, n) == Mag(d) * Ten(n)
  {
    hide Ten;
    TenAdd(d.exponent, n);
    MulAssocReal(d.coeff as real, Ten(d.exponent), Ten(n));
  }

  lemma MulAssocReal(x: real, y: real, z: real)
    ensures x * y * z == x * (y * z)
  {
  }

  lemma ShiftedSame(d: Decimal, e: Decimal, n: int)
    requires Mag(d) == Mag(e)
    ensures Shifted(d, n) == Shifted(e, n)
  {
    hide Ten, Mag, Shifted;
    ShiftedMag(d, n);
    ShiftedMag(e, n);
  }

  lemma ShiftedWhole(d: Decimal, n: int)
    requires d.exponent + n >= 0
    ensures IsInt(Shifted(d, n)) && Shifted(d, n) == (d.coeff * Pow(10, d.exponent + n)) as real
  {
    hide Ten, IsInt;
    var p := Pow(10, d.exponent + n);
    TenNat(d.exponent + n);
    CastMul(d.coeff, p, Shifted(d, n), Ten(d.exponent + n));
    RealIsInt(Shifted(d, n), d.coeff * p);
  }

  lemma CastMul(c: int, p: int, x: real, t: real)
    requires x == c as real * t && t == p as real
    ensures x == (c * p) as real
  {
  }

  lemma RealIsInt(x: real, k: int)
    requires x == k as real
    ensures IsInt(x)
  {
  }

  /** A coefficient that does not end in zero is not whole while its exponent is negative. */
  lemma ShiftedNotWhole(d: Decimal, n: int)
    requires d.coeff % 10 != 0 && d.exponent + n < 0
    ensures !IsInt(Shifted(d, n))
  {
    hide Ten;
    var m := -(d.exponent + n);
    var x := Shifted(d, n);
    if IsInt(x) {
      var k := x.Floor;
      TenAddNat(-m, m);
      TenZero();
      TenNat(m);
      UnshiftInt(d.coeff, k, Ten(-m), Pow(10, m));
      TenFold(k, Pow(10, m - 1));
    }
  }

  lemma UnshiftInt(c: nat, k: int, t: real, p: nat)
    requires k as real == c as real * t && t * (p as real) == 1.0
    ensures c == k * p
  {
    assert (k * p) as real == c as real * t * (p as real);
    assert c as real * t * (p as real) == c as real * (t * (p as real));
  }

  /** A decimal has at most n decimals exactly when n shifts make it whole. */
  lemma NumDecimalsIff(d: Decimal, n: nat)
    ensures NumDecimals(d) <= n <==> IsInt(Shifted(d, n))
  {
    hide Ten, IsInt, Reduce, Shifted;
    ReduceKeeps(d);
    var r := Reduce(d);
    ShiftedSame(d, r, n);
    if r.exponent + n >= 0 { ShiftedWhole(r, n); } else { ShiftedNotWhole(r, n); }
  }

  // ---- comparing ----

  /** `Cmp` brings both coefficients to the smaller exponent. */
  function Scaled(d: Decimal, e: int): (n: int)
    requires e <= d.exponent
  {
    var m := d.coeff * Pow(10, d.exponent - e);
    if d.negative then -m else m
  }

  function Cmp(x: Decimal, y: Decimal): (c: int) {
    var e := if x.exponent < y.exponent then x.exponent else y.exponent;
    var a, b := Scaled(x, e), Scaled(y, e);
    if a < b then -1 else if a == b then 0 else 1
  }

  lemma ScaledValue(d: Decimal, e: int)
    requires e <= d.exponent
    ensures Val(d) == Scaled(d, e) as real * Ten(e)
  {
    hide Ten;
    Rescale(d.coeff, d.exponent, d.exponent - e);
  }

  lemma CmpOrders(x: Decimal, y: Decimal)
    ensures Cmp(x, y) < 0 <==> Val(x) < Val(y)
    ensures Cmp(x, y) == 0 <==> Val(x) == Val(y)
  {
    hide Ten, Scaled, Val, Pow;
    var e := if x.exponent < y.exponent then x.exponent else y.exponent;
    ScaledValue(x, e);
    ScaledValue(y, e);
    ScaleOrders(Scaled(x, e), Scaled(y, e), Ten(e), Val(x), Val(y));
  }

  lemma ScaleOrders(a: int, b: int, t: real, x: real, y: real)
    requires t > 0.0 && x == a as real * t && y == b as real * t
    ensures a < b <==> x < y
    ensures a == b <==> x == y
  {
    if a < b { MulMonoStrict(a as real, b as real, t); } else if b < a { MulMonoStrict(b as real, a as real, t); }
  }
}
