/** Positional numerals of any base, most significant digit first. `Minimal` has no leading zero
    and is empty for zero, as `big.Int.Bytes` is; `Fixed` has a given width. */
module Numerals {

  function Pow(b: nat, n: nat): (p: nat)
    ensures b > 0 ==> p > 0
  {
    if n == 0 then 1 else b * Pow(b, n - 1)
  }

  lemma {:induction false} PowAdd(b: nat, m: nat, n: nat)
    ensures Pow(b, m + n) == Pow(b, m) * Pow(b, n)
  {
    if m > 0 {
      PowAdd(b, m - 1, n);
      MulAssoc(b, Pow(b, m - 1), Pow(b, n));
    }
  }

  lemma {:induction false} PowMono(b: nat, m: nat, n: nat)
    requires b > 0 && m <= n
    ensures Pow(b, m) <= Pow(b, n)
  {
    if m < n {
      PowMono(b, m, n - 1);
      MulMono(1, b, Pow(b, n - 1));
    }
  }

  lemma {:induction false} PowStrict(b: nat, m: nat, n: nat)
    requires b > 1 && m < n
    ensures Pow(b, m) < Pow(b, n)
  {
    PowMono(b, m, n - 1);
    MulMono(2, b, Pow(b, n - 1));
  }

  lemma MulAssoc(x: int, y: int, z: int)
    ensures x * y * z == x * (y * z)
  {
  }

  lemma MulMono(x: int, y: int, z: int)
    requires x <= y && 0 <= z
    ensures x * z <= y * z
  {
  }

  /** A quotient and remainder in range are the only ones. */
  lemma DivModUnique(v: int, b: int, q: int, r: int)
    requires b > 0 && v == q * b + r && 0 <= r < b
    ensures v / b == q && v % b == r
  {
    var d := v / b - q;
    assert v == (v / b) * b + v % b;
    assert d * b == r - v % b;
    if d >= 1 { MulMono(1, d, b); } else if d <= -1 { MulMono(d, -1, b); }
  }

  /** Dividing in two steps. */
  lemma DivModSplit(v: nat, b: nat, p: nat)
    requires b > 0 && p > 0
    ensures b * p > 0
    ensures v % (b * p) == (v / b) % p * b + v % b
    ensures v / (b * p) == v / b / p
  {
    var q := v / b;
    var s := q % p;
    assert s * b + v % b < b * p by { MulMono(s, p - 1, b); }
    assert v == (q / p) * (b * p) + (s * b + v % b) by {
      assert q == (q / p) * p + s;
      MulAssoc(q / p, p, b);
    }
    DivModUnique(v, b * p, q / p, s * b + v % b);
  }

  lemma DivBelow(v: nat, b: nat, p: nat)
    requires b > 0
    ensures v / b < p <==> v < b * p
  {
    assert v == (v / b) * b + v % b;
    if v / b < p { MulMono(v / b, p - 1, b); } else { MulMono(p, v / b, b); }
  }

  predicate DigitsBelow(b: nat, ds: seq<nat>) {
    forall i :: 0 <= i < |ds| ==> ds[i] < b
  }

  function Zeros(n: nat): (ds: seq<nat>)
    ensures |ds| == n
  {
    seq(n, _ => 0)
  }

  function Value(b: nat, ds: seq<nat>): (v: nat) {
    if ds == [] then 0 else Value(b, ds[..|ds| - 1]) * b + ds[|ds| - 1]
  }

  function Fixed(b: nat, v: nat, n: nat): (ds: seq<nat>)
    requires b > 1
    ensures |ds| == n && DigitsBelow(b, ds)
    decreases n
  {
    if n == 0 then [] else
      var q, r := v / b, v % b;
      Fixed(b, q, n - 1) + [r]
  }

  function Minimal(b: nat, v: nat): (ds: seq<nat>)
    requires b > 1
    ensures DigitsBelow(b, ds)
    decreases v
  {
    if v == 0 then [] else DivLess(v, b); Minimal(b, v / b) + [v % b]
  }

  lemma DivLess(v: nat, b: nat)
    requires b > 1 && v > 0
    ensures v / b < v
  {
    DivBelow(v, b, v);
    MulMono(2, b, v);
  }

  lemma HornerBelow(b: nat, v: nat, p: nat, d: nat)
    requires v < p && d < b
    ensures v * b + d < b * p
  {
    MulMono(v + 1, p, b);
  }

  lemma {:induction false} ValueBelow(b: nat, ds: seq<nat>)
    requires DigitsBelow(b, ds)
    ensures Value(b, ds) < Pow(b, |ds|)
  {
    if ds != [] {
      var init := ds[..|ds| - 1];
      ValueBelow(b, init);
      HornerBelow(b, Value(b, init), Pow(b, |init|), ds[|ds| - 1]);
    }
  }

  lemma HornerStep(x: nat, p: nat, v: nat, b: nat, d: nat)
    ensures (x * p + v) * b + d == x * (b * p) + (v * b + d)
  {
  }

  lemma {:induction false} ValueAppend(b: nat, xs: seq<nat>, ys: seq<nat>)
    ensures Value(b, xs + ys) == Value(b, xs) * Pow(b, |ys|) + Value(b, ys)
  {
    if ys == [] {
      assert xs + ys == xs;
    } else {
      var init := ys[..|ys| - 1];
      assert (xs + ys)[..|xs + ys| - 1] == xs + init;
      ValueAppend(b, xs, init);
      HornerStep(Value(b, xs), Pow(b, |init|), Value(b, init), b, ys[|ys| - 1]);
    }
  }

  lemma {:induction false} ValueZeros(b: nat, n: nat)
    ensures Value(b, Zeros(n)) == 0
  {
    if n > 0 {
      assert Zeros(n)[..n - 1] == Zeros(n - 1);
      ValueZeros(b, n - 1);
    }
  }

  /** A fixed-width numeral keeps the value modulo the capacity of its width. */
  lemma {:induction false} ValueFixed(b: nat, v: nat, n: nat)
    requires b > 1
    ensures Value(b, Fixed(b, v, n)) == v % Pow(b, n)
    decreases n
  {
    if n > 0 {
      var q, r, p := v / b, v % b, Pow(b, n - 1);
      ValueFixed(b, q, n - 1);
      assert v % (b * p) == q % p * b + r by { DivModSplit(v, b, p); }
      assert Fixed(b, v, n)[..n - 1] == Fixed(b, q, n - 1);
    }
  }

  /** Same-width numerals with the same value are the same numeral. */
  lemma {:induction false} FixedValue(b: nat, ds: seq<nat>)
    requires b > 1 && DigitsBelow(b, ds)
    ensures Fixed(b, Value(b, ds), |ds|) == ds
  {
    if ds != [] {
      var init, d := ds[..|ds| - 1], ds[|ds| - 1];
      DivModUnique(Value(b, ds), b, Value(b, init), d);
      FixedValue(b, init);
      assert ds == init + [d];
    }
  }

  lemma {:induction false} ValueMinimal(b: nat, v: nat)
    requires b > 1
    ensures Value(b, Minimal(b, v)) == v
    decreases v
  {
    if v > 0 {
      DivLess(v, b);
      ValueMinimal(b, v / b);
      assert Minimal(b, v)[..|Minimal(b, v)| - 1] == Minimal(b, v / b);
    }
  }

  /** The minimal numeral fits n digits exactly when the value is below b^n. */
  lemma {:induction false} MinimalLength(b: nat, v: nat, n: nat)
    requires b > 1
    ensures |Minimal(b, v)| <= n <==> v < Pow(b, n)
    decreases n
  {
    if v > 0 && n > 0 {
      MinimalLength(b, v / b, n - 1);
      DivBelow(v, b, Pow(b, n - 1));
    }
  }

  /** Left padding the minimal numeral with zeros gives the fixed-width one. */
  lemma {:induction false} PadMinimal(b: nat, v: nat, n: nat)
    requires b > 1 && |Minimal(b, v)| <= n
    ensures Zeros(n - |Minimal(b, v)|) + Minimal(b, v) == Fixed(b, v, n)
    decreases n
  {
    if n > 0 {
      if v == 0 {
        PadMinimal(b, 0, n - 1);
        assert Zeros(n) == Zeros(n - 1) + [0];
      } else {
        PadMinimal(b, v / b, n - 1);
      }
    }
  }

  /** The last n digits of any zero-padded minimal numeral are the fixed-width numeral. */
  lemma {:induction false} TailMinimal(b: nat, v: nat, z: nat, n: nat)
    requires b > 1 && n <= z + |Minimal(b, v)|
    ensures var ds := Zeros(z) + Minimal(b, v); ds[|ds| - n..] == Fixed(b, v, n)
    decreases n
  {
    var ds := Zeros(z) + Minimal(b, v);
    if n > 0 {
      if v == 0 {
        TailMinimal(b, 0, z - 1, n - 1);
        assert Zeros(z - 1) + [0] == Zeros(z);
        assert ds[|ds| - n..] == (Zeros(z - 1) + [])[|ds| - n..] + [0];
      } else {
        TailMinimal(b, v / b, z, n - 1);
        assert ds == (Zeros(z) + Minimal(b, v / b)) + [v % b];
      }
    }
  }

  /** Digits followed after their leading zeros are at least a power of the base. */
  lemma {:induction false} ValueAtLeast(b: nat, ds: seq<nat>)
    requires ds != [] && ds[0] > 0
    ensures Value(b, ds) >= Pow(b, |ds| - 1)
  {
    if |ds| > 1 {
      var init := ds[..|ds| - 1];
      ValueAtLeast(b, init);
      MulMono(Pow(b, |init| - 1), Value(b, init), b);
    }
  }

  function LeadingZeros(ds: seq<nat>): (z: nat)
    ensures z <= |ds|
    ensures ds[..z] == Zeros(z)
    ensures z < |ds| ==> ds[z] != 0
  {
    if ds == [] || ds[0] != 0 then 0
    else
      var z := LeadingZeros(ds[1..]);
      assert ds[..z + 1] == [0] + ds[1..][..z];
      z + 1
  }

  lemma ValueLeadingZeros(b: nat, ds: seq<nat>)
    ensures Value(b, ds) == Value(b, ds[LeadingZeros(ds)..])
  {
    var z := LeadingZeros(ds);
    assert ds == Zeros(z) + ds[z..];
    ValueAppend(b, Zeros(z), ds[z..]);
    ValueZeros(b, z);
  }
}
