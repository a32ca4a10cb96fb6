/** Decimal numbers written out without an exponent, and read back. */
module DecimalText {
  import opened Numerals
  import opened Decimals

  function DigitChar(n: nat): (c: char)
    requires n < 10
  {
    ('0' as int + n) as char
  }

  function CharDigit(c: char): (n: nat) {
    if '0' <= c <= '9' then c as int - '0' as int else 0
  }

  function Chars(ds: seq<nat>): (s: string)
    requires DigitsBelow(10, ds)
    ensures |s| == |ds|
  {
    seq(|ds|, i requires 0 <= i < |ds| => DigitChar(ds[i]))
  }

  function Digits(s: string): (ds: seq<nat>)
    ensures |ds| == |s|
  {
    seq(|s|, i requires 0 <= i < |s| => CharDigit(s[i]))
  }

  lemma DigitsChars(ds: seq<nat>)
    requires DigitsBelow(10, ds)
    ensures Digits(Chars(ds)) == ds
    ensures forall c :: c in Chars(ds) ==> '0' <= c <= '9'
  {
  }

  /** The digits of a natural number; zero is written as one digit. */
  function DecimalDigits(n: nat): (ds: seq<nat>)
    ensures ds != [] && DigitsBelow(10, ds)
  {
    if n == 0 then [0] else Minimal(10, n)
  }

  lemma DecimalDigitsValue(n: nat)
    ensures Value(10, DecimalDigits(n)) == n
  {
    if n == 0 { assert [0][..0] == []; } else { ValueMinimal(10, n); }
  }

  /** The format `%d`. */
  function Plain(n: nat): (s: string) {
    Chars(DecimalDigits(n))
  }

  /** The part before the first occurrence of a character and the part after it. */
  function Cut(s: string, c: char): (r: (string, string)) {
    if s == "" then ("", "")
    else if s[0] == c then ("", s[1..])
    else (s[..1] + Cut(s[1..], c).0, Cut(s[1..], c).1)
  }

  lemma {:induction false} CutAt(a: string, c: char, b: string)
    requires c !in a
    ensures Cut(a + [c] + b, c) == (a, b)
  {
    var s := a + [c] + b;
    if a == "" {
      assert s[1..] == b;
    } else {
      assert s[..1] == a[..1] && s[1..] == a[1..] + [c] + b;
      CutAt(a[1..], c, b);
      assert a == a[..1] + a[1..];
    }
  }

  lemma {:induction false} CutNone(s: string, c: char)
    requires c !in s
    ensures Cut(s, c) == (s, "")
  {
    if s != "" {
      CutNone(s[1..], c);
      assert s == s[..1] + s[1..];
    }
  }

  function Unsigned(ds: seq<nat>, exponent: int): (s: string)
    requires DigitsBelow(10, ds)
  {
    if exponent >= 0 then Chars(ds + Zeros(exponent))
    else if -exponent >= |ds| then Chars([0]) + "." + Chars(Zeros(-exponent - |ds|) + ds)
    else Chars(ds[..|ds| + exponent]) + "." + Chars(ds[|ds| + exponent..])
  }

  /** `Text('f')`. */
  function Text(d: Decimal): (s: string) {
    (if d.negative then "-" else "") + Unsigned(DecimalDigits(d.coeff), d.exponent)
  }

  function ParseUnsigned(s: string): (d: Decimal) {
    var (whole, fraction) := Cut(s, '.');
    Decimal(false, Value(10, Digits(whole + fraction)), -|fraction|)
  }

  /** Reads an optional sign, digits, and optionally a point with more digits. */
  function Parse(s: string): (d: Decimal) {
    if |s| > 0 && s[0] == '-' then ParseUnsigned(s[1..]).(negative := true) else ParseUnsigned(s)
  }

  predicate Plainly(s: string) {
    |s| > 0 && s[0] != '-' && ',' !in s && '-' !in s
  }

  /** Where the value goes when digits are written out: trailing zeros join the coefficient. */
  function WrittenOut(d: Decimal): (w: Decimal) {
    if d.exponent >= 0 then Decimal(d.negative, d.coeff * Pow(10, d.exponent), 0) else d
  }

  lemma UnsignedWhole(ds: seq<nat>, e: nat)
    requires ds != [] && DigitsBelow(10, ds)
    ensures ParseUnsigned(Unsigned(ds, e)) == Decimal(false, Value(10, ds) * Pow(10, e), 0)
    ensures Plainly(Unsigned(ds, e))
  {
    hide Pow, Value;
    var all := ds + Zeros(e);
    DigitsChars(all);
    CutNone(Chars(all), '.');
    assert Chars(all) + "" == Chars(all);
    ValueAppend(10, ds, Zeros(e));
    ValueZeros(10, e);
  }

  lemma PointBetween(w: seq<nat>, f: seq<nat>)
    requires w != [] && DigitsBelow(10, w) && DigitsBelow(10, f)
    ensures var s := Chars(w) + "." + Chars(f);
            Plainly(s) && ParseUnsigned(s) == Decimal(false, Value(10, w + f), -|f|)
  {
    hide Pow, Value, Cut;
    DigitsChars(w);
    DigitsChars(f);
    var s := Chars(w) + "." + Chars(f);
    assert s[0] == Chars(w)[0];
    CutAt(Chars(w), '.', Chars(f));
    assert Digits(Chars(w) + Chars(f)) == w + f;
  }

  lemma UnsignedFraction(ds: seq<nat>, e: int)
    requires ds != [] && DigitsBelow(10, ds) && e < 0
    ensures ParseUnsigned(Unsigned(ds, e)) == Decimal(false, Value(10, ds), e)
    ensures Plainly(Unsigned(ds, e))
  {
    hide Pow, Value, Cut, Chars, ParseUnsigned, Plainly;
    if -e >= |ds| {
      var z := -e - |ds|;
      PointBetween([0], Zeros(z) + ds);
      assert [0] + (Zeros(z) + ds) == Zeros(1 + z) + ds;
      ValueAppend(10, Zeros(1 + z), ds);
      ValueZeros(10, 1 + z);
    } else {
      var k := |ds| + e;
      PointBetween(ds[..k], ds[k..]);
      assert ds[..k] + ds[k..] == ds;
    }
  }

  /** Reading the text of a decimal gives the same value back. */
  lemma TextRoundTrip(d: Decimal)
    ensures Parse(Text(d)) == WrittenOut(d) && Val(Parse(Text(d))) == Val(d)
    ensures ',' !in Text(d)
  {
    hide Ten, Pow, Value, Unsigned, ParseUnsigned;
    var ds := DecimalDigits(d.coeff);
    DecimalDigitsValue(d.coeff);
    if d.exponent >= 0 {
      UnsignedWhole(ds, d.exponent);
      Rescale(d.coeff, d.exponent, d.exponent);
    } else {
      UnsignedFraction(ds, d.exponent);
    }
    var u := Unsigned(ds, d.exponent);
    assert ("-" + u)[1..] == u && "" + u == u;
  }

  /** Two reduced decimals with the same text are the same decimal. */
  lemma TextInjective(x: Decimal, y: Decimal)
    requires Reduced(x) && Reduced(y)
    ensures Text(x) == Text(y) <==> Val(x) == Val(y)
    ensures Text(x) == Text(y) ==> x == y
  {
    hide Text, Val;
    TextRoundTrip(x);
    TextRoundTrip(y);
    if Val(x) == Val(y) { ReducedUnique(x, y); }
  }

  lemma PlainInjective(m: nat, n: nat)
    requires Plain(m) == Plain(n)
    ensures m == n
  {
    hide Value;
    DigitsChars(DecimalDigits(m));
    DigitsChars(DecimalDigits(n));
    DecimalDigitsValue(m);
    DecimalDigitsValue(n);
  }
}
