/** Swap offers: the text their identifier hashes, and validation. */
module OfferText {
  import opened Numerals
  import opened Decimals
  import opened DecimalText

  type Nibble = n: nat | n < 16
  const ADDRESS_NIBBLES: nat := 40
  type EthAddress = a: seq<Nibble> | |a| == ADDRESS_NIBBLES witness seq(ADDRESS_NIBBLES, _ => 0)

  datatype Coin = XMR | ETH

  /** What an offer identifier covers. */
  datatype Terms = Terms(version: string, coin: Coin, minAmount: Decimal, maxAmount: Decimal, rate: Decimal,
                         asset: EthAddress, nonce: nat)

  function CoinText(c: Coin): (s: string)
    ensures |s| == 3
  {
    match c case XMR => "XMR" case ETH => "ETH"
  }

  function HexChar(n: Nibble, upper: bool): (c: char) {
    if n < 10 then ('0' as int + n) as char
    else if upper then ('A' as int + n - 10) as char
    else ('a' as int + n - 10) as char
  }

  function HexValue(c: char): (n: Nibble) {
    if '0' <= c <= '9' then c as int - '0' as int
    else if 'A' <= c <= 'F' then c as int - 'A' as int + 10
    else if 'a' <= c <= 'f' then c as int - 'a' as int + 10
    else 0
  }

  /** The mixed-case hexadecimal form; which letters are upper case is a checksum of the address. */
  function HexText(a: EthAddress, upper: EthAddress -> seq<bool>): (s: string)
    ensures |s| == 2 + ADDRESS_NIBBLES
  {
    "0x" + seq(ADDRESS_NIBBLES, i requires 0 <= i < ADDRESS_NIBBLES => HexChar(a[i], i < |upper(a)| && upper(a)[i]))
  }

  lemma HexTextReads(a: EthAddress, upper: EthAddress -> seq<bool>, i: nat)
    requires i < ADDRESS_NIBBLES
    ensures HexValue(HexText(a, upper)[2 + i]) == a[i] && HexText(a, upper)[2 + i] != ','
  {
  }

  /** The zero address stands for ether. */
  function AssetText(a: EthAddress, upper: EthAddress -> seq<bool>): (s: string) {
    if a == seq(ADDRESS_NIBBLES, _ => 0) then "ETH" else "ERC20@" + HexText(a, upper)
  }

  lemma AssetNoComma(a: EthAddress, upper: EthAddress -> seq<bool>)
    ensures ',' !in AssetText(a, upper)
  {
    hide HexText;
    var h := HexText(a, upper);
    forall i | 0 <= i < |h| ensures h[i] != ',' {
      if i >= 2 { HexTextReads(a, upper, i - 2); } else { HexPrefix(a, upper); }
    }
  }

  lemma HexPrefix(a: EthAddress, upper: EthAddress -> seq<bool>)
    ensures HexText(a, upper)[0] == '0' && HexText(a, upper)[1] == 'x'
  {
  }

  lemma AssetInjective(a: EthAddress, b: EthAddress, upper: EthAddress -> seq<bool>)
    requires AssetText(a, upper) == AssetText(b, upper)
    ensures a == b
  {
    hide HexText;
    var none := seq(ADDRESS_NIBBLES, _ => 0);
    assert a != none ==> |AssetText(a, upper)| > 3;
    assert b != none ==> |AssetText(b, upper)| > 3;
    if a != none && b != none {
      assert ("ERC20@" + HexText(a, upper))[6..] == HexText(a, upper);
      assert ("ERC20@" + HexText(b, upper))[6..] == HexText(b, upper);
      forall i | 0 <= i < ADDRESS_NIBBLES ensures a[i] == b[i] {
        HexTextReads(a, upper, i);
        HexTextReads(b, upper, i);
      }
    }
  }

  // ---- the hashed text ----

  function Join(head: string, tail: string): (s: string) {
    head + [','] + tail
  }

  /** The bytes `hash` feeds to SHA3-256. */
  function Preimage(t: Terms, upper: EthAddress -> seq<bool>): (s: string) {
    Join(t.version + CoinText(t.coin),
    Join(Text(t.minAmount),
    Join(Text(t.maxAmount),
    Join(Text(t.rate),
    Join(AssetText(t.asset, upper),
    Plain(t.nonce))))))
  }

  lemma JoinInjective(a: string, b: string, x: string, y: string)
    requires ',' !in a && ',' !in b && Join(a, x) == Join(b, y)
    ensures a == b && x == y
  {
    CutAt(a, ',', x);
    CutAt(b, ',', y);
  }

  lemma CoinInjective(v: string, w: string, c: Coin, d: Coin)
    requires v + CoinText(c) == w + CoinText(d)
    ensures v == w && c == d
  {
    var s := v + CoinText(c);
    assert s[..|s| - 3] == v && s[..|s| - 3] == w;
    assert s[|s| - 3] == CoinText(c)[0] && (w + CoinText(d))[|s| - 3] == CoinText(d)[0];
  }

  lemma CoinNoComma(v: string, c: Coin)
    requires ',' !in v
    ensures ',' !in v + CoinText(c)
  {
  }

  predicate Canonical(t: Terms) {
    ',' !in t.version && Reduced(t.minAmount) && Reduced(t.maxAmount) && Reduced(t.rate)
  }

  /** Different terms never hash the same text: the fields can be read back out of it. */
  lemma PreimageInjective(s: Terms, t: Terms, upper: EthAddress -> seq<bool>)
    requires Canonical(s) && Canonical(t)
    ensures Preimage(s, upper) == Preimage(t, upper) ==> s == t
  {
    hide Text, AssetText, Plain, CoinText, Join;
    if Preimage(s, upper) == Preimage(t, upper) {
      CoinNoComma(s.version, s.coin);
      CoinNoComma(t.version, t.coin);
      TextRoundTrip(s.minAmount);
      TextRoundTrip(t.minAmount);
      TextRoundTrip(s.maxAmount);
      TextRoundTrip(t.maxAmount);
      TextRoundTrip(s.rate);
      TextRoundTrip(t.rate);
      AssetNoComma(s.asset, upper);
      AssetNoComma(t.asset, upper);
      JoinInjective(s.version + CoinText(s.coin), t.version + CoinText(t.coin), Tail1(s, upper), Tail1(t, upper));
      JoinInjective(Text(s.minAmount), Text(t.minAmount), Tail2(s, upper), Tail2(t, upper));
      JoinInjective(Text(s.maxAmount), Text(t.maxAmount), Tail3(s, upper), Tail3(t, upper));
      JoinInjective(Text(s.rate), Text(t.rate), Tail4(s, upper), Tail4(t, upper));
      JoinInjective(AssetText(s.asset, upper), AssetText(t.asset, upper), Plain(s.nonce), Plain(t.nonce));
      CoinInjective(s.version, t.version, s.coin, t.coin);
      TextInjective(s.minAmount, t.minAmount);
      TextInjective(s.maxAmount, t.maxAmount);
      TextInjective(s.rate, t.rate);
      AssetInjective(s.asset, t.asset, upper);
      PlainInjective(s.nonce, t.nonce);
    }
  }

  // ---- reading the text back ----

  function ReadAsset(s: string): (a: EthAddress) {
    if |s| == 8 + ADDRESS_NIBBLES && s[..8] == "ERC20@0x" then seq(ADDRESS_NIBBLES, i requires 0 <= i < ADDRESS_NIBBLES => HexValue(s[8 + i]))
    else seq(ADDRESS_NIBBLES, _ => 0)
  }

  /** The fields of a hashed text in their order: version and coin, minimum, maximum, rate, asset, nonce. */
  function ReadTerms(s: string): (t: Terms) {
    var (head, s1) := Cut(s, ',');
    var (min, s2) := Cut(s1, ',');
    var (max, s3) := Cut(s2, ',');
    var (rate, s4) := Cut(s3, ',');
    var (asset, nonce) := Cut(s4, ',');
    var n := if |head| >= 3 then |head| - 3 else 0;
    Terms(head[..n], if head[n..] == "XMR" then XMR else ETH, Reduce(Parse(min)), Reduce(Parse(max)), Reduce(Parse(rate)),
          ReadAsset(asset), Value(10, Digits(nonce)))
  }

  lemma ReadAssetText(a: EthAddress, upper: EthAddress -> seq<bool>)
    ensures ReadAsset(AssetText(a, upper)) == a
  {
    hide HexText;
    if a != seq(ADDRESS_NIBBLES, _ => 0) {
      var s := AssetText(a, upper);
      HexPrefix(a, upper);
      assert s[..8] == "ERC20@0x";
      forall i | 0 <= i < ADDRESS_NIBBLES ensures HexValue(s[8 + i]) == a[i] {
        assert s[8 + i] == HexText(a, upper)[2 + i];
        HexTextReads(a, upper, i);
      }
    }
  }

  lemma ReadDecimal(d: Decimal)
    requires Reduced(d)
    ensures Reduce(Parse(Text(d))) == d
  {
    hide Text, Parse, Val, Reduce, WrittenOut;
    TextRoundTrip(d);
    ReduceKeeps(Parse(Text(d)));
    ReducedUnique(Reduce(Parse(Text(d))), d);
  }

  lemma ReadPlain(n: nat)
    ensures Value(10, Digits(Plain(n))) == n
  {
    hide Value;
    DigitsChars(DecimalDigits(n));
    DecimalDigitsValue(n);
  }

  lemma ReadHead(v: string, c: Coin)
    ensures var s := v + CoinText(c); s[..|s| - 3] == v && (s[|s| - 3..] == "XMR" <==> c == XMR)
  {
    var s := v + CoinText(c);
    assert s[|s| - 3..] == CoinText(c);
    assert "XMR"[0] != "ETH"[0];
  }

  lemma CutJoin(head: string, tail: string)
    requires ',' !in head
    ensures Cut(Join(head, tail), ',') == (head, tail)
  {
    CutAt(head, ',', tail);
  }

  /** Reading the hashed text gives the terms back, each field from its own place. */
  lemma ReadPreimage(t: Terms, upper: EthAddress -> seq<bool>)
    requires Canonical(t)
    ensures ReadTerms(Preimage(t, upper)) == t
  {
    hide Text, AssetText, Plain, CoinText, Join, Cut, Parse, Reduce, ReadAsset, Value, Digits;
    CoinNoComma(t.version, t.coin);
    TextRoundTrip(t.minAmount);
    TextRoundTrip(t.maxAmount);
    TextRoundTrip(t.rate);
    AssetNoComma(t.asset, upper);
    CutJoin(t.version + CoinText(t.coin), Tail1(t, upper));
    CutJoin(Text(t.minAmount), Tail2(t, upper));
    CutJoin(Text(t.maxAmount), Tail3(t, upper));
    CutJoin(Text(t.rate), Tail4(t, upper));
    CutJoin(AssetText(t.asset, upper), Plain(t.nonce));
    ReadHead(t.version, t.coin);
    ReadDecimal(t.minAmount);
    ReadDecimal(t.maxAmount);
    ReadDecimal(t.rate);
    ReadAssetText(t.asset, upper);
    ReadPlain(t.nonce);
  }

  function Tail4(t: Terms, upper: EthAddress -> seq<bool>): (s: string) {
    Join(AssetText(t.asset, upper), Plain(t.nonce))
  }

  function Tail3(t: Terms, upper: EthAddress -> seq<bool>): (s: string) {
    Join(Text(t.rate), Tail4(t, upper))
  }

  function Tail2(t: Terms, upper: EthAddress -> seq<bool>): (s: string) {
    Join(Text(t.maxAmount), Tail3(t, upper))
  }

  function Tail1(t: Terms, upper: EthAddress -> seq<bool>): (s: string) {
    Join(Text(t.minAmount), Tail2(t, upper))
  }
}

module Offers {
  import opened Numerals
  import opened Wrappers
  import opened Decimals
  import opened DecimalArith
  import opened Coins
  import opened ExchangeRates
  import opened AssetAmounts
  import opened OfferText

  /** A 256-bit hash; zero means not set. */
  type Hash = nat

  /** SHA3-256 and the address checksum, which the model leaves abstract. */
  datatype Digest = Digest(sha3: string -> Hash, upper: EthAddress -> seq<bool>)

  datatype Offer = Offer(id: Hash, version: string, coin: Coin, minAmount: Option<Decimal>,
                         maxAmount: Option<Decimal>, rate: Option<Decimal>, asset: EthAddress, nonce: nat)

  datatype OfferError =
    | IdNotSet
    | BadMinimum(why: ValidateError)
    | BadMaximum(why: ValidateError)
    | MinAboveMax
    | RateNotSet
    | BadRate(why: ValidateError)
    | Conversion(error: RateError)
    | BelowRelayerFee
    | AboveMaximum
    | HashMismatch

  const CURRENT_VERSION: string := "1.0.0"
  const MAX_OFFER_VALUE := Decimal(false, 1, 3)

  function RelayerFeeETH(): (d: Decimal) {
    ToStandard(FromUnits(RELAYER_FEE_WEI), ETHER_DECIMALS)
  }

  function TermsOf(o: Offer, min: Decimal, max: Decimal, rate: Decimal): (t: Terms) {
    Terms(o.version, o.coin, min, max, rate, o.asset, o.nonce)
  }

  function OfferId(t: Terms, h: Digest): (id: Hash) {
    h.sha3(Preimage(t, h.upper))
  }

  /** `ValidatePositive` of a field that may be missing; the field is left reduced. */
  function ValidateField(d: Option<Decimal>, maxDecimals: nat): (r: Result<Decimal, ValidateError>) {
    match d
    case None => Err(NotSet)
    case Some(v) =>
      match ValidatePositive(v, maxDecimals)
      case Some(e) => Err(e)
      case None => Ok(Reduce(v))
  }

  /** `validate`, with the offer as it leaves it. */
  function Validate(o: Offer, h: Digest): (r: Result<Offer, OfferError>) {
    if o.id == 0 then Err(IdNotSet)
    else match ValidateField(o.minAmount, MONERO_DECIMALS)
    case Err(e) => Err(BadMinimum(e))
    case Ok(min) =>
      match ValidateField(o.maxAmount, MONERO_DECIMALS)
      case Err(e) => Err(BadMaximum(e))
      case Ok(max) =>
        if Cmp(min, max) > 0 then Err(MinAboveMax)
        else if o.rate.None? then Err(RateNotSet)
        else
          var rate := o.rate.value;
          match ToETH(rate, min)
          case Err(e) => Err(Conversion(e))
          case Ok(eth) =>
            if Cmp(eth, RelayerFeeETH()) <= 0 then Err(BelowRelayerFee)
            else if Cmp(max, MAX_OFFER_VALUE) > 0 then Err(AboveMaximum)
            else if o.id != OfferId(TermsOf(o, min, max, rate), h) then Err(HashMismatch)
            else Ok(o.(minAmount := Some(min), maxAmount := Some(max)))
  }

  /** Decoding an offer: the rate is validated while it is read, then the whole offer. */
  function Unmarshal(o: Offer, h: Digest): (r: Result<Offer, OfferError>) {
    match ValidateField(o.rate, MAX_RATE_DECIMALS)
    case Err(e) => Err(BadRate(e))
    case Ok(rate) => Validate(o.(rate := Some(rate)), h)
  }

  /** The arguments of `NewOffer`, with the random nonce. */
  datatype Draft = Draft(coin: Coin, min: Decimal, max: Decimal, rate: Decimal, asset: EthAddress, nonce: nat)

  function DraftTerms(d: Draft): (t: Terms) {
    Terms(CURRENT_VERSION, d.coin, Reduce(d.min), Reduce(d.max), Reduce(d.rate), d.asset, d.nonce)
  }

  /** `NewOffer`: amounts and rate reduced, then the identifier computed. */
  function NewOffer(d: Draft, h: Digest): (o: Offer) {
    var t := DraftTerms(d);
    Offer(OfferId(t, h), t.version, t.coin, Some(t.minAmount), Some(t.maxAmount), Some(t.rate), t.asset, t.nonce)
  }

  /** The relayer's own check of a swap's value in wei. */
  predicate RelayerAccepts(value: nat) {
    RELAYER_FEE_WEI < value
  }

  // ---- what acceptance means ----

  /** A rate, or an amount, that passed `ValidatePositive` and was left reduced. */
  ghost predicate Valid(d: Decimal, maxDecimals: nat) {
    Positive(d) && Reduced(d) && NumDecimals(d) <= maxDecimals && d.coeff < Pow(10, PRECISION)
  }

  lemma ValidateFieldIff(d: Option<Decimal>, maxDecimals: nat)
    ensures ValidateField(d, maxDecimals).Ok? <==> d.Some? && Valid(Reduce(d.value), maxDecimals)
    ensures ValidateField(d, maxDecimals).Ok? ==> ValidateField(d, maxDecimals) == Ok(Reduce(d.value))
  {
    hide Pow, Mag, Reduce, NumDigits;
    if d.Some? {
      ValidatePositiveIff(d.value, maxDecimals);
      ReduceKeeps(d.value);
      ReduceZeroIff(d.value);
      ReduceTwiceDecimals(d.value);
      ZeroMag(d.value);
    }
  }

  lemma FeeUnits()
    ensures var f := RelayerFeeETH();
            !f.negative && f.coeff > 0 && Shifted(f, ETHER_DECIMALS) == RELAYER_FEE_WEI as real
  {
    hide Ten, Reduce, ToStandard, Shifted;
    ToStandardShifted(RELAYER_FEE_WEI, ETHER_DECIMALS);
    ZeroShifted(RelayerFeeETH(), ETHER_DECIMALS);
  }

  /** The minimum check on the 100-digit product decides the same as the exact product would. */
  lemma FeeCheckIff(rate: Decimal, min: Decimal)
    requires Valid(rate, MAX_RATE_DECIMALS) && Valid(min, MONERO_DECIMALS) && ToETH(rate, min).Ok?
    ensures Cmp(ToETH(rate, min).value, RelayerFeeETH()) > 0 <==> WeiValue(rate, min) > RELAYER_FEE_WEI as real
  {
    hide Ten, Mag, Shifted, Reduce, NumDecimals, FitPrecision, Product, Pow, RelayerFeeETH, Cmp, InRange, NumDigits;
    var p := Product(min, rate);
    var f := FitPrecision(p);
    MulRange(rate, min);
    ToAssetRounded(rate, min, ETHER_DECIMALS);
    ProductPositive(min, rate);
    ProductDecimals(min, rate, ETHER_DECIMALS);
    var e, fee := Reduce(f), RelayerFeeETH();
    ReduceKeeps(f);
    ShiftedSame(e, f, ETHER_DECIMALS);
    FeeUnits();
    CmpOrders(e, fee);
    ShiftedValOrder(e, fee, ETHER_DECIMALS);
    FeeBelowPrecision();
    if WeiValue(rate, min) < Ten(PRECISION) {
      FitExact(p, ETHER_DECIMALS);
      ShiftedSame(f, p, ETHER_DECIMALS);
    } else {
      StillLarge(p, ETHER_DECIMALS);
    }
  }

  lemma MulRange(rate: Decimal, xmr: Decimal)
    requires ToETH(rate, xmr).Ok?
    ensures ExponentsInRange(xmr, rate)
  {
    hide FitPrecision, InRange, Reduce;
  }

  lemma FeeBelowPrecision()
    ensures RELAYER_FEE_WEI as real < Ten(PRECISION)
  {
    hide Ten, Pow;
    TenToTheTen();
    PowAdd(10, 10, 10);
    PowMono(10, 20, PRECISION);
    TenNat(PRECISION);
  }

  /** Converting a valid amount at a valid rate fails exactly when their product reaches the limit of the
      arithmetic, or the rate's own exponent does. */
  lemma ConvertsIff(rate: Decimal, xmr: Decimal)
    requires Valid(rate, MAX_RATE_DECIMALS) && Valid(xmr, MONERO_DECIMALS) && xmr.exponent <= MAX_EXPONENT
    ensures ToETH(rate, xmr).Ok? <==> rate.exponent <= MAX_EXPONENT && Val(xmr) * Val(rate) < MulLimit()
  {
    hide Ten, Mag, Pow, MulLimit, ToAsset, NumDecimals;
    ExponentAtLeast(rate, MAX_RATE_DECIMALS);
    ExponentAtLeast(xmr, MONERO_DECIMALS);
    if rate.exponent <= MAX_EXPONENT { ToAssetOkIff(rate, xmr, ETHER_DECIMALS); } else { MulRangeFails(rate, xmr); }
  }

  lemma ExponentAtLeast(d: Decimal, maxDecimals: nat)
    requires Reduced(d) && NumDecimals(d) <= maxDecimals
    ensures d.exponent >= -(maxDecimals as int)
  {
    ReduceFixed(d);
  }

  lemma MulRangeFails(rate: Decimal, xmr: Decimal)
    requires rate.exponent > MAX_EXPONENT
    ensures ToETH(rate, xmr).Err?
  {
    hide FitPrecision, InRange, Reduce;
  }

  /** At most 1000 XMR means an exponent of at most 3. */
  lemma SmallExponent(d: Decimal)
    requires Positive(d) && Val(d) <= Val(MAX_OFFER_VALUE)
    ensures d.exponent <= 3
  {
    hide Ten, NumDigits;
    NumDigitsIff(1, 1);
    TenTimes(0);
    PowZero();
    LeadingIff(MAX_OFFER_VALUE, 4);
    LeadingIff(d, 4);
  }

  /** An offer validates exactly when it is identified, its amounts are positive piconero numbers in order
      and at most 1000 XMR, the minimum is worth more than the relayer fee and less than the limit of the
      arithmetic, and the identifier is the hash of its terms. */
  lemma ValidateIff(o: Offer, h: Digest)
    requires o.rate.Some? && Valid(o.rate.value, MAX_RATE_DECIMALS)
    ensures Validate(o, h).Ok? <==>
            && o.id != 0 && o.minAmount.Some? && o.maxAmount.Some?
            && var min, max, rate := Reduce(o.minAmount.value), Reduce(o.maxAmount.value), o.rate.value;
               && Valid(min, MONERO_DECIMALS) && Valid(max, MONERO_DECIMALS)
               && Val(min) <= Val(max) <= Val(MAX_OFFER_VALUE)
               && rate.exponent <= MAX_EXPONENT && Val(min) * Val(rate) < MulLimit()
               && WeiValue(rate, min) > RELAYER_FEE_WEI as real
               && o.id == OfferId(TermsOf(o, min, max, rate), h)
    ensures Validate(o, h).Ok? ==>
            Validate(o, h).value == o.(minAmount := Some(Reduce(o.minAmount.value)), maxAmount := Some(Reduce(o.maxAmount.value)))
  {
    hide Reduce, Val, Cmp, ToETH, WeiValue, OfferId, RelayerFeeETH, Valid, ValidateField, MulLimit;
    ValidateFieldIff(o.minAmount, MONERO_DECIMALS);
    ValidateFieldIff(o.maxAmount, MONERO_DECIMALS);
    if o.minAmount.Some? && o.maxAmount.Some? {
      var min, max, rate := Reduce(o.minAmount.value), Reduce(o.maxAmount.value), o.rate.value;
      CmpOrders(min, max);
      CmpOrders(max, MAX_OFFER_VALUE);
      if Valid(min, MONERO_DECIMALS) && Val(min) <= Val(max) <= Val(MAX_OFFER_VALUE) { MinimumConvertsIff(rate, min); }
      if Valid(min, MONERO_DECIMALS) && ToETH(rate, min).Ok? { FeeCheckIff(rate, min); }
    }
  }

  lemma MinimumConvertsIff(rate: Decimal, min: Decimal)
    requires Valid(rate, MAX_RATE_DECIMALS) && Valid(min, MONERO_DECIMALS) && Val(min) <= Val(MAX_OFFER_VALUE)
    ensures ToETH(rate, min).Ok? <==> rate.exponent <= MAX_EXPONENT && Val(min) * Val(rate) < MulLimit()
  {
    hide Val, ToETH, Pow, NumDecimals, MulLimit;
    SmallExponent(min);
    ConvertsIff(rate, min);
  }

  /** A validated offer validates again, unchanged. */
  lemma ValidateStable(o: Offer, h: Digest)
    requires Unmarshal(o, h).Ok?
    ensures Unmarshal(Unmarshal(o, h).value, h) == Unmarshal(o, h)
  {
    hide Reduce, Validate, Valid, ValidateField;
    var v := Unmarshal(o, h).value;
    UnmarshalParts(o, h);
    ValidateFieldIff(o.rate, MAX_RATE_DECIMALS);
    ReduceTwice(o.rate.value);
    ValidateFieldIff(v.rate, MAX_RATE_DECIMALS);
    ValidateFixed(o.(rate := v.rate), h);
  }

  lemma UnmarshalParts(o: Offer, h: Digest)
    requires Unmarshal(o, h).Ok?
    ensures var v := Unmarshal(o, h).value;
            && o.rate.Some? && v.rate == Some(Reduce(o.rate.value)) && Valid(v.rate.value, MAX_RATE_DECIMALS)
            && Validate(o.(rate := v.rate), h) == Ok(v)
  {
    hide Reduce, Valid, ValidateField;
    ValidateFieldIff(o.rate, MAX_RATE_DECIMALS);
    ValidateIff(o.(rate := Some(Reduce(o.rate.value))), h);
  }

  lemma ValidateFixed(o: Offer, h: Digest)
    requires o.rate.Some? && Valid(o.rate.value, MAX_RATE_DECIMALS) && Validate(o, h).Ok?
    ensures Validate(Validate(o, h).value, h) == Validate(o, h)
  {
    hide Reduce, Validate, Valid, Val, MulLimit, WeiValue, OfferId;
    ValidateIff(o, h);
    var v := Validate(o, h).value;
    ReduceTwice(o.minAmount.value);
    ReduceTwice(o.maxAmount.value);
    ValidateIff(v, h);
    assert TermsOf(v, v.minAmount.value, v.maxAmount.value, v.rate.value)
        == TermsOf(o, v.minAmount.value, v.maxAmount.value, v.rate.value);
  }

  /** For every accepted offer and every XMR amount within its limits: the wei to send is exactly the amount
      times the rate, and more than the relayer fee, unless it does not fit in 100 digits. */
  lemma AcceptedOfferPays(o: Offer, h: Digest, xmr: Decimal)
    requires Unmarshal(o, h).Ok? && Positive(xmr) && NumDecimals(xmr) <= MONERO_DECIMALS
    requires -MAX_EXPONENT <= xmr.exponent <= MAX_EXPONENT
    requires Val(Unmarshal(o, h).value.minAmount.value) <= Val(xmr) <= Val(Unmarshal(o, h).value.maxAmount.value)
    ensures var rate := Unmarshal(o, h).value.rate.value;
            && (ToWei(rate, xmr).Ok? <==> WeiValue(rate, xmr) < Ten(PRECISION))
            && (ToWei(rate, xmr).Ok? ==> && ToWei(rate, xmr).value as real == Val(xmr) * Val(rate) * Ten(ETHER_DECIMALS)
                                         && ToWei(rate, xmr).value > 10000000000000000 && RelayerAccepts(ToWei(rate, xmr).value))
    ensures forall value: nat :: RelayerAccepts(value) <==> value > 10000000000000000
  {
    hide Reduce, Validate, MulLimit, WeiValue, OfferId, ToWei, Ten, Mag, Pow, NumDecimals;
    UnmarshalParts(o, h);
    var v := Unmarshal(o, h).value;
    var rate := v.rate.value;
    ValidateIff(o.(rate := v.rate), h);
    var min := v.minAmount.value;
    ExponentAtLeast(rate, MAX_RATE_DECIMALS);
    var n := if ToWei(rate, xmr).Ok? then ToWei(rate, xmr).value else 0;
    ToWeiIff(rate, xmr, n);
    WeiValueMono(rate, min, xmr);
  }

  lemma WeiValueMono(rate: Decimal, x: Decimal, y: Decimal)
    requires Mag(x) <= Mag(y)
    ensures WeiValue(rate, x) <= WeiValue(rate, y)
  {
    hide Mag, Ten, WeiValue;
    WeiValueIs(rate, x);
    WeiValueIs(rate, y);
    MulMonoReal(Mag(x), Mag(y), Mag(rate));
    MulMonoReal(Mag(x) * Mag(rate), Mag(y) * Mag(rate), Ten(ETHER_DECIMALS));
  }

  /** The amounts a taker may ask for. */
  ghost predicate WithinLimits(v: Offer, xmr: Decimal)
    requires v.minAmount.Some? && v.maxAmount.Some?
  {
    && Positive(xmr) && NumDecimals(xmr) <= MONERO_DECIMALS && -MAX_EXPONENT <= xmr.exponent <= MAX_EXPONENT
    && Val(v.minAmount.value) <= Val(xmr) <= Val(v.maxAmount.value)
  }

  /** A conversion within an accepted offer fails exactly when the product reaches the limit of the arithmetic,
      and every amount within its limits converts exactly when the maximum does. */
  lemma AcceptedOfferConverts(o: Offer, h: Digest, xmr: Decimal)
    requires Unmarshal(o, h).Ok?
    ensures var v := Unmarshal(o, h).value;
            && v.minAmount.Some? && v.maxAmount.Some? && v.rate.Some?
            && (WithinLimits(v, xmr) ==>
                  && (ToETH(v.rate.value, xmr).Ok? <==> Mag(xmr) * Mag(v.rate.value) < MulLimit())
                  && (ToETH(v.rate.value, xmr).Err? ==> ToETH(v.rate.value, xmr) == Err(Arithmetic(OutOfRange))))
            && ((forall x :: WithinLimits(v, x) ==> ToETH(v.rate.value, x).Ok?)
                <==> Mag(v.maxAmount.value) * Mag(v.rate.value) < MulLimit())
  {
    hide Reduce, Validate, WeiValue, OfferId, Ten, Mag, Pow, NumDecimals, ToETH, MulLimit;
    UnmarshalParts(o, h);
    var v := Unmarshal(o, h).value;
    ValidateIff(o.(rate := v.rate), h);
    var max, rate := v.maxAmount.value, v.rate.value;
    ExponentAtLeast(rate, MAX_RATE_DECIMALS);
    ExponentAtLeast(max, MONERO_DECIMALS);
    SmallExponent(max);
    assert WithinLimits(v, max);
    LimitsConvert(v, max);
    if WithinLimits(v, xmr) { LimitsConvert(v, xmr); }
    forall x | WithinLimits(v, x) ensures ToETH(rate, max).Ok? ==> ToETH(rate, x).Ok? {
      LimitsConvert(v, x);
      MulMonoReal(Mag(x), Mag(max), Mag(rate));
    }
  }

  lemma LimitsConvert(v: Offer, xmr: Decimal)
    requires v.minAmount.Some? && v.maxAmount.Some? && v.rate.Some? && WithinLimits(v, xmr)
    requires Valid(v.rate.value, MAX_RATE_DECIMALS) && -(MAX_RATE_DECIMALS as int) <= v.rate.value.exponent <= MAX_EXPONENT
    ensures ToETH(v.rate.value, xmr).Ok? <==> Mag(xmr) * Mag(v.rate.value) < MulLimit()
    ensures ToETH(v.rate.value, xmr).Err? ==> ToETH(v.rate.value, xmr) == Err(Arithmetic(OutOfRange))
  {
    hide Ten, Mag, Pow, NumDecimals, ToAsset, MulLimit;
    ToAssetOkIff(v.rate.value, xmr, ETHER_DECIMALS);
  }

  /** An offer at a rate of 1E100000, from 1 XMR to 1000 XMR. */
  function HugeOffer(asset: EthAddress, nonce: nat): (d: Draft) {
    Draft(XMR, Decimal(false, 1, 0), MAX_OFFER_VALUE, Decimal(false, 1, MAX_EXPONENT), asset, nonce)
  }

  /** Such failures exist, and so does the panic of `EtherToWei`: this offer is accepted, its maximum does not
      convert to ether, and its minimum does but then fails to convert to wei. */
  lemma ConversionCanFail(asset: EthAddress, nonce: nat, h: Digest)
    requires OfferId(DraftTerms(HugeOffer(asset, nonce)), h) != 0
    ensures var d := HugeOffer(asset, nonce);
            && Unmarshal(NewOffer(d, h), h) == Ok(NewOffer(d, h))
            && ToETH(d.rate, d.max) == Err(Arithmetic(OutOfRange))
            && ToETH(d.rate, d.min) == Ok(d.rate)
            && ToUnits(d.rate, ETHER_DECIMALS) == Err(OutOfRange)
  {
    hide Preimage, Pow, Validate, ToETH, WeiValue, OfferId, MulLimit, ToUnits;
    var d := HugeOffer(asset, nonce);
    var o := NewOffer(d, h);
    ValidOne(0, MONERO_DECIMALS);
    ValidOne(3, MONERO_DECIMALS);
    ValidOne(MAX_EXPONENT, MAX_RATE_DECIMALS);
    ValidateFieldIff(o.rate, MAX_RATE_DECIMALS);
    HugeRate(d.min, d.rate);
    MinimumConvertsIff(d.rate, d.min);
    ValidateIff(o, h);
    ToUnitsOkIff(d.rate, ETHER_DECIMALS);
  }

  lemma ValidOne(e: nat, maxDecimals: nat)
    ensures Valid(Decimal(false, 1, e), maxDecimals) && Reduce(Decimal(false, 1, e)) == Decimal(false, 1, e)
  {
    hide Pow;
    PowStrict(10, 0, PRECISION);
    PowZero();
  }

  lemma HugeRate(min: Decimal, rate: Decimal)
    requires min == Decimal(false, 1, 0) && rate == Decimal(false, 1, MAX_EXPONENT)
    ensures ToETH(rate, min) == Ok(rate) && WeiValue(rate, min) > RELAYER_FEE_WEI as real && Val(min) <= Val(MAX_OFFER_VALUE)
    ensures ToETH(rate, MAX_OFFER_VALUE) == Err(Arithmetic(OutOfRange))
  {
    hide Pow, Ten, HalfUp, NumDigits;
    NumDigitsIff(1, 1);
    PowZero();
    TenTimes(0);
    FeeBelowPrecision();
    TenMono(PRECISION, MAX_EXPONENT + ETHER_DECIMALS);
    TenMono(0, 3);
  }

  // ---- identifiers ----

  /** An amount at a rate, in units of 10^-decimals. */
  ghost function Worth(amount: Decimal, rate: Decimal, decimals: nat): (r: real) {
    Val(amount) * Val(rate) * Ten(decimals)
  }

  /** A new offer is accepted, as it is, exactly when its own arguments are good: amounts and rate valid by value, in
      order, at most 1000 XMR, and the minimum worth more than 10^16 wei and below the limit of the arithmetic. */
  lemma NewOfferAccepted(d: Draft, h: Digest)
    ensures Unmarshal(NewOffer(d, h), h).Ok? <==>
            && OfferId(DraftTerms(d), h) != 0
            && Valid(Reduce(d.min), 12) && Valid(Reduce(d.max), 12) && Valid(Reduce(d.rate), 6)
            && Val(d.min) <= Val(d.max) <= 1000.0
            && Reduce(d.rate).exponent <= 100000 && Worth(d.min, d.rate, 0) < MulLimit()
            && Worth(d.min, d.rate, 18) > 10000000000000000.0
    ensures Unmarshal(NewOffer(d, h), h).Ok? ==> Unmarshal(NewOffer(d, h), h) == Ok(NewOffer(d, h))
    ensures var o := NewOffer(d, h);
            && o.version == "1.0.0" && o.coin == d.coin && o.asset == d.asset && o.nonce == d.nonce && o.minAmount.Some? && o.maxAmount.Some? && o.rate.Some?
            && Val(o.minAmount.value) == Val(d.min) && Val(o.maxAmount.value) == Val(d.max) && Val(o.rate.value) == Val(d.rate)
  {
    hide Reduce, Validate, Valid, ValidateField, OfferId, MulLimit, WeiValue, Ten, Val, Worth;
    var o := NewOffer(d, h);
    ReduceTwice(d.min);
    ReduceTwice(d.max);
    ReduceTwice(d.rate);
    ReduceKeeps(d.min);
    ReduceKeeps(d.max);
    ReduceKeeps(d.rate);
    ValidateFieldIff(o.rate, MAX_RATE_DECIMALS);
    ThousandXmr();
    assert TermsOf(o, Reduce(d.min), Reduce(d.max), Reduce(d.rate)) == DraftTerms(d);
    if Valid(Reduce(d.rate), MAX_RATE_DECIMALS) {
      assert Unmarshal(o, h) == Validate(o, h) by { assert o.(rate := Some(Reduce(d.rate))) == o; }
      ValidateIff(o, h);
      if Valid(Reduce(d.min), MONERO_DECIMALS) {
        MinimumWei(d.min, d.rate);
      }
    }
  }

  lemma MinimumWei(min: Decimal, rate: Decimal)
    requires Valid(Reduce(min), MONERO_DECIMALS) && Valid(Reduce(rate), MAX_RATE_DECIMALS)
    ensures WeiValue(Reduce(rate), Reduce(min)) == Worth(min, rate, 18)
    ensures Val(Reduce(min)) * Val(Reduce(rate)) == Worth(min, rate, 0)
  {
    hide Reduce, WeiValue, Ten, Mag, Pow, NumDecimals;
    ReduceKeeps(min);
    ReduceKeeps(rate);
    PositiveVal(Reduce(min), MONERO_DECIMALS);
    PositiveVal(Reduce(rate), MAX_RATE_DECIMALS);
    WeiValueIs(Reduce(rate), Reduce(min));
    TenZero();
    SameProduct(Mag(Reduce(min)), Mag(Reduce(rate)), Val(min), Val(rate), Ten(18));
  }

  lemma SameProduct(a: real, b: real, c: real, d: real, t: real)
    requires a == c && b == d
    ensures a * b * t == c * d * t && a * b == c * d
  {
  }

  lemma PositiveVal(d: Decimal, maxDecimals: nat)
    requires Valid(d, maxDecimals)
    ensures Val(d) == Mag(d)
  {
  }

  lemma ThousandXmr()
    ensures Val(MAX_OFFER_VALUE) == 1000.0
  {
    TenNext(0);
    TenNext(1);
    TenNext(2);
    TenZero();
  }

  /** A new offer's own identifier never stops it from validating. */
  lemma NewOfferIdMatches(d: Draft, h: Digest)
    ensures Unmarshal(NewOffer(d, h), h) != Err(HashMismatch)
  {
    hide Reduce, OfferId, Valid, ToETH, Cmp, RelayerFeeETH, ValidatePositive;
    ReduceTwice(d.min);
    ReduceTwice(d.max);
    ReduceTwice(d.rate);
  }

  /** The same offer: amounts and rate compared by value and not by spelling. */
  ghost predicate SameOffer(d: Draft, e: Draft) {
    && d.coin == e.coin && d.asset == e.asset && d.nonce == e.nonce
    && Val(d.min) == Val(e.min) && Val(d.max) == Val(e.max) && Val(d.rate) == Val(e.rate)
  }

  predicate Collides(s: Terms, t: Terms, h: Digest) {
    OfferId(s, h) == OfferId(t, h) && Preimage(s, h.upper) != Preimage(t, h.upper)
  }

  /** With a hash that does not collide on the two texts, new offers share an identifier exactly when all
      their terms agree. */
  lemma OfferIdIff(d: Draft, e: Draft, h: Digest)
    requires !Collides(DraftTerms(d), DraftTerms(e), h)
    ensures NewOffer(d, h).id == NewOffer(e, h).id <==> SameOffer(d, e)
  {
    hide Preimage, Canonical, SameOffer, DraftTerms;
    SameTerms(d, e);
    CanonicalDraft(d);
    CanonicalDraft(e);
    PreimageInjective(DraftTerms(d), DraftTerms(e), h.upper);
  }

  lemma SameTerms(d: Draft, e: Draft)
    ensures DraftTerms(d) == DraftTerms(e) <==> SameOffer(d, e)
  {
    hide Reduce, Val;
    ReduceValueIff(d.min, e.min);
    ReduceValueIff(d.max, e.max);
    ReduceValueIff(d.rate, e.rate);
  }

  lemma CanonicalDraft(d: Draft)
    ensures Canonical(DraftTerms(d))
  {
    hide Reduce;
    ReduceKeeps(d.min);
    ReduceKeeps(d.max);
    ReduceKeeps(d.rate);
  }

  lemma ReduceValueIff(x: Decimal, y: Decimal)
    ensures Reduce(x) == Reduce(y) <==> Val(x) == Val(y)
  {
    hide Reduce, Val;
    ReduceKeeps(x);
    ReduceKeeps(y);
    if Val(x) == Val(y) { ReducedUnique(Reduce(x), Reduce(y)); }
  }
}
