/** Offers as records holding their decimals by reference. */
module OfferRecords {
  import opened Wrappers
  import opened Decimals
  import opened DecimalArith
  import opened Coins
  import opened ExchangeRates
  import opened OfferText
  import opened DecimalCells
  import Offers

  class OfferRecord {
    var id: Offers.Hash
    var version: string
    var coin: Coin
    var minAmount: Cell?
    var maxAmount: Cell?
    var rate: Cell?
    var asset: EthAddress
    var nonce: nat

    static ghost function Held(c: Cell?): (d: Option<Decimal>)
      reads c
    {
      if c == null then None else Some(c.d)
    }

    ghost function View(): (o: Offers.Offer)
      reads this, minAmount, maxAmount, rate
    {
      Offers.Offer(id, version, coin, Held(minAmount), Held(maxAmount), Held(rate), asset, nonce)
    }

    /** Reduces its three decimal arguments in place, keeps references to them, then sets the identifier. */
    constructor (coin: Coin, min: Cell, max: Cell, rate: Cell, asset: EthAddress, nonce: nat, h: Offers.Digest)
      modifies min, max, rate
      ensures minAmount == min && maxAmount == max && this.rate == rate
      ensures View() == Offers.NewOffer(Offers.Draft(coin, old(min.d), old(max.d), old(rate.d), asset, nonce), h)
      ensures Val(min.d) == old(Val(min.d)) && Val(max.d) == old(Val(max.d)) && Val(rate.d) == old(Val(rate.d))
    {
      hide Reduce, Val, Offers.OfferId;
      id, version, this.coin, this.asset, this.nonce := 0, Offers.CURRENT_VERSION, coin, asset, nonce;
      minAmount, maxAmount, this.rate := min, max, rate;
      new;
      ReduceTwice(min.d);
      ReduceTwice(max.d);
      ReduceTwice(rate.d);
      ReduceInPlace(min);
      ReduceTwice(max.d);
      ReduceInPlace(max);
      ReduceTwice(rate.d);
      ReduceInPlace(rate);
      id := Offers.OfferId(Terms(version, coin, min.d, max.d, rate.d, asset, nonce), h);
    }

    /** Rejects like the specification and leaves the amounts reduced, never with another value. */
    method Validate(h: Offers.Digest) returns (err: Option<Offers.OfferError>)
      requires rate != null ==> rate != minAmount && rate != maxAmount
      modifies minAmount, maxAmount
      ensures err.None? ==> Offers.Validate(old(View()), h) == Ok(View())
      ensures err.Some? ==> Offers.Validate(old(View()), h) == Err(err.value)
      ensures minAmount != null ==> Val(minAmount.d) == old(Val(minAmount.d))
      ensures maxAmount != null ==> Val(maxAmount.d) == old(Val(maxAmount.d))
    {
      hide Reduce, Val, Offers.OfferId, ValidatePositive, ToAsset, Cmp, Offers.RelayerFeeETH;
      if id == 0 { return Some(Offers.IdNotSet); }
      var e := DecimalCells.Validate(minAmount, MONERO_DECIMALS);
      if e.Some? { return Some(Offers.BadMinimum(e.value)); }
      if minAmount == maxAmount { Revalidates(old(minAmount.d)); }
      e := DecimalCells.Validate(maxAmount, MONERO_DECIMALS);
      if e.Some? { return Some(Offers.BadMaximum(e.value)); }
      if Cmp(minAmount.d, maxAmount.d) > 0 { return Some(Offers.MinAboveMax); }
      if rate == null { return Some(Offers.RateNotSet); }
      var eth := ConvertToAsset(rate, minAmount, ETHER_DECIMALS);
      if eth.Err? { return Some(Offers.Conversion(eth.error)); }
      if Cmp(eth.value.d, Offers.RelayerFeeETH()) <= 0 { return Some(Offers.BelowRelayerFee); }
      if Cmp(maxAmount.d, Offers.MAX_OFFER_VALUE) > 0 { return Some(Offers.AboveMaximum); }
      if id != Offers.OfferId(Terms(version, coin, minAmount.d, maxAmount.d, rate.d, asset, nonce), h) {
        return Some(Offers.HashMismatch);
      }
      return None;
    }

    /** When both amounts are one shared decimal, the second check sees it already reduced. */
    static lemma Revalidates(d: Decimal)
      requires ValidatePositive(d, MONERO_DECIMALS).None?
      ensures ValidatePositive(Reduce(d), MONERO_DECIMALS).None? && Reduce(Reduce(d)) == Reduce(d)
    {
      ValidatePositiveIff(d, MONERO_DECIMALS);
      ReduceTwice(d);
    }
  }
}
