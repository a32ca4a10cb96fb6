/** What the collateral checks of the VaultManager guarantee in exact arithmetic, with every rounding accounted for. */
module VaultHealth {
  import opened Numerals
  import opened Sums
  import opened Wrappers
  import opened Evm
  import opened VaultModel
  import opened VaultLiquidation

  /** A hundred times the exact USD value of the collateral, and `percent` times that of the debt, both in the units
      of the cleared comparison, in which 1e-18 USD is `UsdUnit`. */
  function Assets(e: Env, v: Vault): (n: nat)
    requires Priced(e, v.asset)
  {
    v.collateral * CollateralWeight(e.price(v.asset).value)
  }

  function Debt(e: Env, v: Vault, percent: nat): (n: nat)
    requires Priced(e, v.asset)
  {
    v.debt * DebtWeight(e.xmrPrice.value, AssetUnit(e, v.asset).value, percent)
  }

  function UsdUnit(e: Env, asset: Asset): (n: nat)
    requires Priced(e, asset)
  {
    AssetUnit(e, asset).value * WSXMR_UNIT
  }

  /** The rounded USD values the contract compares. */
  lemma RatioIs(s: State, e: Env, v: Vault) returns (cv: nat, dv: nat)
    requires v.debt > 0 && CollateralRatio(s, e, v.asset, v.collateral, v.debt).Ok?
    ensures Priced(e, v.asset) && AssetUnit(e, v.asset).value > 0 && dv > 0
    ensures CollateralRatio(s, e, v.asset, v.collateral, v.debt).value == cv * RATIO_PRECISION / dv
    ensures var a, unit := v.collateral * e.price(v.asset).value, AssetUnit(e, v.asset).value;
            cv * unit <= a < cv * unit + unit
    ensures var b := v.debt * e.xmrPrice.value;
            dv * WSXMR_UNIT <= b < dv * WSXMR_UNIT + WSXMR_UNIT
  {
    hide Pow;
    cv := v.collateral * e.price(v.asset).value / AssetUnit(e, v.asset).value;
    dv := v.debt * e.xmrPrice.value / WSXMR_UNIT;
    FloorLe(v.collateral * e.price(v.asset).value, AssetUnit(e, v.asset).value);
    FloorLe(v.debt * e.xmrPrice.value, WSXMR_UNIT);
  }

  /** The two rounded values, weighed. */
  lemma Weighed(e: Env, v: Vault, percent: nat, cv: nat, dv: nat)
    requires Priced(e, v.asset)
    requires var a, unit := v.collateral * e.price(v.asset).value, AssetUnit(e, v.asset).value;
             cv * unit <= a < cv * unit + unit
    requires var b := v.debt * e.xmrPrice.value;
             dv * WSXMR_UNIT <= b < dv * WSXMR_UNIT + WSXMR_UNIT
    ensures var u := UsdUnit(e, v.asset);
            && cv * RATIO_PRECISION * u <= Assets(e, v) < (cv * RATIO_PRECISION + RATIO_PRECISION) * u
            && dv * percent * u <= Debt(e, v, percent) <= (dv * percent + percent) * u
            && (percent > 0 ==> Debt(e, v, percent) < (dv * percent + percent) * u)
  {
    hide AssetUnit, CollateralWeight, DebtWeight;
    var price, xmrPrice, unit := e.price(v.asset).value, e.xmrPrice.value, AssetUnit(e, v.asset).value;
    var a, b := v.collateral * price, v.debt * xmrPrice;
    WeightOfSeized(v.collateral, price, a);
    WeightOfDebt(v.debt, xmrPrice, percent, unit, b);
    WeighCollateral(cv, unit, a, unit * WSXMR_UNIT);
    WeighDebt(dv, percent, unit, b, unit * WSXMR_UNIT);
  }

  lemma WeighCollateral(cv: nat, unit: nat, a: nat, u: nat)
    requires cv * unit <= a < cv * unit + unit && u == unit * WSXMR_UNIT
    ensures cv * RATIO_PRECISION * u <= a * (WSXMR_UNIT * RATIO_PRECISION) < (cv * RATIO_PRECISION + RATIO_PRECISION) * u
  {
    var z := cv * unit;
    assert cv * RATIO_PRECISION * u == z * (WSXMR_UNIT * RATIO_PRECISION);
    assert (cv * RATIO_PRECISION + RATIO_PRECISION) * u == (z + unit) * (WSXMR_UNIT * RATIO_PRECISION);
  }

  lemma WeighDebt(dv: nat, percent: nat, unit: nat, b: nat, u: nat)
    requires dv * WSXMR_UNIT <= b < dv * WSXMR_UNIT + WSXMR_UNIT && u == unit * WSXMR_UNIT && unit > 0
    ensures dv * percent * u <= b * (percent * unit) <= (dv * percent + percent) * u
    ensures percent > 0 ==> b * (percent * unit) < (dv * percent + percent) * u
  {
    var w := percent * unit;
    assert dv * percent * u == dv * WSXMR_UNIT * w by { Shuffle(dv, percent, unit, WSXMR_UNIT, w, u); }
    assert (dv * percent + percent) * u == (dv + 1) * WSXMR_UNIT * w by {
      Shuffle(dv + 1, percent, unit, WSXMR_UNIT, w, u);
      assert (dv + 1) * percent == dv * percent + percent;
    }
    MulLe(dv * WSXMR_UNIT, b, w);
    MulLe(b, (dv + 1) * WSXMR_UNIT, w);
    if percent > 0 {
      MulLe(1, percent, unit);
      MulLe(b + 1, (dv + 1) * WSXMR_UNIT, w);
    }
  }

  lemma Shuffle(a: nat, p: nat, u: nat, k: nat, pu: nat, uk: nat)
    requires pu == p * u && uk == u * k
    ensures a * p * uk == a * k * pu
  {
    assert a * p * (u * k) == a * k * (p * u);
  }

  /** Exactly when the contract can rate a vault: prices, and no overflow or zero divisor on the way. */
  lemma RatioOkIff(s: State, e: Env, asset: Asset, collateral: nat, debt: nat)
    ensures CollateralRatio(s, e, asset, collateral, debt).Ok? <==>
            debt == 0 ||
            (&& asset in s.supported && e.price(asset).Some? && e.xmrPrice.Some?
             && Pow(10, if asset == 0 then 18 else e.decimals(asset)) <= MAX_UINT
             && collateral * e.price(asset).value <= MAX_UINT && WSXMR_UNIT <= debt * e.xmrPrice.value <= MAX_UINT
             && collateral * e.price(asset).value / Pow(10, if asset == 0 then 18 else e.decimals(asset)) * 100 <= MAX_UINT)
    ensures debt == 0 ==> CollateralRatio(s, e, asset, collateral, debt) == Ok(MAX_UINT)
  {
    hide Pow;
    if e.xmrPrice.Some? { DivBelow(debt * e.xmrPrice.value, WSXMR_UNIT, 1); }
  }

  /** Exactly when the contract can price collateral for a debt. */
  lemma CollateralForOkIff(s: State, e: Env, asset: Asset, debt: nat, percent: nat)
    ensures CollateralFor(s, e, asset, debt, percent).Ok? <==>
            && e.xmrPrice.Some? && asset in s.supported && e.price(asset).Some? && e.price(asset).value > 0
            && Pow(10, if asset == 0 then 18 else e.decimals(asset)) <= MAX_UINT
            && debt * e.xmrPrice.value <= MAX_UINT && debt * e.xmrPrice.value / 100000000 * percent <= MAX_UINT
            && debt * e.xmrPrice.value / 100000000 * percent / 100 * Pow(10, if asset == 0 then 18 else e.decimals(asset)) <= MAX_UINT
  {
    hide Pow;
  }

  /** Comparing the rounded ratio with a whole percentage is the comparison of the two rounded USD values, exactly. */
  lemma RatioIff(s: State, e: Env, v: Vault, percent: nat)
    requires v.debt > 0 && CollateralRatio(s, e, v.asset, v.collateral, v.debt).Ok?
    ensures Priced(e, v.asset) && AssetUnit(e, v.asset).value > 0
    ensures CollateralRatio(s, e, v.asset, v.collateral, v.debt).value >= percent
       <==> v.collateral * e.price(v.asset).value / AssetUnit(e, v.asset).value * RATIO_PRECISION
            >= (v.debt * e.xmrPrice.value / WSXMR_UNIT) * percent
  {
    hide Pow;
    DivBelow(v.collateral * e.price(v.asset).value / AssetUnit(e, v.asset).value * RATIO_PRECISION,
             v.debt * e.xmrPrice.value / WSXMR_UNIT, percent);
  }

  /** A vault whose contract ratio is at least P% is worth more than P% of its debt less 1e-18 USD of it; one below P%
      is worth less than P% of its debt plus 99e-20 USD. */
  lemma RatioExact(s: State, e: Env, v: Vault, percent: nat)
    requires v.debt > 0 && percent > 0 && CollateralRatio(s, e, v.asset, v.collateral, v.debt).Ok?
    ensures Priced(e, v.asset)
    ensures var ratio, u := CollateralRatio(s, e, v.asset, v.collateral, v.debt).value, UsdUnit(e, v.asset);
            && (ratio >= percent ==> Assets(e, v) + percent * u > Debt(e, v, percent))
            && (ratio < percent ==> Assets(e, v) < Debt(e, v, percent) + (RATIO_PRECISION - 1) * u)
  {
    hide CollateralRatio, AssetUnit, Assets, Debt;
    var cv, dv := RatioIs(s, e, v);
    Weighed(e, v, percent, cv, dv);
    DivBelow(cv * RATIO_PRECISION, dv, percent);
    var u := UsdUnit(e, v.asset);
    if cv * RATIO_PRECISION >= dv * percent {
      MulLe(dv * percent, cv * RATIO_PRECISION, u);
      Spread(dv * percent, percent, u);
    } else {
      MulLe(cv * RATIO_PRECISION + RATIO_PRECISION, dv * percent + (RATIO_PRECISION - 1), u);
      Spread(dv * percent, RATIO_PRECISION - 1, u);
    }
  }

  /** One whole percentage point in the contract's ratio absorbs all roundings, as soon as the debt is worth P times
      1e-18 USD: then the vault is worth P% of its debt exactly. */
  lemma ReadableCover(s: State, e: Env, v: Vault, percent: nat)
    requires v.debt > 0 && CollateralRatio(s, e, v.asset, v.collateral, v.debt).Ok?
    requires CollateralRatio(s, e, v.asset, v.collateral, v.debt).value > percent
    requires e.xmrPrice.Some? && v.debt * e.xmrPrice.value >= percent * WSXMR_UNIT
    ensures Priced(e, v.asset) && Covered(e, v, percent)
  {
    hide CollateralRatio, AssetUnit, CollateralWeight, DebtWeight;
    var cv, dv := RatioIs(s, e, v);
    Weighed(e, v, percent, cv, dv);
    DivBelow(cv * RATIO_PRECISION, dv, percent + 1);
    assert dv >= percent;
    assert dv * (percent + 1) == dv * percent + dv;
    MulLe(dv * percent + percent, cv * RATIO_PRECISION, UsdUnit(e, v.asset));
  }

  /** So a liquidation of a vault the contract itself rates at 111% or more never lowers its ratio. */
  lemma RatedVaultKeepsRatio(s: State, e: Env, lp: Address, debtToClear: nat)
    requires Liquidate(s, e, lp, debtToClear).Ok? && lp in s.vaults
    requires var v := s.vaults[lp];
             && CollateralRatio(s, e, v.asset, v.collateral, v.debt).Ok?
             && CollateralRatio(s, e, v.asset, v.collateral, v.debt).value > LIQUIDATION_BONUS
             && e.xmrPrice.Some? && v.debt * e.xmrPrice.value >= LIQUIDATION_BONUS * WSXMR_UNIT
    ensures lp in Liquidate(s, e, lp, debtToClear).value.vaults
    ensures RatioNotLower(s.vaults[lp], Liquidate(s, e, lp, debtToClear).value.vaults[lp])
  {
    hide CollateralRatio, AssetUnit, Covered, Liquidate, RatioNotLower, CollateralFor;
    var v := s.vaults[lp];
    LiquidationMoves(s, e, lp, debtToClear);
    ReadableCover(s, e, v, LIQUIDATION_BONUS);
    LiquidationKeepsRatio(s, e, lp, debtToClear);
  }

  /** A mint is accepted only against a vault that exactly covers 150% of its debt with the new amount included, to
      within 1e-18 USD; it changes no vault and no balance yet. */
  lemma MintNeedsCover(s: State, e: Env, id: Id, lp: Address, xmrAmount: nat, commitment: nat, duration: nat)
    requires InitiateMint(s, e, id, lp, xmrAmount, commitment, duration).Ok?
    ensures lp in s.vaults
    ensures var v := s.vaults[lp].(debt := s.vaults[lp].debt + xmrAmount / XMR_PER_WSXMR);
            v.debt > 0 ==>
              && Priced(e, v.asset)
              && Assets(e, v) + COLLATERAL_RATIO * UsdUnit(e, v.asset) > Debt(e, v, COLLATERAL_RATIO)
    ensures var t := InitiateMint(s, e, id, lp, xmrAmount, commitment, duration).value;
            && t == s.(mints := t.mints) && id !in s.mints && t.mints - {id} == s.mints
            && t.mints[id].wsxmrAmount * XMR_PER_WSXMR <= xmrAmount < (t.mints[id].wsxmrAmount + 1) * XMR_PER_WSXMR
  {
    hide CollateralRatio, AssetUnit, Assets, Debt;
    var v := s.vaults[lp].(debt := s.vaults[lp].debt + xmrAmount / XMR_PER_WSXMR);
    if v.debt > 0 { RatioExact(s, e, v, COLLATERAL_RATIO); }
    var t := InitiateMint(s, e, id, lp, xmrAmount, commitment, duration).value;
    assert t.mints - {id} == s.mints;
  }

  /** A vault that still owes something exactly covers 150% of it after every withdrawal, to within 1e-18 USD. */
  lemma WithdrawLeavesCover(s: State, e: Env, amount: nat)
    requires WithdrawCollateral(s, e, amount).Ok?
    ensures var t := WithdrawCollateral(s, e, amount).value;
            && e.sender in s.vaults && t.vaults.Keys == s.vaults.Keys
            && var v, w := s.vaults[e.sender], t.vaults[e.sender];
               && w == v.(collateral := v.collateral - amount)
               && (w.debt > 0 ==>
                     && Priced(e, w.asset)
                     && Assets(e, w) + COLLATERAL_RATIO * UsdUnit(e, w.asset) > Debt(e, w, COLLATERAL_RATIO))
  {
    hide CollateralRatio, AssetUnit, At, Assets, Debt;
    var v := s.vaults[e.sender];
    if v.debt > 0 { RatioExact(s, e, v.(collateral := v.collateral - amount), COLLATERAL_RATIO); }
  }

  /** Only a vault short of 120%, to within 99e-20 USD, can be liquidated, and the keeper gives up exactly the debt
      cleared and receives exactly the collateral that leaves. */
  lemma LiquidationNeedsShortfall(s: State, e: Env, lp: Address, debtToClear: nat)
    requires Liquidate(s, e, lp, debtToClear).Ok?
    ensures var t := Liquidate(s, e, lp, debtToClear).value;
            && lp in s.vaults && lp in t.vaults
            && var v, w := s.vaults[lp], t.vaults[lp];
               && Priced(e, v.asset)
               && Assets(e, v) < Debt(e, v, LIQUIDATION_RATIO) + (RATIO_PRECISION - 1) * UsdUnit(e, v.asset)
               && w.debt == v.debt - DebtCleared(v, debtToClear)
               && At(s.balances, e.sender) - At(t.balances, e.sender) == v.debt - w.debt
               && At(s.holdings, v.asset) - At(t.holdings, v.asset) == v.collateral - w.collateral
               && At(t.paid, (e.sender, v.asset)) - At(s.paid, (e.sender, v.asset)) == v.collateral - w.collateral
  {
    hide CollateralRatio, AssetUnit, CollateralFor, Assets, Debt;
    RatioExact(s, e, s.vaults[lp], LIQUIDATION_RATIO);
  }
}
