/** Liquidating or burning against a vault removes debt together with collateral worth a fixed
    percentage of it, computed with four floor divisions. */
module VaultLiquidation {
  import opened Numerals
  import opened Wrappers
  import opened Evm
  import opened VaultModel

  /** The weights of collateral and debt in an exact comparison at `percent`:
      C * price / unit against percent/100 * D * xmrPrice / 1e8, with the denominators cleared. */
  function CollateralWeight(price: nat): (k: nat) {
    price * (WSXMR_UNIT * RATIO_PRECISION)
  }

  function DebtWeight(xmrPrice: nat, unit: nat, percent: nat): (m: nat) {
    xmrPrice * (percent * unit)
  }

  /** Collateral is worth at least `percent` of the debt, without any rounding. */
  predicate ExactRatioAtLeast(v: Vault, price: nat, xmrPrice: nat, unit: nat, percent: nat) {
    v.collateral * CollateralWeight(price) >= v.debt * DebtWeight(xmrPrice, unit, percent)
  }

  /** The exact ratio of `w` is no lower than that of `v`; a vault without debt is above any other. */
  predicate RatioNotLower(v: Vault, w: Vault) {
    w.collateral * v.debt >= v.collateral * w.debt
  }

  lemma FloorLe(a: nat, d: nat)
    requires d > 0
    ensures a / d * d <= a < a / d * d + d
  {
  }

  lemma MulLe(a: int, b: int, k: nat)
    requires a <= b
    ensures a * k <= b * k
  {
  }

  /** What three roundings down leave of the exact value, in the units of the comparison. */
  function Rounding(price: nat, unit: nat, percent: nat): (n: int) {
    percent * unit * (WSXMR_UNIT - 1) + (RATIO_PRECISION - 1) * unit * WSXMR_UNIT + RATIO_PRECISION * WSXMR_UNIT * (price - 1)
  }

  /** Three roundings down never favour the keeper, and cost at most the rounding. */
  lemma SeizedValue(debt: nat, xmrPrice: nat, percent: nat, unit: nat, price: nat)
    requires price > 0
    ensures var x := debt * xmrPrice / WSXMR_UNIT * percent / RATIO_PRECISION * unit / price;
            && x * CollateralWeight(price) <= debt * DebtWeight(xmrPrice, unit, percent)
            && debt * DebtWeight(xmrPrice, unit, percent) - Rounding(price, unit, percent) <= x * CollateralWeight(price)
  {
    var dv := debt * xmrPrice / WSXMR_UNIT;
    var usd := dv * percent / RATIO_PRECISION;
    var x := usd * unit / price;
    FloorLe(debt * xmrPrice, WSXMR_UNIT);
    FloorLe(dv * percent, RATIO_PRECISION);
    FloorLe(usd * unit, price);
    SeizedScaled(debt * xmrPrice, dv, dv * percent, usd, usd * unit, x, x * price, unit, percent, price);
    WeightOfSeized(x, price, x * price);
    WeightOfDebt(debt, xmrPrice, percent, unit, debt * xmrPrice);
  }

  lemma WeightOfSeized(x: nat, price: nat, z: nat)
    requires z == x * price
    ensures x * CollateralWeight(price) == z * (WSXMR_UNIT * RATIO_PRECISION)
  {
    MulAssoc(x, price, WSXMR_UNIT * RATIO_PRECISION);
  }

  lemma WeightOfDebt(debt: nat, xmrPrice: nat, percent: nat, unit: nat, z: nat)
    requires z == debt * xmrPrice
    ensures debt * DebtWeight(xmrPrice, unit, percent) == z * (percent * unit)
  {
    MulAssoc(debt, xmrPrice, percent * unit);
  }

  /** The chain of the three floors, every product named. */
  lemma SeizedScaled(b: nat, dv: nat, dvp: nat, usd: nat, usdUnit: nat, x: nat, xp: nat, unit: nat, percent: nat, price: nat)
    requires dv * WSXMR_UNIT <= b < dv * WSXMR_UNIT + WSXMR_UNIT && dvp == dv * percent
    requires usd * RATIO_PRECISION <= dvp < usd * RATIO_PRECISION + RATIO_PRECISION && usdUnit == usd * unit
    requires xp <= usdUnit < xp + price
    ensures xp * (WSXMR_UNIT * RATIO_PRECISION) <= b * (percent * unit)
    ensures b * (percent * unit) - Rounding(price, unit, percent) <= xp * (WSXMR_UNIT * RATIO_PRECISION)
  {
    var pu := percent * unit;
    assert dvp * unit == dv * pu by { MulAssoc(dv, percent, unit); }
    assert usdUnit * RATIO_PRECISION == usd * RATIO_PRECISION * unit by { Swapped(usd, unit, RATIO_PRECISION); }
    MulLe(usd * RATIO_PRECISION, dvp, unit);
    MulLe(dvp, usd * RATIO_PRECISION + (RATIO_PRECISION - 1), unit);
    Spread(usd * RATIO_PRECISION, RATIO_PRECISION - 1, unit);
    MulLe(dv * WSXMR_UNIT, b, pu);
    MulLe(b, dv * WSXMR_UNIT + (WSXMR_UNIT - 1), pu);
    Spread(dv * WSXMR_UNIT, WSXMR_UNIT - 1, pu);
    assert dv * WSXMR_UNIT * pu == dv * pu * WSXMR_UNIT by { Swapped(dv, WSXMR_UNIT, pu); }
  }

  lemma Swapped(a: int, b: int, c: int)
    ensures a * b * c == a * c * b
  {
  }

  lemma Spread(a: int, b: int, c: int)
    ensures (a + b) * c == a * c + b * c
  {
  }

  /** Removing x of the collateral with d of the debt keeps the ratio exactly when x takes no more than d's share. */
  lemma RemovalIff(c: nat, debt: nat, x: nat, d: nat)
    requires x <= c && d <= debt
    ensures (c - x) * debt >= c * (debt - d) <==> x * debt <= c * d
  {
    assert (c - x) * debt == c * debt - x * debt;
    assert c * (debt - d) == c * debt - c * d;
  }

  /** Taking d of the debt with collateral worth at most `percent` of it, from a vault worth at least
      `percent`, is always affordable and takes no more than d's share. */
  lemma FairShare(c: nat, debt: nat, x: nat, d: nat, k: nat, m: nat, ck: nat, dm: nat, xk: nat, bm: nat)
    requires ck == c * k && bm == debt * m && xk == x * k && dm == d * m
    requires k > 0 && d <= debt && ck >= bm && xk <= dm
    ensures x <= c && x * debt <= c * d
  {
    assert xk <= ck by { MulLe(d, debt, m); }
    if x > c { MulLe(c + 1, x, k); }
    assert x * debt * k <= c * d * k by {
      MulLe(xk, dm, debt);
      MulLe(bm, ck, d);
      assert dm * debt == bm * d by { Swapped(d, m, debt); Swapped(debt, m, d); }
      Swapped(x, debt, k);
      Swapped(c, d, k);
    }
    if x * debt > c * d { MulLe(c * d + 1, x * debt, k); }
  }

  /** From a vault worth less than that, by more than the rounding, it takes more than d's share. */
  lemma UnfairShare(c: nat, debt: nat, x: nat, d: nat, k: nat, low: int, xk: nat)
    requires xk == x * k && low <= xk && c * k * d < debt * low
    ensures x * debt > c * d
  {
    assert x * debt * k > c * d * k by {
      MulLe(low, xk, debt);
      assert debt * low == low * debt && xk * debt == x * debt * k by { Swapped(x, k, debt); }
      Swapped(c, k, d);
    }
    if x * debt <= c * d { MulLe(x * debt, c * d, k); }
  }

  /** Whether the call reached the point of pricing the removed collateral, and with what result. */
  lemma PricedRemoval(s: State, e: Env, asset: Asset, debt: nat, percent: nat)
    requires CollateralFor(s, e, asset, debt, percent).Ok?
    ensures e.xmrPrice.Some? && e.price(asset).Some? && e.price(asset).value > 0 && AssetUnit(e, asset).Ok?
    ensures CollateralFor(s, e, asset, debt, percent).value
         == debt * e.xmrPrice.value / WSXMR_UNIT * percent / RATIO_PRECISION * AssetUnit(e, asset).value / e.price(asset).value
  {
  }

  predicate Priced(e: Env, asset: Asset) {
    e.price(asset).Some? && e.xmrPrice.Some? && AssetUnit(e, asset).Ok?
  }

  /** The exact comparison at the prices of a call. */
  predicate Covered(e: Env, v: Vault, percent: nat)
    requires Priced(e, v.asset)
  {
    ExactRatioAtLeast(v, e.price(v.asset).value, e.xmrPrice.value, AssetUnit(e, v.asset).value, percent)
  }

  lemma RemovalFromVault(s: State, e: Env, v: Vault, d: nat, percent: nat)
    requires CollateralFor(s, e, v.asset, d, percent).Ok? && d <= v.debt && Priced(e, v.asset) && Covered(e, v, percent)
    ensures var x := CollateralFor(s, e, v.asset, d, percent).value;
            x <= v.collateral && RatioNotLower(v, v.(collateral := v.collateral - x, debt := v.debt - d))
  {
    hide CollateralFor, AssetUnit, CollateralWeight, DebtWeight;
    var price, xmrPrice, unit := e.price(v.asset).value, e.xmrPrice.value, AssetUnit(e, v.asset).value;
    var x := CollateralFor(s, e, v.asset, d, percent).value;
    PricedRemoval(s, e, v.asset, d, percent);
    assert x * CollateralWeight(price) <= d * DebtWeight(xmrPrice, unit, percent) by { SeizedValue(d, xmrPrice, percent, unit, price); }
    WeightPositive(price);
    RemovedShare(v, x, d, CollateralWeight(price), DebtWeight(xmrPrice, unit, percent));
  }

  lemma WeightPositive(price: nat)
    requires price > 0
    ensures CollateralWeight(price) > 0
  {
  }

  lemma RemovedShare(v: Vault, x: nat, d: nat, k: nat, m: nat)
    requires k > 0 && d <= v.debt && v.collateral * k >= v.debt * m && x * k <= d * m
    ensures x <= v.collateral && RatioNotLower(v, v.(collateral := v.collateral - x, debt := v.debt - d))
  {
    FairShare(v.collateral, v.debt, x, d, k, m, v.collateral * k, d * m, x * k, v.debt * m);
    RemovalIff(v.collateral, v.debt, x, d);
  }

  function DebtCleared(v: Vault, debtToClear: nat): (d: nat) {
    if debtToClear > v.debt then v.debt else debtToClear
  }

  /** What a liquidation does to the vault, with the clamp spelled out. */
  lemma LiquidationMoves(s: State, e: Env, lp: Address, debtToClear: nat)
    requires Liquidate(s, e, lp, debtToClear).Ok?
    ensures lp in s.vaults && Priced(e, s.vaults[lp].asset)
    ensures var v := s.vaults[lp];
            var d := DebtCleared(v, debtToClear);
            var wanted := CollateralFor(s, e, v.asset, d, LIQUIDATION_BONUS);
            && d > 0 && wanted.Ok?
            && lp in Liquidate(s, e, lp, debtToClear).value.vaults
            && Liquidate(s, e, lp, debtToClear).value.vaults[lp]
               == v.(collateral := if wanted.value > v.collateral then 0 else v.collateral - wanted.value, debt := v.debt - d)
  {
    hide CollateralFor, CollateralRatio, AssetUnit;
    var v := s.vaults[lp];
    PricedRemoval(s, e, v.asset, DebtCleared(v, debtToClear), LIQUIDATION_BONUS);
  }

  /** A liquidatable vault still worth 110% of its debt: any liquidation, partial or not, takes exactly
      the priced bonus, never the clamp, and leaves the ratio no lower. */
  lemma LiquidationKeepsRatio(s: State, e: Env, lp: Address, debtToClear: nat)
    requires Liquidate(s, e, lp, debtToClear).Ok?
    requires lp in s.vaults && Priced(e, s.vaults[lp].asset) && Covered(e, s.vaults[lp], LIQUIDATION_BONUS)
    ensures var v, t := s.vaults[lp], Liquidate(s, e, lp, debtToClear).value;
            var d := DebtCleared(v, debtToClear);
            && lp in t.vaults && t.vaults[lp].debt == v.debt - d
            && CollateralFor(s, e, v.asset, d, LIQUIDATION_BONUS) == Ok(v.collateral - t.vaults[lp].collateral)
            && RatioNotLower(v, t.vaults[lp])
  {
    hide CollateralFor, Liquidate, AssetUnit, ExactRatioAtLeast, RatioNotLower;
    LiquidationMoves(s, e, lp, debtToClear);
    RemovalFromVault(s, e, s.vaults[lp], DebtCleared(s.vaults[lp], debtToClear), LIQUIDATION_BONUS);
  }

  /** The same for burns: against a vault worth 120% of its debt, moving the 120% escrow aside never
      lowers the ratio of what stays. */
  lemma BurnKeepsRatio(s: State, e: Env, id: Id, amount: nat, lp: Address, commitment: nat)
    requires InitiateBurn(s, e, id, amount, lp, commitment).Ok?
    requires lp in s.vaults && Priced(e, s.vaults[lp].asset) && Covered(e, s.vaults[lp], LIQUIDATION_RATIO)
    ensures lp in InitiateBurn(s, e, id, amount, lp, commitment).value.vaults
    ensures RatioNotLower(s.vaults[lp], InitiateBurn(s, e, id, amount, lp, commitment).value.vaults[lp])
  {
    hide CollateralFor, AssetUnit, ExactRatioAtLeast, RatioNotLower;
    RemovalFromVault(s, e, s.vaults[lp], amount, LIQUIDATION_RATIO);
  }

  /** Exactly when a liquidation leaves the ratio no lower: it clears all the debt, there was no collateral to
      lose, or the priced bonus is no more than the cleared debt's share of the collateral. */
  lemma LiquidationKeepsRatioIff(s: State, e: Env, lp: Address, debtToClear: nat)
    requires Liquidate(s, e, lp, debtToClear).Ok?
    ensures lp in s.vaults && lp in Liquidate(s, e, lp, debtToClear).value.vaults
    ensures var v := s.vaults[lp];
            var d := DebtCleared(v, debtToClear);
            var wanted := CollateralFor(s, e, v.asset, d, LIQUIDATION_BONUS);
            && wanted.Ok?
            && (RatioNotLower(v, Liquidate(s, e, lp, debtToClear).value.vaults[lp])
                <==> d == v.debt || v.collateral == 0 || wanted.value * v.debt <= v.collateral * d)
  {
    hide CollateralFor, Liquidate, AssetUnit;
    LiquidationMoves(s, e, lp, debtToClear);
    var v := s.vaults[lp];
    var d := DebtCleared(v, debtToClear);
    var wanted := CollateralFor(s, e, v.asset, d, LIQUIDATION_BONUS).value;
    if wanted > v.collateral { ClampedShare(v.collateral, v.debt, wanted, d); } else { RemovalIff(v.collateral, v.debt, wanted, d); }
    if v.collateral == 0 || d == v.debt { ZeroShare(v.collateral, v.debt, d); }
  }

  /** A clamped partial liquidation takes everything and leaves debt behind. */
  lemma ClampedShare(c: nat, debt: nat, wanted: nat, d: nat)
    requires wanted > c && d <= debt && debt > 0
    ensures wanted * debt > c * d
    ensures 0 >= c * (debt - d) <==> d == debt || c == 0
  {
    MulLe(c + 1, wanted, debt);
    assert (c + 1) * debt == c * debt + debt && c * d == d * c && c * debt == debt * c;
    MulLe(d, debt, c);
    if c > 0 && d < debt { MulLe(1, debt - d, c); assert c * (debt - d) == (debt - d) * c; }
  }

  lemma ZeroShare(c: nat, debt: nat, d: nat)
    requires d == debt || c == 0
    ensures c * (debt - d) == 0
  {
  }

  /** A partial liquidation of a vault short of 110%, by more than the rounding of the prices, always lowers the
      ratio, clamped or not. */
  lemma LiquidationLowersRatio(s: State, e: Env, lp: Address, debtToClear: nat)
    requires Liquidate(s, e, lp, debtToClear).Ok? && lp in s.vaults && Priced(e, s.vaults[lp].asset)
    requires var v := s.vaults[lp];
             var price, xmrPrice, unit := e.price(v.asset).value, e.xmrPrice.value, AssetUnit(e, v.asset).value;
             && v.collateral > 0 && debtToClear < v.debt
             && v.collateral * CollateralWeight(price) * debtToClear
                < v.debt * (debtToClear * DebtWeight(xmrPrice, unit, LIQUIDATION_BONUS) - Rounding(price, unit, LIQUIDATION_BONUS))
    ensures lp in Liquidate(s, e, lp, debtToClear).value.vaults
    ensures !RatioNotLower(s.vaults[lp], Liquidate(s, e, lp, debtToClear).value.vaults[lp])
  {
    hide CollateralFor, Liquidate, AssetUnit, RatioNotLower, CollateralWeight, DebtWeight, Rounding;
    var v := s.vaults[lp];
    var price, xmrPrice, unit := e.price(v.asset).value, e.xmrPrice.value, AssetUnit(e, v.asset).value;
    LiquidationKeepsRatioIff(s, e, lp, debtToClear);
    PricedRemoval(s, e, v.asset, debtToClear, LIQUIDATION_BONUS);
    SeizedValue(debtToClear, xmrPrice, LIQUIDATION_BONUS, unit, price);
    var x := CollateralFor(s, e, v.asset, debtToClear, LIQUIDATION_BONUS).value;
    UnfairShare(v.collateral, v.debt, x, debtToClear, CollateralWeight(price),
                debtToClear * DebtWeight(xmrPrice, unit, LIQUIDATION_BONUS) - Rounding(price, unit, LIQUIDATION_BONUS),
                x * CollateralWeight(price));
  }

  // ---- a run in which it happens ----

  const MON: nat := 1_000_000_000_000_000_000

  lemma MonUnit()
    ensures Pow(10, 18) == MON
  {
    PowAdd(10, 9, 9);
    assert Pow(10, 9) == 1_000_000_000;
  }

  /** XMR at 100 USD and MON at the given price. */
  function Market(sender: Address, value: nat, monPrice: nat): (e: Env) {
    Env(sender, 0, value, Some(100 * MON), _ => Some(monPrice), _ => 18, (_, _) => true)
  }

  /** Provider 7 opens a vault with 300 MON; user 9 mints 2 wsXMR at 1 USD per MON. */
  function MintingSteps(): (steps: seq<(Env, Call)>) {
    [(Market(7, 0, MON), CallCreateVault(0)),
     (Market(7, 300 * MON, MON), CallDeposit(300 * MON)),
     (Market(9, 0, MON), CallInitiateMint(1, 7, 2 * WSXMR_UNIT * XMR_PER_WSXMR, 5, 100)),
     (Market(7, 0, MON), CallSetMintReady(1)),
     (Market(9, 0, MON), CallFinalizeMint(1, 3))]
  }

  lemma RunNext(s: State, steps: seq<(Env, Call)>, n: nat)
    requires n < |steps|
    ensures Run(s, steps[..n + 1]) == Step(Run(s, steps[..n]), steps[n].0, steps[n].1)
  {
    hide Step;
    assert steps[..n + 1][..n] == steps[..n];
  }

  lemma AfterDeposit()
    ensures var s := Run(Initial(1), MintingSteps()[..2]);
            s == Initial(1).(vaults := map[7 := Vault(0, 300 * MON, 0)], holdings := map[0 := 300 * MON], log := [Deposited(7, 0, 300 * MON)])
  {
    hide Run;
    var steps := MintingSteps();
    RunNext(Initial(1), steps, 0);
    RunNext(Initial(1), steps, 1);
    RunNone(Initial(1));
    assert steps[..0] == [];
    assert Run(Initial(1), steps[..1]) == Initial(1).(vaults := map[7 := Vault(0, 0, 0)]);
  }

  lemma RunNone(s: State)
    ensures Run(s, []) == s
  {
  }

  lemma AfterMint()
    ensures var s := Run(Initial(1), MintingSteps());
            && s.vaults == map[7 := Vault(0, 300 * MON, 2 * WSXMR_UNIT)] && s.supported == {0}
            && s.balances == map[9 := 2 * WSXMR_UNIT] && s.supply == 2 * WSXMR_UNIT && s.holdings == map[0 := 300 * MON]
  {
    hide Run, CollateralRatio;
    var steps := MintingSteps();
    AfterDeposit();
    MintRatio(Run(Initial(1), steps[..2]), Market(9, 0, MON));
    RunNext(Initial(1), steps, 2);
    RunNext(Initial(1), steps, 3);
    RunNext(Initial(1), steps, 4);
    assert steps[..5] == steps;
    var s2 := Run(Initial(1), steps[..2]);
    var q := MintRequest(9, 7, 2 * WSXMR_UNIT * XMR_PER_WSXMR, 2 * WSXMR_UNIT, 5, 100, MintPending);
    assert Run(Initial(1), steps[..3]) == s2.(mints := map[1 := q]);
    assert Run(Initial(1), steps[..4]) == s2.(mints := map[1 := q.(status := MintReady)]);
  }

  /** Below 110% the guarantee is lost, in a run of the contract: when MON falls to 0.55 USD the vault is worth
      82.5% of its debt, and clearing half the debt takes 200 of its 300 MON. */
  lemma LiquidationBelowBonusLowersRatio()
    ensures var s, e := Run(Initial(1), MintingSteps()), Market(9, 0, 55 * MON / 100);
            && Liquidate(s, e, 7, WSXMR_UNIT).Ok?
            && s.vaults == map[7 := Vault(0, 300 * MON, 2 * WSXMR_UNIT)]
            && Liquidate(s, e, 7, WSXMR_UNIT).value.vaults == map[7 := Vault(0, 100 * MON, WSXMR_UNIT)]
            && !RatioNotLower(s.vaults[7], Liquidate(s, e, 7, WSXMR_UNIT).value.vaults[7])
  {
    hide Run, LiquidationTerms, MintingSteps;
    AfterMint();
    HalfTerms(Run(Initial(1), MintingSteps()), Market(9, 0, 55 * MON / 100));
  }

  lemma HalfTerms(s: State, e: Env)
    requires s.vaults == map[7 := Vault(0, 300 * MON, 2 * WSXMR_UNIT)] && s.supported == {0} && e == Market(9, 0, 55 * MON / 100)
    ensures LiquidationTerms(s, e, 7, WSXMR_UNIT) == Ok((WSXMR_UNIT, 200 * MON))
  {
    hide CollateralRatio, CollateralFor;
    assert CollateralRatio(s, e, 0, 300 * MON, 2 * WSXMR_UNIT) == Ok(82) by { HalfRatio(s, e); }
    assert CollateralFor(s, e, 0, WSXMR_UNIT, LIQUIDATION_BONUS) == Ok(200 * MON) by { HalfBonus(s, e); }
  }

  lemma HalfRatio(s: State, e: Env)
    requires s.supported == {0} && e == Market(9, 0, 55 * MON / 100)
    ensures CollateralRatio(s, e, 0, 300 * MON, 2 * WSXMR_UNIT) == Ok(82)
  {
    hide MulDiv, Pow;
    MonUnit();
    MulDivIs(300 * MON, 55 * MON / 100, MON, 165 * MON, 0);
    MulDivIs(2 * WSXMR_UNIT, 100 * MON, WSXMR_UNIT, 200 * MON, 0);
    MulDivIs(165 * MON, RATIO_PRECISION, 200 * MON, 82, 100 * MON);
  }

  lemma HalfBonus(s: State, e: Env)
    requires s.supported == {0} && e == Market(9, 0, 55 * MON / 100)
    ensures CollateralFor(s, e, 0, WSXMR_UNIT, LIQUIDATION_BONUS) == Ok(200 * MON)
  {
    hide MulDiv, Pow;
    MonUnit();
    MulDivIs(WSXMR_UNIT, 100 * MON, WSXMR_UNIT, 100 * MON, 0);
    MulDivIs(100 * MON, LIQUIDATION_BONUS, RATIO_PRECISION, 110 * MON, 0);
    MulDivIs(110 * MON, MON, 55 * MON / 100, 200 * MON, 0);
  }

  lemma MintRatio(s: State, e: Env)
    requires s.supported == {0} && e == Market(9, 0, MON)
    ensures CollateralRatio(s, e, 0, 300 * MON, 2 * WSXMR_UNIT) == Ok(COLLATERAL_RATIO)
  {
    hide MulDiv, Pow;
    MonUnit();
    MulDivIs(300 * MON, MON, MON, 300 * MON, 0);
    MulDivIs(2 * WSXMR_UNIT, 100 * MON, WSXMR_UNIT, 200 * MON, 0);
    MulDivIs(300 * MON, RATIO_PRECISION, 200 * MON, COLLATERAL_RATIO, 0);
  }

  lemma MulDivIs(a: nat, b: nat, d: nat, q: nat, r: nat)
    requires a * b == q * d + r && r < d && a * b <= MAX_UINT
    ensures MulDiv(a, b, d) == Ok(q)
  {
    DivModUnique(a * b, d, q, r);
  }
}
