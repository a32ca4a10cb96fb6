/** Mints, burns and vaults from the call that starts them to the call that ends them, in terms of the starting call's
    own arguments, over every continuation of every run. */
module VaultJourneys {
  import opened Sums
  import opened Wrappers
  import opened Evm
  import opened VaultModel
  import opened VaultRuns
  import opened VaultLiquidation

  lemma {:induction false} RunConcat(s: State, a: seq<(Env, Call)>, b: seq<(Env, Call)>)
    ensures Run(Run(s, a), b) == Run(s, a + b)
    decreases |b|
  {
    hide Step;
    if b == [] {
      assert a + b == a;
    } else {
      var n := |b| - 1;
      RunConcat(s, a, b[..n]);
      assert (a + b)[..|a| + n] == a + b[..n];
    }
  }

  function Start(owner: Address, before: seq<(Env, Call)>): (s: State) {
    Run(Initial(owner), before)
  }

  /** The state after the steps `before`, the call c and the steps `after`. */
  function Now(owner: Address, before: seq<(Env, Call)>, e0: Env, c: Call, after: seq<(Env, Call)>): (s: State) {
    Run(Step(Run(Initial(owner), before), e0, c), after)
  }

  lemma NowIsRun(owner: Address, before: seq<(Env, Call)>, e0: Env, c: Call, after: seq<(Env, Call)>) returns (steps: seq<(Env, Call)>)
    ensures Now(owner, before, e0, c, after) == Run(Initial(owner), steps)
  {
    hide Step, Initial;
    var one := before + [(e0, c)];
    assert one[..|before|] == before;
    RunConcat(Initial(owner), one, after);
    steps := one + after;
  }

  /** Only these parts of a vault map, or of the token balances, differ. */
  predicate OnlyVault(s: State, t: State, lp: Address, v: Vault) {
    t.vaults == s.vaults[lp := v]
  }

  predicate OnlyBalance(s: State, t: State, x: Address, n: nat) {
    t.balances == s.balances[x := n]
  }

  // ---- burns ----

  ghost predicate BurnPendingSince(owner: Address, before: seq<(Env, Call)>, e0: Env, c: Call, after: seq<(Env, Call)>) {
    && c.CallInitiateBurn? && Execute(Start(owner, before), e0, c).Ok?
    && var s := Now(owner, before, e0, c, after);
       c.id in s.burns && s.burns[c.id].status == BurnPending
  }

  /** Exactly when a burn starts, and what moves: the caller's tokens, the vault's debt and the escrow, nothing else. */
  lemma BurnStarts(s: State, e: Env, id: Id, amount: nat, lp: Address, commitment: nat)
    ensures InitiateBurn(s, e, id, amount, lp, commitment).Ok? <==>
            && amount > 0 && lp != 0 && commitment != 0 && lp in s.vaults && amount <= s.vaults[lp].debt && id !in s.burns
            && amount * 10000 <= MAX_UINT && e.time + 86400 <= MAX_UINT
            && CollateralFor(s, e, s.vaults[lp].asset, amount, 120).Ok?
            && CollateralFor(s, e, s.vaults[lp].asset, amount, 120).value <= s.vaults[lp].collateral
            && amount <= At(s.balances, e.sender) && amount <= s.supply
    ensures InitiateBurn(s, e, id, amount, lp, commitment).Ok? ==>
              var v, t := s.vaults[lp], InitiateBurn(s, e, id, amount, lp, commitment).value;
              var x := CollateralFor(s, e, v.asset, amount, 120).value;
              && OnlyVault(s, t, lp, v.(collateral := v.collateral - x, debt := v.debt - amount))
              && OnlyBalance(s, t, e.sender, At(s.balances, e.sender) - amount) && t.supply == s.supply - amount
              && t.burns == s.burns[id := BurnRequest(e.sender, lp, amount, amount * 10000, x, commitment, e.time + 86400, BurnPending)]
              && t.mints == s.mints && t.holdings == s.holdings && t.paid == s.paid
  {
    hide CollateralFor;
  }

  /** The escrow is worth 120% of the burned amount at the prices of the call, short only by the stated rounding. */
  lemma EscrowValue(s: State, e: Env, id: Id, amount: nat, lp: Address, commitment: nat)
    requires InitiateBurn(s, e, id, amount, lp, commitment).Ok?
    ensures lp in s.vaults && Priced(e, s.vaults[lp].asset)
    ensures var a := s.vaults[lp].asset;
            var price, xmrPrice, unit := e.price(a).value, e.xmrPrice.value, AssetUnit(e, a).value;
            var t := InitiateBurn(s, e, id, amount, lp, commitment).value;
            && id in t.burns
            && amount * DebtWeight(xmrPrice, unit, 120) - Rounding(price, unit, 120) <= t.burns[id].escrow * CollateralWeight(price)
            && t.burns[id].escrow * CollateralWeight(price) <= amount * DebtWeight(xmrPrice, unit, 120)
  {
    hide CollateralFor, AssetUnit, DebtWeight, CollateralWeight, Rounding, InitiateBurn;
    BurnStarts(s, e, id, amount, lp, commitment);
    var a := s.vaults[lp].asset;
    PricedRemoval(s, e, a, amount, 120);
    SeizedValue(amount, e.xmrPrice.value, 120, AssetUnit(e, a).value, e.price(a).value);
  }

  /** A pending burn is the request its call made, in the vault it named. */
  lemma BurnCarried(owner: Address, before: seq<(Env, Call)>, e0: Env, c: Call, after: seq<(Env, Call)>)
    requires BurnPendingSince(owner, before, e0, c, after)
    ensures var s0, s := Start(owner, before), Now(owner, before, e0, c, after);
            && c.lp in s0.vaults && c.lp in s.vaults && s.vaults[c.lp].asset == s0.vaults[c.lp].asset
            && CollateralFor(s0, e0, s0.vaults[c.lp].asset, c.amount, 120).Ok?
            && s.burns[c.id] == BurnRequest(e0.sender, c.lp, c.amount, c.amount * 10000,
                                            CollateralFor(s0, e0, s0.vaults[c.lp].asset, c.amount, 120).value,
                                            c.commitment, e0.time + 86400, BurnPending)
  {
    hide Run, CollateralFor, InitiateBurn;
    var s0 := Start(owner, before);
    BurnStarts(s0, e0, c.id, c.amount, c.lp, c.commitment);
    RequestsAdvance(Step(s0, e0, c), after);
  }

  /** However long after the call: the burn finalizes exactly within 24 hours of it and with a secret of the commitment
      it gave, and the escrow then returns to the vault it named. */
  lemma BurnFinalizes(owner: Address, before: seq<(Env, Call)>, e0: Env, c: Call, after: seq<(Env, Call)>, e: Env, secret: nat)
    requires BurnPendingSince(owner, before, e0, c, after)
    ensures var s := Now(owner, before, e0, c, after);
            && c.lp in s.vaults
            && (FinalizeBurn(s, e, c.id, secret).Ok? <==> e.time < e0.time + 86400 && e.mulVerify(secret, c.commitment))
            && (FinalizeBurn(s, e, c.id, secret).Ok? ==>
                  var v, t := s.vaults[c.lp], FinalizeBurn(s, e, c.id, secret).value;
                  && OnlyVault(s, t, c.lp, v.(collateral := v.collateral + s.burns[c.id].escrow))
                  && t.balances == s.balances && t.paid == s.paid && t.burns == s.burns[c.id := s.burns[c.id].(status := BurnCompleted)])
  {
    hide Run, Start, Now;
    BurnCarried(owner, before, e0, c, after);
    var steps := NowIsRun(owner, before, e0, c, after);
    HonouredBurnReturns(owner, steps, e, c.id, secret);
  }

  /** And the caller of the burn, and nobody else, collects the escrow, in the asset of the vault it named, exactly from
      24 hours after the call on. */
  lemma BurnSlashes(owner: Address, before: seq<(Env, Call)>, e0: Env, c: Call, after: seq<(Env, Call)>, e: Env)
    requires BurnPendingSince(owner, before, e0, c, after)
    ensures var s := Now(owner, before, e0, c, after);
            && c.lp in s.vaults
            && (ClaimSlashedCollateral(s, e, c.id).Ok? <==> e.sender == e0.sender && e.time >= e0.time + 86400)
            && (ClaimSlashedCollateral(s, e, c.id).Ok? ==>
                  var a, x, t := s.vaults[c.lp].asset, s.burns[c.id].escrow, ClaimSlashedCollateral(s, e, c.id).value;
                  && t.paid == s.paid[(e0.sender, a) := At(s.paid, (e0.sender, a)) + x]
                  && t.vaults == s.vaults && t.balances == s.balances && t.burns == s.burns[c.id := s.burns[c.id].(status := BurnSlashed)])
  {
    hide Run, Start, Now, At, Total;
    BurnCarried(owner, before, e0, c, after);
    var steps := NowIsRun(owner, before, e0, c, after);
    SlashedClaimPays(owner, steps, e, c.id);
  }

  // ---- mints ----

  ghost predicate MintedSince(owner: Address, before: seq<(Env, Call)>, e0: Env, c: Call) {
    c.CallInitiateMint? && Execute(Start(owner, before), e0, c).Ok?
  }

  /** Exactly when a mint starts; it stores one request and moves nothing. */
  lemma MintStarts(s: State, e: Env, id: Id, lp: Address, xmrAmount: nat, commitment: nat, duration: nat)
    ensures InitiateMint(s, e, id, lp, xmrAmount, commitment, duration).Ok? <==>
            && lp != 0 && xmrAmount > 0 && commitment != 0 && lp in s.vaults && id !in s.mints
            && s.vaults[lp].debt + xmrAmount / 10000 <= MAX_UINT && e.time + duration <= MAX_UINT
            && CollateralRatio(s, e, s.vaults[lp].asset, s.vaults[lp].collateral, s.vaults[lp].debt + xmrAmount / 10000).Ok?
            && CollateralRatio(s, e, s.vaults[lp].asset, s.vaults[lp].collateral, s.vaults[lp].debt + xmrAmount / 10000).value >= 150
    ensures InitiateMint(s, e, id, lp, xmrAmount, commitment, duration).Ok? ==>
              InitiateMint(s, e, id, lp, xmrAmount, commitment, duration).value
              == s.(mints := s.mints[id := MintRequest(e.sender, lp, xmrAmount, xmrAmount / 10000, commitment, e.time + duration, MintPending)])
  {
    hide CollateralRatio;
  }

  /** A mint request is the one its call made, whatever its status by now. */
  lemma MintCarried(owner: Address, before: seq<(Env, Call)>, e0: Env, c: Call, after: seq<(Env, Call)>)
    requires MintedSince(owner, before, e0, c)
    ensures var s := Now(owner, before, e0, c, after);
            && c.id in s.mints && c.lp in s.vaults
            && s.mints[c.id] == MintRequest(e0.sender, c.lp, c.xmrAmount, c.xmrAmount / 10000, c.commitment, e0.time + c.duration, s.mints[c.id].status)
  {
    hide Run, CollateralRatio, InitiateMint;
    var s0 := Start(owner, before);
    MintStarts(s0, e0, c.id, c.lp, c.xmrAmount, c.commitment, c.duration);
    RequestsAdvance(Step(s0, e0, c), after);
  }

  /** However long after the call: the provider it named marks the mint ready exactly while it is pending. */
  lemma MintReadies(owner: Address, before: seq<(Env, Call)>, e0: Env, c: Call, after: seq<(Env, Call)>, e: Env)
    requires MintedSince(owner, before, e0, c)
    ensures var s := Now(owner, before, e0, c, after);
            && c.id in s.mints
            && (SetMintReady(s, e, c.id).Ok? <==> s.mints[c.id].status == MintPending && e.sender == c.lp)
            && (SetMintReady(s, e, c.id).Ok? ==>
                  SetMintReady(s, e, c.id).value == s.(mints := s.mints[c.id := s.mints[c.id].(status := MintReady)]))
  {
    hide Run, Start, Now;
    MintCarried(owner, before, e0, c, after);
  }

  /** Anybody with a secret of the commitment it gave finalizes a ready mint: the caller of the mint receives one wsXMR
      unit per 10^4 XMR units, and the vault it named owes as much more. */
  lemma MintFinalizes(owner: Address, before: seq<(Env, Call)>, e0: Env, c: Call, after: seq<(Env, Call)>, e: Env, secret: nat)
    requires MintedSince(owner, before, e0, c)
    ensures var s := Now(owner, before, e0, c, after);
            var n := c.xmrAmount / 10000;
            && c.id in s.mints && c.lp in s.vaults
            && (FinalizeMint(s, e, c.id, secret).Ok? <==>
                  s.mints[c.id].status == MintReady && e.mulVerify(secret, c.commitment) && s.supply + n <= MAX_UINT)
            && (FinalizeMint(s, e, c.id, secret).Ok? ==>
                  var v, t := s.vaults[c.lp], FinalizeMint(s, e, c.id, secret).value;
                  && OnlyVault(s, t, c.lp, v.(debt := v.debt + n)) && OnlyBalance(s, t, e0.sender, At(s.balances, e0.sender) + n)
                  && t.supply == s.supply + n && t.mints == s.mints[c.id := s.mints[c.id].(status := MintCompleted)])
  {
    hide Run, Start, Now;
    MintCarried(owner, before, e0, c, after);
    var steps := NowIsRun(owner, before, e0, c, after);
    ReadyMintFinalizes(owner, steps, e, c.id, secret);
  }

  /** The caller of the mint, and nobody else, cancels it: from its timeout on while it is pending, and 24 hours later
      once it is ready. */
  lemma MintCancels(owner: Address, before: seq<(Env, Call)>, e0: Env, c: Call, after: seq<(Env, Call)>, e: Env)
    requires MintedSince(owner, before, e0, c)
    ensures var s := Now(owner, before, e0, c, after);
            && c.id in s.mints
            && var st := s.mints[c.id].status;
               var from := e0.time + c.duration + if st == MintReady then 86400 else 0;
               && (CancelMint(s, e, c.id).Ok? <==>
                     (st == MintPending || st == MintReady) && e.sender == e0.sender && from <= MAX_UINT && e.time >= from)
               && (CancelMint(s, e, c.id).Ok? ==>
                     CancelMint(s, e, c.id).value == s.(mints := s.mints[c.id := s.mints[c.id].(status := MintCancelled)]))
  {
    hide Run, Start, Now;
    MintCarried(owner, before, e0, c, after);
  }

  // ---- vaults ----

  /** A vault is its creator's, one each, in a supported asset, and keeps that asset for ever. */
  lemma VaultCreated(owner: Address, before: seq<(Env, Call)>, e0: Env, asset: Asset, after: seq<(Env, Call)>)
    ensures var s0 := Start(owner, before);
            && (CreateVault(s0, e0, asset).Ok? <==> e0.sender !in s0.vaults && asset in s0.supported)
            && (CreateVault(s0, e0, asset).Ok? ==>
                  && OnlyVault(s0, CreateVault(s0, e0, asset).value, e0.sender, Vault(asset, 0, 0))
                  && var s := Now(owner, before, e0, CallCreateVault(asset), after);
                     e0.sender in s.vaults && s.vaults[e0.sender].asset == asset)
  {
    hide Run;
    var s0 := Start(owner, before);
    if CreateVault(s0, e0, asset).Ok? { RequestsAdvance(Step(s0, e0, CallCreateVault(asset)), after); }
  }

  /** In every reachable state a deposit needs only a vault, the value sent along for ether and nothing otherwise, and room. */
  lemma DepositSucceeds(owner: Address, steps: seq<(Env, Call)>, e: Env, amount: nat)
    ensures var s := Run(Initial(owner), steps);
            && (DepositCollateral(s, e, amount).Ok? <==>
                  && e.sender in s.vaults && amount > 0
                  && e.value == (if s.vaults[e.sender].asset == 0 then amount else 0)
                  && At(s.holdings, s.vaults[e.sender].asset) + amount <= MAX_UINT)
            && (DepositCollateral(s, e, amount).Ok? ==>
                  var v, t := s.vaults[e.sender], DepositCollateral(s, e, amount).value;
                  && OnlyVault(s, t, e.sender, v.(collateral := v.collateral + amount))
                  && t.holdings == s.holdings[v.asset := At(s.holdings, v.asset) + amount] && t.paid == s.paid && t.balances == s.balances)
  {
    hide Run, Initial, Total;
    Reachable(owner, steps);
    var s := Run(Initial(owner), steps);
    if e.sender in s.vaults { CollateralHeld(s, e.sender); }
  }

  lemma CollateralHeld(s: State, lp: Address)
    requires Inv(s) && lp in s.vaults
    ensures s.vaults[lp].collateral <= At(s.holdings, s.vaults[lp].asset)
  {
    hide Total;
    var a := s.vaults[lp].asset;
    assert PoolOf(s, a);
    TotalAtLeast(CollateralIn(s.vaults, a), lp);
  }

  /** In every reachable state a withdrawal needs only a vault, the collateral, and a ratio of 150 on what remains. */
  lemma WithdrawSucceeds(owner: Address, steps: seq<(Env, Call)>, e: Env, amount: nat)
    ensures var s := Run(Initial(owner), steps);
            && (WithdrawCollateral(s, e, amount).Ok? <==>
                  && e.sender in s.vaults && 0 < amount <= s.vaults[e.sender].collateral
                  && var v := s.vaults[e.sender];
                     var ratio := CollateralRatio(s, e, v.asset, v.collateral - amount, v.debt);
                     v.debt == 0 || (ratio.Ok? && ratio.value >= 150))
            && (WithdrawCollateral(s, e, amount).Ok? ==>
                  var v, t := s.vaults[e.sender], WithdrawCollateral(s, e, amount).value;
                  && OnlyVault(s, t, e.sender, v.(collateral := v.collateral - amount)) && t.balances == s.balances
                  && t.paid == s.paid[(e.sender, v.asset) := At(s.paid, (e.sender, v.asset)) + amount])
  {
    hide Run, Initial, Total, MulDiv, AssetUnit, CollateralPrice;
    Reachable(owner, steps);
    var s := Run(Initial(owner), steps);
    if e.sender in s.vaults { CollateralHeld(s, e.sender); }
  }

  /** In every reachable state a liquidation needs only an indebted vault rated below 120, prices, and the tokens. */
  lemma LiquidateSucceeds(owner: Address, steps: seq<(Env, Call)>, e: Env, lp: Address, debtToClear: nat)
    ensures var s := Run(Initial(owner), steps);
            Liquidate(s, e, lp, debtToClear).Ok? <==>
              && lp in s.vaults && debtToClear > 0 && s.vaults[lp].debt > 0
              && var v := s.vaults[lp];
                 var d := DebtCleared(v, debtToClear);
                 var ratio := CollateralRatio(s, e, v.asset, v.collateral, v.debt);
                 && ratio.Ok? && ratio.value < 120 && CollateralFor(s, e, v.asset, d, 110).Ok? && d <= At(s.balances, e.sender)
  {
    hide Run, Initial, Total, CollateralRatio, CollateralFor;
    Reachable(owner, steps);
    var s := Run(Initial(owner), steps);
    if lp in s.vaults {
      CollateralHeld(s, lp);
      TotalAtLeast(s.balances, e.sender);
    }
  }

  /** A liquidation moves the keeper's tokens, the vault and the keeper's receipts, and nothing else. */
  lemma LiquidateMoves(s: State, e: Env, lp: Address, debtToClear: nat)
    requires Liquidate(s, e, lp, debtToClear).Ok?
    ensures var t := Liquidate(s, e, lp, debtToClear).value;
            && lp in s.vaults
            && var v := s.vaults[lp];
               var d := DebtCleared(v, debtToClear);
               && CollateralFor(s, e, v.asset, d, 110).Ok? && d <= At(s.balances, e.sender)
               && var wanted := CollateralFor(s, e, v.asset, d, 110).value;
                  var x := if wanted > v.collateral then v.collateral else wanted;
                  && OnlyVault(s, t, lp, v.(collateral := v.collateral - x, debt := v.debt - d))
                  && OnlyBalance(s, t, e.sender, At(s.balances, e.sender) - d) && t.supply == s.supply - d
                  && t.paid == s.paid[(e.sender, v.asset) := At(s.paid, (e.sender, v.asset)) + x]
                  && t.mints == s.mints && t.burns == s.burns
  {
    hide CollateralRatio, CollateralFor;
  }

  /** A transfer moves exactly the amount from the caller to the recipient. */
  lemma TransferMoves(s: State, e: Env, to: Address, amount: nat)
    ensures TransferToken(s, e, to, amount).Ok? <==> to != 0 && amount <= At(s.balances, e.sender)
    ensures TransferToken(s, e, to, amount).Ok? ==>
              var t := TransferToken(s, e, to, amount).value;
              && t == s.(balances := t.balances)
              && (forall x :: At(t.balances, x) - At(s.balances, x)
                              == (if x == to then amount else 0) - (if x == e.sender then amount else 0))
  {
  }

  /** Only the owner changes which assets are supported, and an asset needs a feed. */
  lemma SupportChanges(s: State, e: Env, asset: Asset, feedId: nat)
    ensures AddCollateralSupport(s, e, asset, feedId).Ok? <==> e.sender == s.owner && feedId != 0
    ensures AddCollateralSupport(s, e, asset, feedId).Ok? ==>
              AddCollateralSupport(s, e, asset, feedId).value == s.(supported := s.supported + {asset})
    ensures RemoveCollateralSupport(s, e, asset).Ok? <==> e.sender == s.owner
    ensures RemoveCollateralSupport(s, e, asset).Ok? ==>
              RemoveCollateralSupport(s, e, asset).value == s.(supported := s.supported - {asset})
  {
  }
}
