/** The VaultManager contract in the contract's own form: storage that each call updates in place.
    Every method is proved to do exactly what the model's function for that call says. */
module VaultContract {
  import opened Sums
  import opened Wrappers
  import opened Evm
  import opened VaultModel
  import VaultRuns
  import VaultLedger

  /** The call's outcome is the model's: its error and nothing changed, or its next state. */
  ghost predicate Does(before: State, after: State, r: Outcome<State>, err: Option<Reason>) {
    match r
    case Ok(t) => err == None && after == t
    case Err(reason) => err == Some(reason) && after == before
  }

  /** What holds between any two calls: the invariant of all runs, and right books. */
  ghost predicate Good(s: State) {
    VaultRuns.Inv(s) && VaultLedger.Books(s)
  }

  lemma Kept(s: State, e: Env, c: Call, t: State)
    requires Good(s) && Execute(s, e, c) == Ok(t)
    ensures Good(t)
  {
    hide VaultRuns.Inv, VaultLedger.Books, Execute;
    VaultRuns.StepKeeps(s, e, c);
    VaultLedger.BooksKept(s, e, c);
  }

  lemma LiquidateKept(s: State, e: Env, lp: Address, debtToClear: nat, t: State)
    requires Good(s) && Liquidate(s, e, lp, debtToClear) == Ok(t)
    ensures Good(t)
  {
    hide Good, Liquidate;
    Kept(s, e, CallLiquidate(lp, debtToClear), t);
  }

  lemma InitiateBurnKept(s: State, e: Env, id: Id, amount: nat, lp: Address, commitment: nat, t: State)
    requires Good(s) && InitiateBurn(s, e, id, amount, lp, commitment) == Ok(t)
    ensures Good(t)
  {
    hide Good, InitiateBurn;
    Kept(s, e, CallInitiateBurn(id, amount, lp, commitment), t);
  }

  class VaultManager {
    const owner: Address
    var supported: set<Asset>
    var vaults: map<Address, Vault>
    var mints: map<Id, MintRequest>
    var burns: map<Id, BurnRequest>
    var balances: map<Address, nat>
    var supply: nat
    var holdings: map<Asset, nat>
    var paid: map<(Address, Asset), nat>
    var log: seq<Event>

    function View(): (s: State)
      reads this
    {
      State(owner, supported, vaults, mints, burns, balances, supply, holdings, paid, log)
    }

    ghost predicate Valid()
      reads this
    {
      Good(View())
    }

    constructor (initialOwner: Address)
      ensures Valid() && View() == Initial(initialOwner)
    {
      owner := initialOwner;
      supported := {0};
      vaults, mints, burns := map[], map[], map[];
      balances, supply, holdings, paid, log := map[], 0, map[], map[], [];
      new;
      VaultRuns.InitialHolds(initialOwner);
      VaultLedger.InitialBooks(initialOwner);
    }

    /** Pays out of the pool; the amount has been checked to be there. */
    method Transfer(asset: Asset, to: Address, amount: nat)
      requires At(holdings, asset) >= amount
      modifies this`holdings, this`paid
      ensures Ok(View()) == PayOut(old(View()), asset, to, amount)
    {
      holdings := holdings[asset := At(holdings, asset) - amount];
      paid := paid[(to, asset) := At(paid, (to, asset)) + amount];
    }

    /** Burns wsXMR; the balance has been checked. */
    method BurnTokens(from: Address, amount: nat)
      requires At(balances, from) >= amount && supply >= amount
      modifies this`balances, this`supply
      ensures Ok(View()) == BurnToken(old(View()), from, amount)
    {
      balances := balances[from := At(balances, from) - amount];
      supply := supply - amount;
    }

    method CreateVault(e: Env, asset: Asset) returns (err: Option<Reason>)
      requires Valid()
      modifies this
      ensures Valid()
      ensures Does(old(View()), View(), VaultModel.CreateVault(old(View()), e, asset), err)
    {
      hide Good;
      if e.sender in vaults { return Some(VaultAlreadyExists); }
      if asset !in supported { return Some(InvalidCollateralAsset); }
      vaults := vaults[e.sender := Vault(asset, 0, 0)];
      Kept(old(View()), e, CallCreateVault(asset), View());
      return None;
    }

    method DepositCollateral(e: Env, amount: nat) returns (err: Option<Reason>)
      requires Valid()
      modifies this
      ensures Valid()
      ensures Does(old(View()), View(), VaultModel.DepositCollateral(old(View()), e, amount), err)
    {
      hide Good, At;
      if e.sender !in vaults { return Some(VaultDoesNotExist); }
      if amount == 0 { return Some(ZeroAmount); }
      var vault := vaults[e.sender];
      if vault.asset == 0 {
        if e.value != amount { return Some(InvalidValue); }
      } else {
        if e.value != 0 { return Some(InvalidValue); }
      }
      var held := At(holdings, vault.asset);
      if held + amount > MAX_UINT { return Some(TransferFailed); }
      if vault.collateral + amount > MAX_UINT { return Some(Panic); }
      holdings := holdings[vault.asset := held + amount];
      vaults := vaults[e.sender := vault.(collateral := vault.collateral + amount)];
      log := log + [Deposited(e.sender, vault.asset, amount)];
      Kept(old(View()), e, CallDeposit(amount), View());
      return None;
    }

    method WithdrawCollateral(e: Env, amount: nat) returns (err: Option<Reason>)
      requires Valid()
      modifies this
      ensures Valid()
      ensures Does(old(View()), View(), VaultModel.WithdrawCollateral(old(View()), e, amount), err)
    {
      hide Good, CollateralPrice, AssetUnit, MulDiv;
      if e.sender !in vaults { return Some(VaultDoesNotExist); }
      if amount == 0 { return Some(ZeroAmount); }
      var vault := vaults[e.sender];
      if vault.collateral < amount { return Some(InsufficientCollateral); }
      var newCollateral := vault.collateral - amount;
      if vault.debt > 0 {
        var ratio := CollateralRatio(View(), e, vault.asset, newCollateral, vault.debt);
        if ratio.Err? { return Some(ratio.error); }
        if ratio.value < COLLATERAL_RATIO { return Some(InsufficientCollateral); }
      }
      if At(holdings, vault.asset) < amount { return Some(TransferFailed); }
      vaults := vaults[e.sender := vault.(collateral := newCollateral)];
      log := log + [Withdrawn(e.sender, vault.asset, amount)];
      Transfer(vault.asset, e.sender, amount);
      Kept(old(View()), e, CallWithdraw(amount), View());
      return None;
    }

    method InitiateMint(e: Env, id: Id, lp: Address, xmrAmount: nat, commitment: nat, duration: nat) returns (err: Option<Reason>)
      requires Valid()
      modifies this
      ensures Valid()
      ensures Does(old(View()), View(), VaultModel.InitiateMint(old(View()), e, id, lp, xmrAmount, commitment, duration), err)
    {
      hide Good, CollateralRatio;
      if lp == 0 { return Some(ZeroAddress); }
      if xmrAmount == 0 { return Some(ZeroAmount); }
      if commitment == 0 { return Some(InvalidSecret); }
      if lp !in vaults { return Some(VaultDoesNotExist); }
      var wsxmrAmount := xmrAmount / XMR_PER_WSXMR;
      var vault := vaults[lp];
      var newDebt := vault.debt + wsxmrAmount;
      if newDebt > MAX_UINT { return Some(Panic); }
      var ratio := CollateralRatio(View(), e, vault.asset, vault.collateral, newDebt);
      if ratio.Err? { return Some(ratio.error); }
      if ratio.value < COLLATERAL_RATIO { return Some(InsufficientCollateral); }
      if id in mints { return Some(MintAlreadyExists); }
      if e.time + duration > MAX_UINT { return Some(Panic); }
      mints := mints[id := MintRequest(e.sender, lp, xmrAmount, wsxmrAmount, commitment, e.time + duration, MintPending)];
      Kept(old(View()), e, CallInitiateMint(id, lp, xmrAmount, commitment, duration), View());
      return None;
    }

    method SetMintReady(e: Env, id: Id) returns (err: Option<Reason>)
      requires Valid()
      modifies this
      ensures Valid()
      ensures Does(old(View()), View(), VaultModel.SetMintReady(old(View()), e, id), err)
    {
      hide Good;
      if id !in mints || !mints[id].status.MintPending? { return Some(InvalidStatus); }
      if e.sender != mints[id].lpVault { return Some(Unauthorized); }
      mints := mints[id := mints[id].(status := MintReady)];
      Kept(old(View()), e, CallSetMintReady(id), View());
      return None;
    }

    method FinalizeMint(e: Env, id: Id, secret: nat) returns (err: Option<Reason>)
      requires Valid()
      modifies this
      ensures Valid()
      ensures Does(old(View()), View(), VaultModel.FinalizeMint(old(View()), e, id, secret), err)
    {
      hide Good, At;
      if id !in mints || !mints[id].status.MintReady? { return Some(InvalidStatus); }
      var request := mints[id];
      if !e.mulVerify(secret, request.claimCommitment) { return Some(InvalidSecret); }
      if request.lpVault !in vaults { return Some(VaultDoesNotExist); }
      var vault := vaults[request.lpVault];
      if vault.debt + request.wsxmrAmount > MAX_UINT { return Some(Panic); }
      if supply + request.wsxmrAmount > MAX_UINT { return Some(Panic); }
      vaults := vaults[request.lpVault := vault.(debt := vault.debt + request.wsxmrAmount)];
      supply := supply + request.wsxmrAmount;
      balances := balances[request.user := At(balances, request.user) + request.wsxmrAmount];
      mints := mints[id := request.(status := MintCompleted)];
      Kept(old(View()), e, CallFinalizeMint(id, secret), View());
      return None;
    }

    method CancelMint(e: Env, id: Id) returns (err: Option<Reason>)
      requires Valid()
      modifies this
      ensures Valid()
      ensures Does(old(View()), View(), VaultModel.CancelMint(old(View()), e, id), err)
    {
      hide Good;
      if id !in mints || (!mints[id].status.MintPending? && !mints[id].status.MintReady?) { return Some(InvalidStatus); }
      var request := mints[id];
      if e.sender != request.user { return Some(Unauthorized); }
      var requiredTimeout := if request.status.MintReady? then request.timeout + READY_GRACE else request.timeout;
      if requiredTimeout > MAX_UINT { return Some(Panic); }
      if e.time < requiredTimeout { return Some(TimeoutNotReached); }
      mints := mints[id := request.(status := MintCancelled)];
      Kept(old(View()), e, CallCancelMint(id), View());
      return None;
    }

    method BurnTerms(e: Env, id: Id, amount: nat, lp: Address, commitment: nat) returns (r: Outcome<(nat, nat)>)
      ensures r == VaultModel.BurnTerms(View(), e, id, amount, lp, commitment)
    {
      hide CollateralFor;
      if amount == 0 { return Err(ZeroAmount); }
      if lp == 0 { return Err(ZeroAddress); }
      if commitment == 0 { return Err(InvalidSecret); }
      if lp !in vaults { return Err(VaultDoesNotExist); }
      var vault := vaults[lp];
      if vault.debt < amount { return Err(InsufficientDebt); }
      var xmrAmount := amount * XMR_PER_WSXMR;
      if xmrAmount > MAX_UINT { return Err(Panic); }
      var escrow := CollateralFor(View(), e, vault.asset, amount, LIQUIDATION_RATIO);
      if escrow.Err? { return Err(escrow.error); }
      if vault.collateral < escrow.value { return Err(InsufficientCollateral); }
      if id in burns { return Err(BurnAlreadyExists); }
      return Ok((xmrAmount, escrow.value));
    }

    method InitiateBurn(e: Env, id: Id, amount: nat, lp: Address, commitment: nat) returns (err: Option<Reason>)
      requires Valid()
      modifies this
      ensures Valid()
      ensures Does(old(View()), View(), VaultModel.InitiateBurn(old(View()), e, id, amount, lp, commitment), err)
    {
      hide Good, VaultModel.BurnTerms, At, BurnToken;
      var terms := BurnTerms(e, id, amount, lp, commitment);
      if terms.Err? { return Some(terms.error); }
      var (xmrAmount, escrow) := terms.value;
      var vault := vaults[lp];
      if At(balances, e.sender) < amount || supply < amount { return Some(InsufficientBalance); }
      if e.time + BURN_TIMEOUT > MAX_UINT { return Some(Panic); }
      BurnTokens(e.sender, amount);
      vaults := vaults[lp := vault.(collateral := vault.collateral - escrow, debt := vault.debt - amount)];
      burns := burns[id := BurnRequest(e.sender, lp, amount, xmrAmount, escrow, commitment, e.time + BURN_TIMEOUT, BurnPending)];
      log := log + [Escrowed(id, lp, vault.asset, escrow)];
      InitiateBurnKept(old(View()), e, id, amount, lp, commitment, View());
      return None;
    }

    method FinalizeBurn(e: Env, id: Id, secret: nat) returns (err: Option<Reason>)
      requires Valid()
      modifies this
      ensures Valid()
      ensures Does(old(View()), View(), VaultModel.FinalizeBurn(old(View()), e, id, secret), err)
    {
      hide Good;
      if id !in burns || !burns[id].status.BurnPending? { return Some(InvalidStatus); }
      var request := burns[id];
      if e.time >= request.deadline { return Some(DeadlineExpired); }
      if !e.mulVerify(secret, request.refundCommitment) { return Some(InvalidSecret); }
      if request.lpVault !in vaults { return Some(VaultDoesNotExist); }
      var vault := vaults[request.lpVault];
      if vault.collateral + request.escrow > MAX_UINT { return Some(Panic); }
      vaults := vaults[request.lpVault := vault.(collateral := vault.collateral + request.escrow)];
      burns := burns[id := request.(status := BurnCompleted)];
      log := log + [EscrowReturned(id, request.lpVault, vault.asset, request.escrow, e.time)];
      Kept(old(View()), e, CallFinalizeBurn(id, secret), View());
      return None;
    }

    method ClaimSlashedCollateral(e: Env, id: Id) returns (err: Option<Reason>)
      requires Valid()
      modifies this
      ensures Valid()
      ensures Does(old(View()), View(), VaultModel.ClaimSlashedCollateral(old(View()), e, id), err)
    {
      hide Good, At;
      if id !in burns || !burns[id].status.BurnPending? { return Some(InvalidStatus); }
      var request := burns[id];
      if e.sender != request.user { return Some(Unauthorized); }
      if e.time < request.deadline { return Some(DeadlineNotExpired); }
      if request.lpVault !in vaults { return Some(VaultDoesNotExist); }
      var asset := vaults[request.lpVault].asset;
      if At(holdings, asset) < request.escrow { return Some(TransferFailed); }
      burns := burns[id := request.(status := BurnSlashed)];
      Transfer(asset, request.user, request.escrow);
      log := log + [EscrowPaid(id, request.user, asset, request.escrow, e.time)];
      Kept(old(View()), e, CallClaimSlashed(id), View());
      return None;
    }

    method LiquidationTerms(e: Env, lp: Address, debtToClear: nat) returns (r: Outcome<(nat, nat)>)
      ensures r == VaultModel.LiquidationTerms(View(), e, lp, debtToClear)
    {
      hide CollateralRatio, CollateralFor;
      if lp !in vaults { return Err(VaultDoesNotExist); }
      if debtToClear == 0 { return Err(ZeroAmount); }
      var vault := vaults[lp];
      if vault.debt == 0 { return Err(InsufficientDebt); }
      var debt := debtToClear;
      if debt > vault.debt {
        debt := vault.debt;
      }
      var ratio := CollateralRatio(View(), e, vault.asset, vault.collateral, vault.debt);
      if ratio.Err? { return Err(ratio.error); }
      if ratio.value >= LIQUIDATION_RATIO { return Err(VaultHealthy); }
      var wanted := CollateralFor(View(), e, vault.asset, debt, LIQUIDATION_BONUS);
      if wanted.Err? { return Err(wanted.error); }
      var seized := wanted.value;
      if seized > vault.collateral {
        seized := vault.collateral;
      }
      return Ok((debt, seized));
    }

    method Liquidate(e: Env, lp: Address, debtToClear: nat) returns (err: Option<Reason>)
      requires Valid()
      modifies this
      ensures Valid()
      ensures Does(old(View()), View(), VaultModel.Liquidate(old(View()), e, lp, debtToClear), err)
    {
      hide Good, VaultModel.LiquidationTerms, At, PayOut, BurnToken;
      var terms := LiquidationTerms(e, lp, debtToClear);
      if terms.Err? { return Some(terms.error); }
      var (debt, seized) := terms.value;
      var vault := vaults[lp];
      if At(balances, e.sender) < debt || supply < debt { return Some(InsufficientBalance); }
      if At(holdings, vault.asset) < seized { return Some(TransferFailed); }
      BurnTokens(e.sender, debt);
      vaults := vaults[lp := vault.(collateral := vault.collateral - seized, debt := vault.debt - debt)];
      log := log + [VaultLiquidated(lp, e.sender, vault.asset, debt, seized)];
      Transfer(vault.asset, e.sender, seized);
      LiquidateKept(old(View()), e, lp, debtToClear, View());
      return None;
    }

    method TransferToken(e: Env, to: Address, amount: nat) returns (err: Option<Reason>)
      requires Valid()
      modifies this
      ensures Valid()
      ensures Does(old(View()), View(), VaultModel.TransferToken(old(View()), e, to, amount), err)
    {
      hide Good;
      if to == 0 { return Some(ZeroAddress); }
      var balance := At(balances, e.sender);
      if balance < amount { return Some(InsufficientBalance); }
      balances := balances[e.sender := balance - amount];
      balances := balances[to := At(balances, to) + amount];
      Kept(old(View()), e, CallTransfer(to, amount), View());
      return None;
    }

    method AddCollateralSupport(e: Env, asset: Asset, feedId: nat) returns (err: Option<Reason>)
      requires Valid()
      modifies this
      ensures Valid()
      ensures Does(old(View()), View(), VaultModel.AddCollateralSupport(old(View()), e, asset, feedId), err)
    {
      hide Good;
      if e.sender != owner { return Some(Unauthorized); }
      if feedId == 0 { return Some(InvalidAsset); }
      supported := supported + {asset};
      Kept(old(View()), e, CallAddSupport(asset, feedId), View());
      return None;
    }

    method RemoveCollateralSupport(e: Env, asset: Asset) returns (err: Option<Reason>)
      requires Valid()
      modifies this
      ensures Valid()
      ensures Does(old(View()), View(), VaultModel.RemoveCollateralSupport(old(View()), e, asset), err)
    {
      hide Good;
      if e.sender != owner { return Some(Unauthorized); }
      supported := supported - {asset};
      Kept(old(View()), e, CallRemoveSupport(asset), View());
      return None;
    }
  }
}
