/** What every run of the VaultManager keeps: the token is backed one to one by vault debt, the pool
    holds exactly the vaults' collateral and the pending escrows, each escrow leaves once, and no more
    wsXMR is ever issued than the XMR that was locked for it. */
module VaultRuns {
  import opened Sums
  import opened Wrappers
  import opened Evm
  import opened VaultModel

  // ---- the totals the invariants speak of ----

  ghost function Debts(vaults: map<Address, Vault>): (m: map<Address, nat>) {
    map lp | lp in vaults :: vaults[lp].debt
  }

  ghost function CollateralIn(vaults: map<Address, Vault>, a: Asset): (m: map<Address, nat>) {
    map lp | lp in vaults :: if vaults[lp].asset == a then vaults[lp].collateral else 0
  }

  predicate EscrowedIn(vaults: map<Address, Vault>, q: BurnRequest, a: Asset) {
    q.status.BurnPending? && q.lpVault in vaults && vaults[q.lpVault].asset == a
  }

  ghost function EscrowIn(vaults: map<Address, Vault>, burns: map<Id, BurnRequest>, a: Asset): (m: map<Id, nat>) {
    map id | id in burns :: if EscrowedIn(vaults, burns[id], a) then burns[id].escrow else 0
  }

  /** wsXMR issued by finalized mints, the XMR locked for them, and how many there are. */
  ghost function Issued(mints: map<Id, MintRequest>): (m: map<Id, nat>) {
    map id | id in mints :: if mints[id].status.MintCompleted? then mints[id].wsxmrAmount else 0
  }

  ghost function Locked(mints: map<Id, MintRequest>): (m: map<Id, nat>) {
    map id | id in mints :: if mints[id].status.MintCompleted? then mints[id].xmrAmount else 0
  }

  ghost function Finalized(mints: map<Id, MintRequest>): (m: map<Id, nat>) {
    map id | id in mints :: if mints[id].status.MintCompleted? then 1 else 0
  }

  /** wsXMR given up in burns, in any status, and the XMR they ask for. */
  ghost function Burned(burns: map<Id, BurnRequest>): (m: map<Id, nat>) {
    map id | id in burns :: burns[id].wsxmrAmount
  }

  ghost function Redeemed(burns: map<Id, BurnRequest>): (m: map<Id, nat>) {
    map id | id in burns :: burns[id].xmrAmount
  }

  function LiquidatedDebt(log: seq<Event>): (n: nat) {
    if log == [] then 0
    else LiquidatedDebt(log[..|log| - 1]) + match log[|log| - 1] case VaultLiquidated(_, _, _, d, _) => d case _ => 0
  }

  predicate LeavesEscrow(ev: Event, id: Id) {
    (ev.EscrowReturned? || ev.EscrowPaid?) && ev.id == id
  }

  /** How many times a burn's escrow has left the pool of escrows. */
  function Exits(log: seq<Event>, id: Id): (n: nat) {
    if log == [] then 0 else Exits(log[..|log| - 1], id) + if LeavesEscrow(log[|log| - 1], id) then 1 else 0
  }

  // ---- the invariant ----

  /** Every request names an existing vault and its two amounts agree. */
  ghost predicate Wired(s: State) {
    && (forall id :: id in s.mints ==> s.mints[id].lpVault in s.vaults && s.mints[id].wsxmrAmount == s.mints[id].xmrAmount / XMR_PER_WSXMR)
    && (forall id :: id in s.burns ==> s.burns[id].lpVault in s.vaults && s.burns[id].xmrAmount == s.burns[id].wsxmrAmount * XMR_PER_WSXMR)
  }

  ghost predicate Backed(s: State) {
    s.supply == Total(Debts(s.vaults)) && s.supply == Total(s.balances) && s.supply <= MAX_UINT
  }

  ghost predicate PoolOf(s: State, a: Asset) {
    At(s.holdings, a) == Total(CollateralIn(s.vaults, a)) + Total(EscrowIn(s.vaults, s.burns, a)) && At(s.holdings, a) <= MAX_UINT
  }

  ghost predicate Pooled(s: State) {
    forall a :: PoolOf(s, a)
  }

  ghost predicate Conserved(s: State) {
    Total(Issued(s.mints)) == s.supply + Total(Burned(s.burns)) + LiquidatedDebt(s.log)
  }

  /** An exit event records the request's own beneficiary and escrow, on the right side of its deadline. */
  predicate Settles(burns: map<Id, BurnRequest>, ev: Event) {
    match ev
    case EscrowReturned(id, lp, _, amount, t) =>
      id in burns && burns[id].status.BurnCompleted? && lp == burns[id].lpVault && amount == burns[id].escrow && t < burns[id].deadline
    case EscrowPaid(id, to, _, amount, t) =>
      id in burns && burns[id].status.BurnSlashed? && to == burns[id].user && amount == burns[id].escrow && t >= burns[id].deadline
    case _ => true
  }

  predicate Settled(burns: map<Id, BurnRequest>, id: Id) {
    id in burns && !burns[id].status.BurnPending?
  }

  ghost predicate ExitsOnce(s: State) {
    && (forall id :: Exits(s.log, id) == if Settled(s.burns, id) then 1 else 0)
    && (forall i :: 0 <= i < |s.log| ==> Settles(s.burns, s.log[i]))
  }

  ghost predicate Inv(s: State) {
    Wired(s) && Backed(s) && Pooled(s) && Conserved(s) && ExitsOnce(s)
  }

  // ---- how a single write moves a total ----

  function DebtAt(vaults: map<Address, Vault>, lp: Address): (n: nat) {
    if lp in vaults then vaults[lp].debt else 0
  }

  lemma DebtWrite(vaults: map<Address, Vault>, lp: Address, v: Vault)
    ensures Total(Debts(vaults[lp := v])) + DebtAt(vaults, lp) == Total(Debts(vaults)) + v.debt
  {
    hide Total;
    TotalUpdate(Debts(vaults), lp, v.debt);
    assert Debts(vaults[lp := v]) == Debts(vaults)[lp := v.debt];
  }

  lemma CollateralWrite(vaults: map<Address, Vault>, lp: Address, v: Vault, a: Asset)
    requires lp in vaults && v.asset == vaults[lp].asset
    ensures Total(CollateralIn(vaults[lp := v], a)) + (if v.asset == a then vaults[lp].collateral else 0)
         == Total(CollateralIn(vaults, a)) + (if v.asset == a then v.collateral else 0)
  {
    hide Total;
    var c := if v.asset == a then v.collateral else 0;
    TotalUpdate(CollateralIn(vaults, a), lp, c);
    assert CollateralIn(vaults[lp := v], a) == CollateralIn(vaults, a)[lp := c];
  }

  lemma EscrowWrite(vaults: map<Address, Vault>, burns: map<Id, BurnRequest>, id: Id, q: BurnRequest, a: Asset)
    ensures Total(EscrowIn(vaults, burns[id := q], a)) + (if id in burns && EscrowedIn(vaults, burns[id], a) then burns[id].escrow else 0)
         == Total(EscrowIn(vaults, burns, a)) + (if EscrowedIn(vaults, q, a) then q.escrow else 0)
  {
    hide Total;
    var c := if EscrowedIn(vaults, q, a) then q.escrow else 0;
    TotalUpdate(EscrowIn(vaults, burns, a), id, c);
    assert EscrowIn(vaults, burns[id := q], a) == EscrowIn(vaults, burns, a)[id := c];
  }

  /** Escrows do not depend on what a vault holds, only on its asset. */
  lemma EscrowFrame(vaults: map<Address, Vault>, burns: map<Id, BurnRequest>, lp: Address, v: Vault, a: Asset)
    requires lp in vaults ==> v.asset == vaults[lp].asset
    requires forall id :: id in burns ==> burns[id].lpVault in vaults
    ensures EscrowIn(vaults[lp := v], burns, a) == EscrowIn(vaults, burns, a)
  {
  }

  lemma IssuedWrite(mints: map<Id, MintRequest>, id: Id, q: MintRequest)
    requires id in mints ==> !mints[id].status.MintCompleted?
    ensures Total(Issued(mints[id := q])) == Total(Issued(mints)) + (if q.status.MintCompleted? then q.wsxmrAmount else 0)
  {
    hide Total;
    var c := if q.status.MintCompleted? then q.wsxmrAmount else 0;
    TotalUpdate(Issued(mints), id, c);
    assert Issued(mints[id := q]) == Issued(mints)[id := c];
  }

  lemma BurnedWrite(burns: map<Id, BurnRequest>, id: Id, q: BurnRequest)
    ensures Total(Burned(burns[id := q])) + (if id in burns then burns[id].wsxmrAmount else 0) == Total(Burned(burns)) + q.wsxmrAmount
  {
    hide Total;
    TotalUpdate(Burned(burns), id, q.wsxmrAmount);
    assert Burned(burns[id := q]) == Burned(burns)[id := q.wsxmrAmount];
  }

  lemma LogAppend(log: seq<Event>, ev: Event)
    ensures LiquidatedDebt(log + [ev]) == LiquidatedDebt(log) + match ev case VaultLiquidated(_, _, _, d, _) => d case _ => 0
    ensures forall id :: Exits(log + [ev], id) == Exits(log, id) + if LeavesEscrow(ev, id) then 1 else 0
  {
    assert (log + [ev])[..|log|] == log;
  }

  // ---- every call keeps the invariant ----

  lemma CreateVaultKeeps(s: State, e: Env, asset: Asset)
    requires Inv(s) && CreateVault(s, e, asset).Ok?
    ensures Inv(CreateVault(s, e, asset).value)
  {
    hide Total, Debts, EscrowIn, Issued, Burned, LiquidatedDebt, Exits;
    var t := CreateVault(s, e, asset).value;
    var v := Vault(asset, 0, 0);
    DebtWrite(s.vaults, e.sender, v);
    forall a ensures PoolOf(t, a) {
      assert PoolOf(s, a);
      EscrowFrame(s.vaults, s.burns, e.sender, v, a);
      TotalUpdate(CollateralIn(s.vaults, a), e.sender, 0);
      assert CollateralIn(t.vaults, a) == CollateralIn(s.vaults, a)[e.sender := 0];
    }
  }

  /** A call that moves collateral between one vault and the outside keeps the pool balanced. */
  lemma PoolMoves(s: State, t: State, lp: Address, v: Vault, a: Asset)
    requires Wired(s) && PoolOf(s, a) && lp in s.vaults && v.asset == s.vaults[lp].asset
    requires t.vaults == s.vaults[lp := v] && t.burns == s.burns
    requires At(t.holdings, v.asset) + s.vaults[lp].collateral == At(s.holdings, v.asset) + v.collateral && At(t.holdings, v.asset) <= MAX_UINT
    requires forall b :: b != v.asset ==> At(t.holdings, b) == At(s.holdings, b)
    ensures PoolOf(t, a)
  {
    hide Total, CollateralIn, EscrowIn;
    CollateralWrite(s.vaults, lp, v, a);
    EscrowFrame(s.vaults, s.burns, lp, v, a);
  }

  lemma DepositKeeps(s: State, e: Env, amount: nat)
    requires Inv(s) && DepositCollateral(s, e, amount).Ok?
    ensures Inv(DepositCollateral(s, e, amount).value)
  {
    hide Total, Debts, CollateralIn, EscrowIn, Issued, Burned, LiquidatedDebt, Exits;
    var t := DepositCollateral(s, e, amount).value;
    var v := t.vaults[e.sender];
    DebtWrite(s.vaults, e.sender, v);
    forall a ensures PoolOf(t, a) {
      assert PoolOf(s, a);
      PoolMoves(s, t, e.sender, v, a);
    }
    LogAppend(s.log, t.log[|s.log|]);
    NeutralEvent(s, t, t.log[|s.log|]);
  }

  lemma WithdrawKeeps(s: State, e: Env, amount: nat)
    requires Inv(s) && WithdrawCollateral(s, e, amount).Ok?
    ensures Inv(WithdrawCollateral(s, e, amount).value)
  {
    hide CollateralRatio, Total, Debts, CollateralIn, EscrowIn, Issued, Burned, LiquidatedDebt, Exits;
    var t := WithdrawCollateral(s, e, amount).value;
    var v := t.vaults[e.sender];
    DebtWrite(s.vaults, e.sender, v);
    forall a ensures PoolOf(t, a) {
      assert PoolOf(s, a) && PoolOf(s, v.asset);
      PoolMoves(s, t, e.sender, v, a);
    }
    LogAppend(s.log, t.log[|s.log|]);
    NeutralEvent(s, t, t.log[|s.log|]);
  }

  lemma SamePool(s: State, t: State)
    requires Pooled(s) && t.vaults == s.vaults && t.burns == s.burns && t.holdings == s.holdings
    ensures Pooled(t)
  {
    hide Total, CollateralIn, EscrowIn;
    forall a ensures PoolOf(t, a) { assert PoolOf(s, a); }
  }

  lemma InitiateMintKeeps(s: State, e: Env, id: Id, lp: Address, xmr: nat, commitment: nat, duration: nat)
    requires Inv(s) && InitiateMint(s, e, id, lp, xmr, commitment, duration).Ok?
    ensures Inv(InitiateMint(s, e, id, lp, xmr, commitment, duration).value)
  {
    hide CollateralRatio, Total, Debts, CollateralIn, EscrowIn, Issued, Burned, LiquidatedDebt, Exits;
    var t := InitiateMint(s, e, id, lp, xmr, commitment, duration).value;
    IssuedWrite(s.mints, id, t.mints[id]);
    SamePool(s, t);
  }

  lemma SetMintReadyKeeps(s: State, e: Env, id: Id)
    requires Inv(s) && SetMintReady(s, e, id).Ok?
    ensures Inv(SetMintReady(s, e, id).value)
  {
    hide Total, Debts, CollateralIn, EscrowIn, Issued, Burned, LiquidatedDebt, Exits;
    var t := SetMintReady(s, e, id).value;
    IssuedWrite(s.mints, id, t.mints[id]);
    SamePool(s, t);
  }

  lemma CancelMintKeeps(s: State, e: Env, id: Id)
    requires Inv(s) && CancelMint(s, e, id).Ok?
    ensures Inv(CancelMint(s, e, id).value)
  {
    hide Total, Debts, CollateralIn, EscrowIn, Issued, Burned, LiquidatedDebt, Exits;
    var t := CancelMint(s, e, id).value;
    IssuedWrite(s.mints, id, t.mints[id]);
    SamePool(s, t);
  }

  lemma FinalizeMintKeeps(s: State, e: Env, id: Id, secret: nat)
    requires Inv(s) && FinalizeMint(s, e, id, secret).Ok?
    ensures Inv(FinalizeMint(s, e, id, secret).value)
  {
    hide Total, Debts, CollateralIn, EscrowIn, Issued, Burned, LiquidatedDebt, Exits;
    var t := FinalizeMint(s, e, id, secret).value;
    var q := s.mints[id];
    var v := t.vaults[q.lpVault];
    IssuedWrite(s.mints, id, t.mints[id]);
    DebtWrite(s.vaults, q.lpVault, v);
    TotalUpdate(s.balances, q.user, At(s.balances, q.user) + q.wsxmrAmount);
    forall a ensures PoolOf(t, a) {
      assert PoolOf(s, a) && PoolOf(s, v.asset);
      PoolMoves(s, t, q.lpVault, v, a);
    }
  }

  /** A call that moves collateral between one vault, one escrow and the outside keeps the pool balanced. */
  lemma PoolMovesEscrow(s: State, t: State, lp: Address, v: Vault, id: Id, q: BurnRequest, a: Asset)
    requires Wired(s) && PoolOf(s, a) && lp in s.vaults && v.asset == s.vaults[lp].asset && q.lpVault == lp
    requires id in s.burns ==> s.burns[id].lpVault == lp
    requires t.vaults == s.vaults[lp := v] && t.burns == s.burns[id := q]
    requires var inEscrow := if id in s.burns && s.burns[id].status.BurnPending? then s.burns[id].escrow else 0;
             var nowEscrow := if q.status.BurnPending? then q.escrow else 0;
             At(t.holdings, v.asset) + s.vaults[lp].collateral + inEscrow == At(s.holdings, v.asset) + v.collateral + nowEscrow
    requires At(t.holdings, v.asset) <= MAX_UINT
    requires forall b :: b != v.asset ==> At(t.holdings, b) == At(s.holdings, b)
    ensures PoolOf(t, a)
  {
    hide Total, CollateralIn, EscrowIn;
    CollateralWrite(s.vaults, lp, v, a);
    EscrowFrame(s.vaults, s.burns, lp, v, a);
    EscrowWrite(t.vaults, s.burns, id, q, a);
  }

  lemma InitiateBurnKeeps(s: State, e: Env, id: Id, amount: nat, lp: Address, commitment: nat)
    requires Inv(s) && InitiateBurn(s, e, id, amount, lp, commitment).Ok?
    ensures Inv(InitiateBurn(s, e, id, amount, lp, commitment).value)
  {
    hide BurnTerms, Total, Debts, CollateralIn, EscrowIn, Issued, Burned, LiquidatedDebt, Exits;
    var t := InitiateBurn(s, e, id, amount, lp, commitment).value;
    var v, q := t.vaults[lp], t.burns[id];
    DebtWrite(s.vaults, lp, v);
    BurnedWrite(s.burns, id, q);
    TotalUpdate(s.balances, e.sender, At(s.balances, e.sender) - amount);
    forall a ensures PoolOf(t, a) {
      assert PoolOf(s, a) && PoolOf(s, v.asset);
      PoolMovesEscrow(s, t, lp, v, id, q, a);
    }
    LogAppend(s.log, t.log[|s.log|]);
    NeutralEvent(s, t, t.log[|s.log|]);
  }

  /** An event that settles no burn leaves the settled ones as they were. */
  lemma NeutralEvent(s: State, t: State, ev: Event)
    requires ExitsOnce(s) && t.log == s.log + [ev] && !ev.EscrowReturned? && !ev.EscrowPaid?
    requires forall j :: Settled(s.burns, j) ==> j in t.burns && t.burns[j] == s.burns[j]
    requires forall j :: Settled(t.burns, j) ==> Settled(s.burns, j)
    ensures ExitsOnce(t)
  {
    LogAppend(s.log, ev);
    forall i | 0 <= i < |t.log| ensures Settles(t.burns, t.log[i]) {
      if i < |s.log| {
        assert Settles(s.burns, s.log[i]);
        if s.log[i].EscrowReturned? || s.log[i].EscrowPaid? { assert Settled(s.burns, s.log[i].id); }
      }
    }
  }

  /** Settling a pending request and logging its exit. */
  lemma SettlesOne(s: State, t: State, id: Id, ev: Event)
    requires ExitsOnce(s) && t.log == s.log + [ev] && id in s.burns && s.burns[id].status.BurnPending?
    requires LeavesEscrow(ev, id) && Settles(t.burns, ev)
    requires t.burns == s.burns[id := t.burns[id]]
    ensures ExitsOnce(t)
  {
    LogAppend(s.log, ev);
    assert Exits(s.log, id) == 0;
    NoExitNoEvent(s.log, id);
    forall i | 0 <= i < |t.log| ensures Settles(t.burns, t.log[i]) {
      if i < |s.log| { assert Settles(s.burns, s.log[i]); }
    }
  }

  lemma {:induction false} NoExitNoEvent(log: seq<Event>, id: Id)
    requires Exits(log, id) == 0
    ensures forall i :: 0 <= i < |log| ==> !LeavesEscrow(log[i], id)
  {
    if log != [] {
      var init := log[..|log| - 1];
      NoExitNoEvent(init, id);
      forall i | 0 <= i < |log| ensures !LeavesEscrow(log[i], id) {
        if i < |init| { assert init[i] == log[i]; }
      }
    }
  }

  lemma FinalizeBurnKeeps(s: State, e: Env, id: Id, secret: nat)
    requires Inv(s) && FinalizeBurn(s, e, id, secret).Ok?
    ensures Inv(FinalizeBurn(s, e, id, secret).value)
  {
    hide Total, Debts, CollateralIn, EscrowIn, Issued, Burned, LiquidatedDebt, Exits;
    var t := FinalizeBurn(s, e, id, secret).value;
    var q := t.burns[id];
    var v := t.vaults[q.lpVault];
    DebtWrite(s.vaults, q.lpVault, v);
    BurnedWrite(s.burns, id, q);
    LogAppend(s.log, t.log[|s.log|]);
    forall a ensures PoolOf(t, a) {
      assert PoolOf(s, a) && PoolOf(s, v.asset);
      PoolMovesEscrow(s, t, q.lpVault, v, id, q, a);
    }
    SettlesOne(s, t, id, t.log[|s.log|]);
  }

  lemma ClaimSlashedKeeps(s: State, e: Env, id: Id)
    requires Inv(s) && ClaimSlashedCollateral(s, e, id).Ok?
    ensures Inv(ClaimSlashedCollateral(s, e, id).value)
  {
    hide Total, Debts, CollateralIn, EscrowIn, Issued, Burned, LiquidatedDebt, Exits;
    var t := ClaimSlashedCollateral(s, e, id).value;
    var q := t.burns[id];
    var v := s.vaults[q.lpVault];
    BurnedWrite(s.burns, id, q);
    LogAppend(s.log, t.log[|s.log|]);
    assert t.vaults == s.vaults[q.lpVault := v];
    forall a ensures PoolOf(t, a) {
      assert PoolOf(s, a) && PoolOf(s, v.asset);
      PoolMovesEscrow(s, t, q.lpVault, v, id, q, a);
    }
    SettlesOne(s, t, id, t.log[|s.log|]);
  }

  lemma LiquidateKeeps(s: State, e: Env, lp: Address, debtToClear: nat)
    requires Inv(s) && Liquidate(s, e, lp, debtToClear).Ok?
    ensures Inv(Liquidate(s, e, lp, debtToClear).value)
  {
    hide LiquidationTerms, Total, Debts, CollateralIn, EscrowIn, Issued, Burned, LiquidatedDebt, Exits;
    var t := Liquidate(s, e, lp, debtToClear).value;
    var v := t.vaults[lp];
    DebtWrite(s.vaults, lp, v);
    TotalUpdate(s.balances, e.sender, t.balances[e.sender]);
    LogAppend(s.log, t.log[|s.log|]);
    forall a ensures PoolOf(t, a) {
      assert PoolOf(s, a) && PoolOf(s, v.asset);
      PoolMoves(s, t, lp, v, a);
    }
    NeutralEvent(s, t, t.log[|s.log|]);
  }

  lemma TransferKeeps(s: State, e: Env, to: Address, amount: nat)
    requires Inv(s) && TransferToken(s, e, to, amount).Ok?
    ensures Inv(TransferToken(s, e, to, amount).value)
  {
    hide Total, Debts, CollateralIn, EscrowIn, Issued, Burned, LiquidatedDebt, Exits;
    var t := TransferToken(s, e, to, amount).value;
    var taken := s.balances[e.sender := At(s.balances, e.sender) - amount];
    TotalUpdate(s.balances, e.sender, At(s.balances, e.sender) - amount);
    TotalUpdate(taken, to, At(taken, to) + amount);
    SamePool(s, t);
  }

  lemma StepKeeps(s: State, e: Env, c: Call)
    requires Inv(s)
    ensures Inv(Step(s, e, c))
  {
    hide Inv, CreateVault, DepositCollateral, WithdrawCollateral, InitiateMint, SetMintReady, FinalizeMint, CancelMint,
         InitiateBurn, FinalizeBurn, ClaimSlashedCollateral, Liquidate, TransferToken;
    if Execute(s, e, c).Ok? {
      match c
      case CallCreateVault(asset) => CreateVaultKeeps(s, e, asset);
      case CallDeposit(amount) => DepositKeeps(s, e, amount);
      case CallWithdraw(amount) => WithdrawKeeps(s, e, amount);
      case CallInitiateMint(id, lp, xmr, commitment, duration) => InitiateMintKeeps(s, e, id, lp, xmr, commitment, duration);
      case CallSetMintReady(id) => SetMintReadyKeeps(s, e, id);
      case CallFinalizeMint(id, secret) => FinalizeMintKeeps(s, e, id, secret);
      case CallCancelMint(id) => CancelMintKeeps(s, e, id);
      case CallInitiateBurn(id, amount, lp, commitment) => InitiateBurnKeeps(s, e, id, amount, lp, commitment);
      case CallFinalizeBurn(id, secret) => FinalizeBurnKeeps(s, e, id, secret);
      case CallClaimSlashed(id) => ClaimSlashedKeeps(s, e, id);
      case CallLiquidate(lp, debt) => LiquidateKeeps(s, e, lp, debt);
      case CallTransfer(to, amount) => TransferKeeps(s, e, to, amount);
      case CallAddSupport(asset, feedId) => SupportKeeps(s, AddCollateralSupport(s, e, asset, feedId).value);
      case CallRemoveSupport(asset) => SupportKeeps(s, RemoveCollateralSupport(s, e, asset).value);
    }
  }

  lemma SupportKeeps(s: State, t: State)
    requires Inv(s) && t == s.(supported := t.supported)
    ensures Inv(t)
  {
    hide Total, Debts, CollateralIn, EscrowIn, Issued, Burned, LiquidatedDebt, Exits;
    SamePool(s, t);
  }

  lemma InitialHolds(owner: Address)
    ensures Inv(Initial(owner))
  {
    var s := Initial(owner);
    assert Debts(s.vaults) == map[] && Issued(s.mints) == map[] && Burned(s.burns) == map[];
    forall a ensures PoolOf(s, a) {
      assert CollateralIn(s.vaults, a) == map[] && EscrowIn(s.vaults, s.burns, a) == map[];
    }
  }

  /** The invariant holds in every reachable state. */
  lemma {:induction false} Reachable(owner: Address, steps: seq<(Env, Call)>)
    ensures Inv(Run(Initial(owner), steps))
    decreases |steps|
  {
    hide Inv, Step, Initial;
    if steps == [] {
      InitialHolds(owner);
    } else {
      var n := |steps| - 1;
      Reachable(owner, steps[..n]);
      StepKeeps(Run(Initial(owner), steps[..n]), steps[n].0, steps[n].1);
    }
  }

  // ---- what the invariant means for users ----

  /** In every reachable state each wsXMR in circulation is owed by exactly one vault. */
  lemma SupplyIsDebt(owner: Address, steps: seq<(Env, Call)>)
    ensures var s := Run(Initial(owner), steps);
            s.supply == Total(Debts(s.vaults)) == Total(s.balances)
  {
    Reachable(owner, steps);
  }

  /** In every reachable state the manager holds, of each asset, exactly the collateral of the vaults
      in that asset plus the escrow of their pending burns. */
  lemma PoolIsCollateralAndEscrow(owner: Address, steps: seq<(Env, Call)>, a: Asset)
    ensures var s := Run(Initial(owner), steps);
            At(s.holdings, a) == Total(CollateralIn(s.vaults, a)) + Total(EscrowIn(s.vaults, s.burns, a))
  {
    Reachable(owner, steps);
    assert PoolOf(Run(Initial(owner), steps), a);
  }

  /** In every run each burn's escrow leaves at most once: never while pending, to the vault before the
      deadline if the burn completed, to the user from the deadline on if it was slashed. */
  lemma EscrowLeavesOnce(owner: Address, steps: seq<(Env, Call)>, id: Id)
    ensures var s := Run(Initial(owner), steps);
            && Exits(s.log, id) == (if Settled(s.burns, id) then 1 else 0)
            && (forall i :: 0 <= i < |s.log| ==> Settles(s.burns, s.log[i]))
  {
    Reachable(owner, steps);
  }

  /** XMR units locked by finalized mints cover all wsXMR ever issued, in circulation or not, and
      exceed it by less than one wsXMR unit per mint; so burns never ask for more XMR than was locked. */
  lemma IssuedAgainstLockedXmr(owner: Address, steps: seq<(Env, Call)>)
    ensures var s := Run(Initial(owner), steps);
            var wsxmr := s.supply + Total(Burned(s.burns)) + LiquidatedDebt(s.log);
            && XMR_PER_WSXMR * wsxmr <= Total(Locked(s.mints))
            && Total(Locked(s.mints)) <= XMR_PER_WSXMR * wsxmr + (XMR_PER_WSXMR - 1) * Total(Finalized(s.mints))
            && Total(Redeemed(s.burns)) == XMR_PER_WSXMR * Total(Burned(s.burns)) <= Total(Locked(s.mints))
  {
    hide Total, LiquidatedDebt, Exits, Run, Initial, PoolOf, ExitsOnce, Debts;
    Reachable(owner, steps);
    var s := Run(Initial(owner), steps);
    TotalBounds(Issued(s.mints), Locked(s.mints), Finalized(s.mints), XMR_PER_WSXMR);
    var none := map id | id in s.burns :: 0;
    TotalBounds(Burned(s.burns), Redeemed(s.burns), none, XMR_PER_WSXMR);
    TotalZero(none);
  }

  lemma {:induction false} TotalZero<K(!new)>(m: map<K, nat>)
    requires forall k :: k in m ==> m[k] == 0
    ensures Total(m) == 0
    decreases |m|
  {
    if k :| k in m {
      TotalRemove(m, k);
      TotalZero(m - {k});
    } else {
      assert m == map[];
    }
  }

  /** A user whose burn was not honoured by the deadline can always collect the escrow: in every
      reachable state the call succeeds exactly under its own guards, never for want of funds. */
  lemma SlashedClaimPays(owner: Address, steps: seq<(Env, Call)>, e: Env, id: Id)
    ensures var s := Run(Initial(owner), steps);
            (ClaimSlashedCollateral(s, e, id).Ok? <==>
               id in s.burns && s.burns[id].status.BurnPending? && e.sender == s.burns[id].user && e.time >= s.burns[id].deadline)
  {
    hide Total;
    Reachable(owner, steps);
    var s := Run(Initial(owner), steps);
    if id in s.burns && s.burns[id].status.BurnPending? {
      var a := s.vaults[s.burns[id].lpVault].asset;
      assert PoolOf(s, a);
      TotalAtLeast(EscrowIn(s.vaults, s.burns, a), id);
    }
  }

  /** Before the deadline a valid secret always returns the escrow to the vault. */
  lemma HonouredBurnReturns(owner: Address, steps: seq<(Env, Call)>, e: Env, id: Id, secret: nat)
    ensures var s := Run(Initial(owner), steps);
            (FinalizeBurn(s, e, id, secret).Ok? <==>
               id in s.burns && s.burns[id].status.BurnPending? && e.time < s.burns[id].deadline && e.mulVerify(secret, s.burns[id].refundCommitment))
  {
    hide Total;
    Reachable(owner, steps);
    var s := Run(Initial(owner), steps);
    if id in s.burns && s.burns[id].status.BurnPending? {
      var lp := s.burns[id].lpVault;
      var a := s.vaults[lp].asset;
      assert PoolOf(s, a);
      TotalAtLeast(EscrowIn(s.vaults, s.burns, a), id);
      TotalAtLeast(CollateralIn(s.vaults, a), lp);
    }
  }

  /** A ready mint with a valid secret finalizes unless the token supply itself would overflow. */
  lemma ReadyMintFinalizes(owner: Address, steps: seq<(Env, Call)>, e: Env, id: Id, secret: nat)
    ensures var s := Run(Initial(owner), steps);
            (FinalizeMint(s, e, id, secret).Ok? <==>
               && id in s.mints
               && s.mints[id].status.MintReady?
               && e.mulVerify(secret, s.mints[id].claimCommitment)
               && s.supply + s.mints[id].wsxmrAmount <= MAX_UINT)
  {
    hide Total;
    Reachable(owner, steps);
    var s := Run(Initial(owner), steps);
    if id in s.mints {
      TotalAtLeast(Debts(s.vaults), s.mints[id].lpVault);
    }
  }

  /** A vault without debt can withdraw any part of its collateral, whatever the oracles say. */
  lemma DebtFreeVaultWithdraws(owner: Address, steps: seq<(Env, Call)>, e: Env, amount: nat)
    requires var s := Run(Initial(owner), steps); e.sender in s.vaults && s.vaults[e.sender].debt == 0
    ensures var s := Run(Initial(owner), steps);
            WithdrawCollateral(s, e, amount).Ok? <==> 0 < amount <= s.vaults[e.sender].collateral
  {
    hide Total;
    Reachable(owner, steps);
    var s := Run(Initial(owner), steps);
    var a := s.vaults[e.sender].asset;
    assert PoolOf(s, a);
    TotalAtLeast(CollateralIn(s.vaults, a), e.sender);
  }

  // ---- requests only move forward ----

  function MintRank(st: MintStatus): (n: nat) {
    match st case MintPending => 0 case MintReady => 1 case MintCompleted => 2 case MintCancelled => 2
  }

  /** Nothing but the status of a request ever changes, and only forward. */
  ghost predicate MintsAdvance(s: State, t: State) {
    forall id :: id in s.mints ==>
      && id in t.mints
      && t.mints[id] == s.mints[id].(status := t.mints[id].status)
      && (t.mints[id].status == s.mints[id].status || MintRank(s.mints[id].status) < MintRank(t.mints[id].status))
  }

  ghost predicate BurnsAdvance(s: State, t: State) {
    forall id :: id in s.burns ==>
      && id in t.burns
      && t.burns[id] == s.burns[id].(status := t.burns[id].status)
      && (t.burns[id].status == s.burns[id].status || s.burns[id].status.BurnPending?)
  }

  /** A vault keeps its asset for ever. */
  ghost predicate VaultsStay(s: State, t: State) {
    forall lp :: lp in s.vaults ==> lp in t.vaults && t.vaults[lp].asset == s.vaults[lp].asset
  }

  lemma StepAdvancesMints(s: State, e: Env, c: Call)
    ensures MintsAdvance(s, Step(s, e, c))
  {
    hide CollateralRatio, BurnTerms, LiquidationTerms;
  }

  lemma StepAdvancesBurns(s: State, e: Env, c: Call)
    ensures BurnsAdvance(s, Step(s, e, c))
  {
    hide CollateralRatio, BurnTerms, LiquidationTerms;
  }

  lemma StepKeepsVaults(s: State, e: Env, c: Call)
    ensures VaultsStay(s, Step(s, e, c))
  {
    hide CollateralRatio, BurnTerms, LiquidationTerms;
  }

  /** Over every continuation of every run, finished requests stay finished. */
  lemma {:induction false} RequestsAdvance(s: State, steps: seq<(Env, Call)>)
    ensures MintsAdvance(s, Run(s, steps)) && BurnsAdvance(s, Run(s, steps)) && VaultsStay(s, Run(s, steps))
    decreases |steps|
  {
    hide Step;
    if steps != [] {
      var n := |steps| - 1;
      RequestsAdvance(s, steps[..n]);
      var m, e, c := Run(s, steps[..n]), steps[n].0, steps[n].1;
      StepAdvancesMints(m, e, c);
      StepAdvancesBurns(m, e, c);
      StepKeepsVaults(m, e, c);
    }
  }
}
