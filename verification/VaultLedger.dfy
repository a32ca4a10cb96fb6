/** Who received what, in every run of the VaultManager: payments against the log, each vault's collateral against
    its own movements, and each vault's debt against its own mints, burns and liquidations. */
module VaultLedger {
  import opened Sums
  import opened Wrappers
  import opened Evm
  import opened VaultModel
  import VaultRuns

  // ---- what the log says ----

  /** What an event pays to an address, in an asset. */
  function Credit(ev: Event, to: Address, a: Asset): (n: nat) {
    match ev
    case Withdrawn(lp, asset, amount) => if lp == to && asset == a then amount else 0
    case EscrowPaid(_, user, asset, amount, _) => if user == to && asset == a then amount else 0
    case VaultLiquidated(_, keeper, asset, _, seized) => if keeper == to && asset == a then seized else 0
    case _ => 0
  }

  function Credited(log: seq<Event>, to: Address, a: Asset): (n: nat) {
    if log == [] then 0 else Credited(log[..|log| - 1], to, a) + Credit(log[|log| - 1], to, a)
  }

  /** What an event does to the collateral of a vault. */
  function Movement(ev: Event, lp: Address): (n: int) {
    match ev
    case Deposited(p, _, amount) => if p == lp then amount else 0
    case Withdrawn(p, _, amount) => if p == lp then 0 - amount else 0
    case Escrowed(_, p, _, amount) => if p == lp then 0 - amount else 0
    case EscrowReturned(_, p, _, amount, _) => if p == lp then amount else 0
    case VaultLiquidated(p, _, _, _, seized) => if p == lp then 0 - seized else 0
    case EscrowPaid(_, _, _, _, _) => 0
  }

  function Moved(log: seq<Event>, lp: Address): (n: int) {
    if log == [] then 0 else Moved(log[..|log| - 1], lp) + Movement(log[|log| - 1], lp)
  }

  function Cleared(ev: Event, lp: Address): (n: nat) {
    match ev case VaultLiquidated(p, _, _, debt, _) => (if p == lp then debt else 0) case _ => 0
  }

  function LiquidatedOf(log: seq<Event>, lp: Address): (n: nat) {
    if log == [] then 0 else LiquidatedOf(log[..|log| - 1], lp) + Cleared(log[|log| - 1], lp)
  }

  lemma LogAppend(log: seq<Event>, ev: Event, x: Address, a: Asset)
    ensures Credited(log + [ev], x, a) == Credited(log, x, a) + Credit(ev, x, a)
    ensures Moved(log + [ev], x) == Moved(log, x) + Movement(ev, x)
    ensures LiquidatedOf(log + [ev], x) == LiquidatedOf(log, x) + Cleared(ev, x)
  {
    assert (log + [ev])[..|log|] == log;
  }

  // ---- the books ----

  /** An address has received exactly what the log says it was paid. */
  predicate Ledger(s: State, to: Address, a: Asset) {
    At(s.paid, (to, a)) == Credited(s.log, to, a)
  }

  /** A vault holds exactly what the log says moved in and out of it. */
  predicate Account(s: State, lp: Address) {
    (if lp in s.vaults then s.vaults[lp].collateral else 0) == Moved(s.log, lp)
  }

  ghost function IssuedBy(mints: map<Id, MintRequest>, lp: Address): (m: map<Id, nat>) {
    map id | id in mints :: if mints[id].status.MintCompleted? && mints[id].lpVault == lp then mints[id].wsxmrAmount else 0
  }

  ghost function BurnedBy(burns: map<Id, BurnRequest>, lp: Address): (m: map<Id, nat>) {
    map id | id in burns :: if burns[id].lpVault == lp then burns[id].wsxmrAmount else 0
  }

  /** A vault owes exactly its own finalized mints, less its own burns and liquidations. */
  ghost predicate Owes(s: State, lp: Address) {
    Total(IssuedBy(s.mints, lp)) == VaultRuns.DebtAt(s.vaults, lp) + Total(BurnedBy(s.burns, lp)) + LiquidatedOf(s.log, lp)
  }

  /** An event names a vault's own asset, and an escrow event its own request. */
  predicate Fits(s: State, ev: Event) {
    match ev
    case EscrowPaid(id, user, asset, amount, _) =>
      && id in s.burns && s.burns[id].user == user && s.burns[id].escrow == amount
      && s.burns[id].lpVault in s.vaults && s.vaults[s.burns[id].lpVault].asset == asset
    case Escrowed(id, lp, asset, amount) =>
      id in s.burns && s.burns[id].lpVault == lp && s.burns[id].escrow == amount && lp in s.vaults && s.vaults[lp].asset == asset
    case EscrowReturned(id, lp, asset, amount, _) =>
      id in s.burns && s.burns[id].lpVault == lp && s.burns[id].escrow == amount && lp in s.vaults && s.vaults[lp].asset == asset
    case _ => ev.lp in s.vaults && s.vaults[ev.lp].asset == ev.asset
  }

  /** One page: an address as recipient of one asset, and as the owner of a vault. */
  ghost predicate Page(s: State, x: Address, a: Asset) {
    Ledger(s, x, a) && Account(s, x) && Owes(s, x)
  }

  ghost predicate Books(s: State) {
    && (forall x, a :: Page(s, x, a))
    && (forall i :: 0 <= i < |s.log| ==> Fits(s, s.log[i]))
  }

  // ---- every call keeps the books ----

  lemma IssuedWrite(mints: map<Id, MintRequest>, id: Id, q: MintRequest, lp: Address)
    ensures Total(IssuedBy(mints[id := q], lp)) + (if id in mints then IssuedBy(mints, lp)[id] else 0)
         == Total(IssuedBy(mints, lp)) + IssuedBy(mints[id := q], lp)[id]
  {
    hide Total;
    var c := IssuedBy(mints[id := q], lp)[id];
    TotalUpdate(IssuedBy(mints, lp), id, c);
    assert IssuedBy(mints[id := q], lp) == IssuedBy(mints, lp)[id := c];
  }

  lemma BurnedWrite(burns: map<Id, BurnRequest>, id: Id, q: BurnRequest, lp: Address)
    ensures Total(BurnedBy(burns[id := q], lp)) + (if id in burns then BurnedBy(burns, lp)[id] else 0)
         == Total(BurnedBy(burns, lp)) + BurnedBy(burns[id := q], lp)[id]
  {
    hide Total;
    var c := BurnedBy(burns[id := q], lp)[id];
    TotalUpdate(BurnedBy(burns, lp), id, c);
    assert BurnedBy(burns[id := q], lp) == BurnedBy(burns, lp)[id := c];
  }

  lemma DepositPage(s: State, e: Env, amount: nat, x: Address, a: Asset)
    requires Page(s, x, a) && DepositCollateral(s, e, amount).Ok?
    ensures Page(DepositCollateral(s, e, amount).value, x, a)
  {
    hide Credited, Moved, LiquidatedOf, Total, IssuedBy, BurnedBy;
    var t := DepositCollateral(s, e, amount).value;
    LogAppend(s.log, t.log[|s.log|], x, a);
  }

  lemma WithdrawPage(s: State, e: Env, amount: nat, x: Address, a: Asset)
    requires Page(s, x, a) && WithdrawCollateral(s, e, amount).Ok?
    ensures Page(WithdrawCollateral(s, e, amount).value, x, a)
  {
    hide Credited, Moved, LiquidatedOf, Total, IssuedBy, BurnedBy, CollateralRatio;
    var t := WithdrawCollateral(s, e, amount).value;
    LogAppend(s.log, t.log[|s.log|], x, a);
  }

  lemma InitiateMintPage(s: State, e: Env, id: Id, lp: Address, xmr: nat, commitment: nat, duration: nat, x: Address, a: Asset)
    requires Page(s, x, a) && InitiateMint(s, e, id, lp, xmr, commitment, duration).Ok?
    ensures Page(InitiateMint(s, e, id, lp, xmr, commitment, duration).value, x, a)
  {
    hide Credited, Moved, LiquidatedOf, Total, CollateralRatio;
    var t := InitiateMint(s, e, id, lp, xmr, commitment, duration).value;
    IssuedWrite(s.mints, id, t.mints[id], x);
  }

  lemma SetMintReadyPage(s: State, e: Env, id: Id, x: Address, a: Asset)
    requires Page(s, x, a) && SetMintReady(s, e, id).Ok?
    ensures Page(SetMintReady(s, e, id).value, x, a)
  {
    hide Credited, Moved, LiquidatedOf, Total;
    var t := SetMintReady(s, e, id).value;
    IssuedWrite(s.mints, id, t.mints[id], x);
  }

  lemma FinalizeMintPage(s: State, e: Env, id: Id, secret: nat, x: Address, a: Asset)
    requires Page(s, x, a) && FinalizeMint(s, e, id, secret).Ok?
    ensures Page(FinalizeMint(s, e, id, secret).value, x, a)
  {
    hide Credited, Moved, LiquidatedOf, Total;
    var t := FinalizeMint(s, e, id, secret).value;
    IssuedWrite(s.mints, id, t.mints[id], x);
  }

  lemma CancelMintPage(s: State, e: Env, id: Id, x: Address, a: Asset)
    requires Page(s, x, a) && CancelMint(s, e, id).Ok?
    ensures Page(CancelMint(s, e, id).value, x, a)
  {
    hide Credited, Moved, LiquidatedOf, Total;
    var t := CancelMint(s, e, id).value;
    IssuedWrite(s.mints, id, t.mints[id], x);
  }

  lemma InitiateBurnPage(s: State, e: Env, id: Id, amount: nat, lp: Address, commitment: nat, x: Address, a: Asset)
    requires Page(s, x, a) && InitiateBurn(s, e, id, amount, lp, commitment).Ok?
    ensures Page(InitiateBurn(s, e, id, amount, lp, commitment).value, x, a)
  {
    hide Credited, Moved, LiquidatedOf, Total, BurnTerms;
    var t := InitiateBurn(s, e, id, amount, lp, commitment).value;
    LogAppend(s.log, t.log[|s.log|], x, a);
    BurnedWrite(s.burns, id, t.burns[id], x);
  }

  lemma FinalizeBurnPage(s: State, e: Env, id: Id, secret: nat, x: Address, a: Asset)
    requires Page(s, x, a) && FinalizeBurn(s, e, id, secret).Ok?
    ensures Page(FinalizeBurn(s, e, id, secret).value, x, a)
  {
    hide Credited, Moved, LiquidatedOf, Total;
    var t := FinalizeBurn(s, e, id, secret).value;
    LogAppend(s.log, t.log[|s.log|], x, a);
    BurnedWrite(s.burns, id, t.burns[id], x);
  }

  lemma ClaimSlashedPage(s: State, e: Env, id: Id, x: Address, a: Asset)
    requires Page(s, x, a) && ClaimSlashedCollateral(s, e, id).Ok?
    ensures Page(ClaimSlashedCollateral(s, e, id).value, x, a)
  {
    hide Credited, Moved, LiquidatedOf, Total;
    var t := ClaimSlashedCollateral(s, e, id).value;
    LogAppend(s.log, t.log[|s.log|], x, a);
    BurnedWrite(s.burns, id, t.burns[id], x);
  }

  lemma LiquidatePage(s: State, e: Env, lp: Address, debt: nat, x: Address, a: Asset)
    requires Page(s, x, a) && Liquidate(s, e, lp, debt).Ok?
    ensures Page(Liquidate(s, e, lp, debt).value, x, a)
  {
    hide Credited, Moved, LiquidatedOf, Total, IssuedBy, BurnedBy, LiquidationTerms;
    var t := Liquidate(s, e, lp, debt).value;
    LogAppend(s.log, t.log[|s.log|], x, a);
  }

  lemma PageKept(s: State, e: Env, c: Call, x: Address, a: Asset)
    requires Page(s, x, a)
    ensures Page(Step(s, e, c), x, a)
  {
    hide Page, DepositCollateral, WithdrawCollateral, InitiateMint, SetMintReady, FinalizeMint, CancelMint,
         InitiateBurn, FinalizeBurn, ClaimSlashedCollateral, Liquidate;
    if Execute(s, e, c).Ok? {
      match c
      case CallDeposit(amount) => DepositPage(s, e, amount, x, a);
      case CallWithdraw(amount) => WithdrawPage(s, e, amount, x, a);
      case CallInitiateMint(id, lp, xmr, commitment, duration) => InitiateMintPage(s, e, id, lp, xmr, commitment, duration, x, a);
      case CallSetMintReady(id) => SetMintReadyPage(s, e, id, x, a);
      case CallFinalizeMint(id, secret) => FinalizeMintPage(s, e, id, secret, x, a);
      case CallCancelMint(id) => CancelMintPage(s, e, id, x, a);
      case CallInitiateBurn(id, amount, lp, commitment) => InitiateBurnPage(s, e, id, amount, lp, commitment, x, a);
      case CallFinalizeBurn(id, secret) => FinalizeBurnPage(s, e, id, secret, x, a);
      case CallClaimSlashed(id) => ClaimSlashedPage(s, e, id, x, a);
      case CallLiquidate(lp, debt) => LiquidatePage(s, e, lp, debt, x, a);
      case _ => OtherPage(s, e, c, x, a);
    }
  }

  /** Creating a vault, moving tokens and changing the supported assets touch no account. */
  lemma OtherPage(s: State, e: Env, c: Call, x: Address, a: Asset)
    requires Page(s, x, a) && (c.CallCreateVault? || c.CallTransfer? || c.CallAddSupport? || c.CallRemoveSupport?)
    ensures Page(Step(s, e, c), x, a)
  {
    hide Credited, Moved, LiquidatedOf, Total, IssuedBy, BurnedBy;
  }

  lemma FitsStays(s: State, t: State, ev: Event)
    requires Fits(s, ev) && VaultRuns.BurnsAdvance(s, t) && VaultRuns.VaultsStay(s, t)
    ensures Fits(t, ev)
  {
  }

  /** The event of a call fits the state the call leaves. */
  lemma NewEventFits(s: State, e: Env, c: Call)
    ensures var t := Step(s, e, c); t.log == s.log || (|t.log| == |s.log| + 1 && t.log[..|s.log|] == s.log && Fits(t, t.log[|s.log|]))
  {
    hide CollateralRatio, BurnTerms, LiquidationTerms;
  }

  lemma BooksKept(s: State, e: Env, c: Call)
    requires Books(s)
    ensures Books(Step(s, e, c))
  {
    hide Step, Page, Fits;
    var t := Step(s, e, c);
    forall x, a ensures Page(t, x, a) { PageKept(s, e, c, x, a); }
    NewEventFits(s, e, c);
    VaultRuns.StepAdvancesBurns(s, e, c);
    VaultRuns.StepKeepsVaults(s, e, c);
    forall i | 0 <= i < |t.log| ensures Fits(t, t.log[i]) {
      if i < |s.log| { FitsStays(s, t, s.log[i]); assert t.log[i] == s.log[i]; }
    }
  }

  lemma InitialBooks(owner: Address)
    ensures Books(Initial(owner))
  {
    var s := Initial(owner);
    forall lp, a ensures Page(s, lp, a) {
      assert IssuedBy(s.mints, lp) == map[] && BurnedBy(s.burns, lp) == map[];
    }
  }

  /** In every reachable state the books are right. */
  lemma {:induction false} Reachable(owner: Address, steps: seq<(Env, Call)>)
    ensures Books(Run(Initial(owner), steps))
    decreases |steps|
  {
    hide Books, Step, Initial;
    if steps == [] {
      InitialBooks(owner);
    } else {
      var n := |steps| - 1;
      Reachable(owner, steps[..n]);
      BooksKept(Run(Initial(owner), steps[..n]), steps[n].0, steps[n].1);
    }
  }

  /** In every run each address has received, of each asset, exactly its own withdrawals, the escrows of its own
      slashed burns and what it seized as a keeper. */
  lemma PaidAsLogged(owner: Address, steps: seq<(Env, Call)>, to: Address, a: Asset)
    ensures var s := Run(Initial(owner), steps);
            && At(s.paid, (to, a)) == Credited(s.log, to, a)
            && (forall i :: 0 <= i < |s.log| ==> Fits(s, s.log[i]))
  {
    hide Run, Initial;
    Reachable(owner, steps);
    assert Page(Run(Initial(owner), steps), to, a);
  }

  /** In every run each vault's collateral and debt come from its own movements and nobody else's. */
  lemma VaultAccounts(owner: Address, steps: seq<(Env, Call)>, lp: Address)
    ensures var s := Run(Initial(owner), steps);
            lp in s.vaults ==>
              && s.vaults[lp].collateral == Moved(s.log, lp)
              && s.vaults[lp].debt + Total(BurnedBy(s.burns, lp)) + LiquidatedOf(s.log, lp) == Total(IssuedBy(s.mints, lp))
  {
    hide Run, Initial, Moved, Total;
    Reachable(owner, steps);
    assert Page(Run(Initial(owner), steps), lp, 0);
  }
}
