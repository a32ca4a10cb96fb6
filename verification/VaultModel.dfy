/** The VaultManager contract and its wsXMR token, as a state and one function per external call.
    A call either yields the next state or reverts, leaving everything as it was. */
module VaultModel {
  import opened Numerals
  import opened Sums
  import opened Wrappers
  import opened Evm

  const COLLATERAL_RATIO: nat := 150
  const LIQUIDATION_RATIO: nat := 120
  const LIQUIDATION_BONUS: nat := 110
  const RATIO_PRECISION: nat := 100
  const BURN_TIMEOUT: nat := 86400
  const READY_GRACE: nat := 86400
  const WSXMR_UNIT: nat := 1_0000_0000
  /** Piconero per smallest wsXMR unit: XMR has 12 decimals, wsXMR has 8. */
  const XMR_PER_WSXMR: nat := 10000

  type Id = nat

  datatype Reason =
    | ZeroAddress | ZeroAmount | VaultAlreadyExists | VaultDoesNotExist | InsufficientCollateral
    | InvalidCollateralAsset | MintAlreadyExists | BurnAlreadyExists | InvalidSecret | InvalidStatus
    | TimeoutNotReached | DeadlineExpired | DeadlineNotExpired | VaultHealthy | InsufficientDebt
    | Unauthorized | InvalidValue | StalePrice | InvalidAsset
    | Panic // checked arithmetic or division by zero
    | InsufficientBalance
    | TransferFailed

  type Outcome<+T> = Result<T, Reason>

  datatype Vault = Vault(asset: Asset, collateral: nat, debt: nat)

  datatype MintStatus = MintPending | MintReady | MintCompleted | MintCancelled
  datatype MintRequest = MintRequest(
    user: Address, lpVault: Address, xmrAmount: nat, wsxmrAmount: nat, claimCommitment: nat, timeout: nat, status: MintStatus)

  datatype BurnStatus = BurnPending | BurnCompleted | BurnSlashed
  datatype BurnRequest = BurnRequest(
    user: Address, lpVault: Address, wsxmrAmount: nat, xmrAmount: nat, escrow: nat, refundCommitment: nat, deadline: nat, status: BurnStatus)

  /** The events that move collateral: between a vault and its provider, into and out of escrow, and to keepers. */
  datatype Event =
    | Deposited(lp: Address, asset: Asset, amount: nat)
    | Withdrawn(lp: Address, asset: Asset, amount: nat)
    | Escrowed(id: Id, lp: Address, asset: Asset, amount: nat)
    | EscrowReturned(id: Id, lp: Address, asset: Asset, amount: nat, time: nat)
    | EscrowPaid(id: Id, to: Address, asset: Asset, amount: nat, time: nat)
    | VaultLiquidated(lp: Address, keeper: Address, asset: Asset, debt: nat, seized: nat)

  /** A request absent from its mapping has status INVALID; a vault absent from `vaults` is inactive. `paid` is what
      each address has received of each asset; only the transfer itself writes it. */
  datatype State = State(
    owner: Address,
    supported: set<Asset>,
    vaults: map<Address, Vault>,
    mints: map<Id, MintRequest>,
    burns: map<Id, BurnRequest>,
    balances: map<Address, nat>,
    supply: nat,
    holdings: map<Asset, nat>,
    paid: map<(Address, Asset), nat>,
    log: seq<Event>)

  /** What a transaction sees of the chain; a stale or non-positive price is `None`. */
  datatype Env = Env(
    sender: Address,
    time: nat,
    value: nat,
    xmrPrice: Option<nat>,
    price: Asset -> Option<nat>,
    decimals: Asset -> nat,
    mulVerify: (nat, nat) -> bool)

  function Initial(owner: Address): (s: State) {
    State(owner, {0}, map[], map[], map[], map[], 0, map[], map[], [])
  }

  // ---- checked arithmetic and prices ----

  function Checked(n: nat): (r: Outcome<nat>) {
    if n <= MAX_UINT then Ok(n) else Err(Panic)
  }

  /** `(a * b) / d` with overflow and zero checks; every division rounds down. */
  function MulDiv(a: nat, b: nat, d: nat): (r: Outcome<nat>) {
    if a * b > MAX_UINT || d == 0 then Err(Panic) else Ok(a * b / d)
  }

  function XmrPrice(e: Env): (r: Outcome<nat>) {
    match e.xmrPrice case Some(p) => Ok(p) case None => Err(StalePrice)
  }

  function CollateralPrice(s: State, e: Env, asset: Asset): (r: Outcome<nat>) {
    if asset !in s.supported then Err(InvalidAsset)
    else match e.price(asset) case Some(p) => Ok(p) case None => Err(StalePrice)
  }

  function AssetUnit(e: Env, asset: Asset): (r: Outcome<nat>) {
    Checked(Pow(10, if asset == 0 then 18 else e.decimals(asset)))
  }

  function CollateralRatio(s: State, e: Env, asset: Asset, amount: nat, debt: nat): (r: Outcome<nat>) {
    if debt == 0 then Ok(MAX_UINT)
    else
      var collateralPrice :- CollateralPrice(s, e, asset);
      var xmrPrice :- XmrPrice(e);
      var unit :- AssetUnit(e, asset);
      var collateralValue :- MulDiv(amount, collateralPrice, unit);
      var debtValue :- MulDiv(debt, xmrPrice, WSXMR_UNIT);
      MulDiv(collateralValue, RATIO_PRECISION, debtValue)
  }

  /** Collateral worth `percent` of an amount of wsXMR debt, as burning and liquidating compute it. */
  function CollateralFor(s: State, e: Env, asset: Asset, debt: nat, percent: nat): (r: Outcome<nat>) {
    var xmrPrice :- XmrPrice(e);
    var debtValue :- MulDiv(debt, xmrPrice, WSXMR_UNIT);
    var usd :- MulDiv(debtValue, percent, RATIO_PRECISION);
    var collateralPrice :- CollateralPrice(s, e, asset);
    var unit :- AssetUnit(e, asset);
    MulDiv(usd, unit, collateralPrice)
  }

  // ---- token and pool movements ----

  function MintToken(s: State, to: Address, amount: nat): (r: Outcome<State>) {
    if s.supply + amount > MAX_UINT then Err(Panic)
    else Ok(s.(supply := s.supply + amount, balances := s.balances[to := At(s.balances, to) + amount]))
  }

  function BurnToken(s: State, from: Address, amount: nat): (r: Outcome<State>)
    ensures r.Ok? <==> At(s.balances, from) >= amount && s.supply >= amount
    ensures r.Ok? ==> r.value == s.(balances := r.value.balances, supply := r.value.supply)
    ensures r.Err? ==> r.error == InsufficientBalance
  {
    if At(s.balances, from) < amount || s.supply < amount then Err(InsufficientBalance)
    else Ok(s.(supply := s.supply - amount, balances := s.balances[from := At(s.balances, from) - amount]))
  }

  function TakeIn(s: State, asset: Asset, amount: nat): (r: Outcome<State>) {
    if At(s.holdings, asset) + amount > MAX_UINT then Err(TransferFailed)
    else Ok(s.(holdings := s.holdings[asset := At(s.holdings, asset) + amount]))
  }

  function PayOut(s: State, asset: Asset, to: Address, amount: nat): (r: Outcome<State>)
    ensures r.Ok? <==> At(s.holdings, asset) >= amount
    ensures r.Ok? ==> r.value == s.(holdings := r.value.holdings, paid := r.value.paid)
    ensures r.Err? ==> r.error == TransferFailed
  {
    if At(s.holdings, asset) < amount then Err(TransferFailed)
    else Ok(s.(holdings := s.holdings[asset := At(s.holdings, asset) - amount],
               paid := s.paid[(to, asset) := At(s.paid, (to, asset)) + amount]))
  }

  // ---- external calls ----

  function CreateVault(s: State, e: Env, asset: Asset): (r: Outcome<State>) {
    if e.sender in s.vaults then Err(VaultAlreadyExists)
    else if asset !in s.supported then Err(InvalidCollateralAsset)
    else Ok(s.(vaults := s.vaults[e.sender := Vault(asset, 0, 0)]))
  }

  function DepositCollateral(s: State, e: Env, amount: nat): (r: Outcome<State>) {
    if e.sender !in s.vaults then Err(VaultDoesNotExist)
    else if amount == 0 then Err(ZeroAmount)
    else
      var v := s.vaults[e.sender];
      if e.value != (if v.asset == 0 then amount else 0) then Err(InvalidValue)
      else
        var s1 :- TakeIn(s, v.asset, amount);
        var c :- Checked(v.collateral + amount);
        Ok(s1.(vaults := s.vaults[e.sender := v.(collateral := c)], log := s.log + [Deposited(e.sender, v.asset, amount)]))
  }

  function WithdrawCollateral(s: State, e: Env, amount: nat): (r: Outcome<State>) {
    if e.sender !in s.vaults then Err(VaultDoesNotExist)
    else if amount == 0 then Err(ZeroAmount)
    else
      var v := s.vaults[e.sender];
      if v.collateral < amount then Err(InsufficientCollateral)
      else
        var ratio :- CollateralRatio(s, e, v.asset, v.collateral - amount, v.debt);
        if ratio < COLLATERAL_RATIO then Err(InsufficientCollateral)
        else PayOut(s.(vaults := s.vaults[e.sender := v.(collateral := v.collateral - amount)],
                       log := s.log + [Withdrawn(e.sender, v.asset, amount)]), v.asset, e.sender, amount)
  }

  function InitiateMint(s: State, e: Env, id: Id, lp: Address, xmrAmount: nat, commitment: nat, duration: nat): (r: Outcome<State>) {
    if lp == 0 then Err(ZeroAddress)
    else if xmrAmount == 0 then Err(ZeroAmount)
    else if commitment == 0 then Err(InvalidSecret)
    else if lp !in s.vaults then Err(VaultDoesNotExist)
    else
      var wsxmrAmount := xmrAmount / XMR_PER_WSXMR;
      var v := s.vaults[lp];
      var newDebt :- Checked(v.debt + wsxmrAmount);
      var ratio :- CollateralRatio(s, e, v.asset, v.collateral, newDebt);
      if ratio < COLLATERAL_RATIO then Err(InsufficientCollateral)
      else if id in s.mints then Err(MintAlreadyExists)
      else
        var timeout :- Checked(e.time + duration);
        Ok(s.(mints := s.mints[id := MintRequest(e.sender, lp, xmrAmount, wsxmrAmount, commitment, timeout, MintPending)]))
  }

  function SetMintReady(s: State, e: Env, id: Id): (r: Outcome<State>) {
    if id !in s.mints || !s.mints[id].status.MintPending? then Err(InvalidStatus)
    else if e.sender != s.mints[id].lpVault then Err(Unauthorized)
    else Ok(s.(mints := s.mints[id := s.mints[id].(status := MintReady)]))
  }

  function FinalizeMint(s: State, e: Env, id: Id, secret: nat): (r: Outcome<State>) {
    if id !in s.mints || !s.mints[id].status.MintReady? then Err(InvalidStatus)
    else
      var q := s.mints[id];
      if !e.mulVerify(secret, q.claimCommitment) then Err(InvalidSecret)
      else if q.lpVault !in s.vaults then Err(VaultDoesNotExist)
      else
        var v := s.vaults[q.lpVault];
        var debt :- Checked(v.debt + q.wsxmrAmount);
        var s1 :- MintToken(s, q.user, q.wsxmrAmount);
        Ok(s1.(vaults := s.vaults[q.lpVault := v.(debt := debt)], mints := s.mints[id := q.(status := MintCompleted)]))
  }

  function CancelMint(s: State, e: Env, id: Id): (r: Outcome<State>) {
    if id !in s.mints || s.mints[id].status.MintCompleted? || s.mints[id].status.MintCancelled? then Err(InvalidStatus)
    else
      var q := s.mints[id];
      if e.sender != q.user then Err(Unauthorized)
      else
        var required :- Checked(q.timeout + if q.status.MintReady? then READY_GRACE else 0);
        if e.time < required then Err(TimeoutNotReached)
        else Ok(s.(mints := s.mints[id := q.(status := MintCancelled)]))
  }

  /** The checks of a burn and its terms: the XMR asked for and the escrow set aside. */
  function BurnTerms(s: State, e: Env, id: Id, amount: nat, lp: Address, commitment: nat): (r: Outcome<(nat, nat)>)
    ensures r.Ok? ==> lp in s.vaults && amount <= s.vaults[lp].debt && r.value.1 <= s.vaults[lp].collateral && id !in s.burns
    ensures r.Ok? ==> r.value.0 == amount * XMR_PER_WSXMR
  {
    if amount == 0 then Err(ZeroAmount)
    else if lp == 0 then Err(ZeroAddress)
    else if commitment == 0 then Err(InvalidSecret)
    else if lp !in s.vaults then Err(VaultDoesNotExist)
    else if s.vaults[lp].debt < amount then Err(InsufficientDebt)
    else
      var v := s.vaults[lp];
      var xmrAmount :- Checked(amount * XMR_PER_WSXMR);
      var escrow :- CollateralFor(s, e, v.asset, amount, LIQUIDATION_RATIO);
      if v.collateral < escrow then Err(InsufficientCollateral)
      else if id in s.burns then Err(BurnAlreadyExists)
      else Ok((xmrAmount, escrow))
  }

  function InitiateBurn(s: State, e: Env, id: Id, amount: nat, lp: Address, commitment: nat): (r: Outcome<State>) {
    var (xmrAmount, escrow) :- BurnTerms(s, e, id, amount, lp, commitment);
    var v := s.vaults[lp];
    var s1 :- BurnToken(s, e.sender, amount);
    var deadline :- Checked(e.time + BURN_TIMEOUT);
    Ok(s1.(vaults := s.vaults[lp := v.(collateral := v.collateral - escrow, debt := v.debt - amount)],
           burns := s.burns[id := BurnRequest(e.sender, lp, amount, xmrAmount, escrow, commitment, deadline, BurnPending)],
           log := s.log + [Escrowed(id, lp, v.asset, escrow)]))
  }

  function FinalizeBurn(s: State, e: Env, id: Id, secret: nat): (r: Outcome<State>) {
    if id !in s.burns || !s.burns[id].status.BurnPending? then Err(InvalidStatus)
    else
      var q := s.burns[id];
      if e.time >= q.deadline then Err(DeadlineExpired)
      else if !e.mulVerify(secret, q.refundCommitment) then Err(InvalidSecret)
      else if q.lpVault !in s.vaults then Err(VaultDoesNotExist)
      else
        var v := s.vaults[q.lpVault];
        var c :- Checked(v.collateral + q.escrow);
        Ok(s.(vaults := s.vaults[q.lpVault := v.(collateral := c)],
              burns := s.burns[id := q.(status := BurnCompleted)],
              log := s.log + [EscrowReturned(id, q.lpVault, v.asset, q.escrow, e.time)]))
  }

  function ClaimSlashedCollateral(s: State, e: Env, id: Id): (r: Outcome<State>) {
    if id !in s.burns || !s.burns[id].status.BurnPending? then Err(InvalidStatus)
    else
      var q := s.burns[id];
      if e.sender != q.user then Err(Unauthorized)
      else if e.time < q.deadline then Err(DeadlineNotExpired)
      else if q.lpVault !in s.vaults then Err(VaultDoesNotExist)
      else
        var asset := s.vaults[q.lpVault].asset;
        var s1 :- PayOut(s, asset, q.user, q.escrow);
        Ok(s1.(burns := s.burns[id := q.(status := BurnSlashed)],
               log := s.log + [EscrowPaid(id, q.user, asset, q.escrow, e.time)]))
  }

  /** The checks of a liquidation and its terms: the debt cleared and the collateral seized. */
  function LiquidationTerms(s: State, e: Env, lp: Address, debtToClear: nat): (r: Outcome<(nat, nat)>)
    ensures r.Ok? ==> lp in s.vaults && r.value.0 <= s.vaults[lp].debt && r.value.1 <= s.vaults[lp].collateral
  {
    if lp !in s.vaults then Err(VaultDoesNotExist)
    else if debtToClear == 0 then Err(ZeroAmount)
    else if s.vaults[lp].debt == 0 then Err(InsufficientDebt)
    else
      var v := s.vaults[lp];
      var debt := if debtToClear > v.debt then v.debt else debtToClear;
      var ratio :- CollateralRatio(s, e, v.asset, v.collateral, v.debt);
      if ratio >= LIQUIDATION_RATIO then Err(VaultHealthy)
      else
        var wanted :- CollateralFor(s, e, v.asset, debt, LIQUIDATION_BONUS);
        Ok((debt, if wanted > v.collateral then v.collateral else wanted))
  }

  function Liquidate(s: State, e: Env, lp: Address, debtToClear: nat): (r: Outcome<State>) {
    var (debt, seized) :- LiquidationTerms(s, e, lp, debtToClear);
    var v := s.vaults[lp];
    var s1 :- BurnToken(s, e.sender, debt);
    PayOut(s1.(vaults := s.vaults[lp := v.(collateral := v.collateral - seized, debt := v.debt - debt)],
               log := s.log + [VaultLiquidated(lp, e.sender, v.asset, debt, seized)]), v.asset, e.sender, seized)
  }

  /** A plain ERC-20 transfer of wsXMR between holders. */
  function TransferToken(s: State, e: Env, to: Address, amount: nat): (r: Outcome<State>) {
    if to == 0 then Err(ZeroAddress)
    else if At(s.balances, e.sender) < amount then Err(InsufficientBalance)
    else
      var taken := s.balances[e.sender := At(s.balances, e.sender) - amount];
      Ok(s.(balances := taken[to := At(taken, to) + amount]))
  }

  function AddCollateralSupport(s: State, e: Env, asset: Asset, feedId: nat): (r: Outcome<State>) {
    if e.sender != s.owner then Err(Unauthorized)
    else if feedId == 0 then Err(InvalidAsset)
    else Ok(s.(supported := s.supported + {asset}))
  }

  function RemoveCollateralSupport(s: State, e: Env, asset: Asset): (r: Outcome<State>) {
    if e.sender != s.owner then Err(Unauthorized)
    else Ok(s.(supported := s.supported - {asset}))
  }

  datatype Call =
    | CallCreateVault(asset: Asset)
    | CallDeposit(amount: nat)
    | CallWithdraw(amount: nat)
    | CallInitiateMint(id: Id, lp: Address, xmrAmount: nat, commitment: nat, duration: nat)
    | CallSetMintReady(id: Id)
    | CallFinalizeMint(id: Id, secret: nat)
    | CallCancelMint(id: Id)
    | CallInitiateBurn(id: Id, amount: nat, lp: Address, commitment: nat)
    | CallFinalizeBurn(id: Id, secret: nat)
    | CallClaimSlashed(id: Id)
    | CallLiquidate(lp: Address, debtToClear: nat)
    | CallTransfer(to: Address, amount: nat)
    | CallAddSupport(asset: Asset, feedId: nat)
    | CallRemoveSupport(asset: Asset)

  function Execute(s: State, e: Env, c: Call): (r: Outcome<State>) {
    match c
    case CallCreateVault(asset) => CreateVault(s, e, asset)
    case CallDeposit(amount) => DepositCollateral(s, e, amount)
    case CallWithdraw(amount) => WithdrawCollateral(s, e, amount)
    case CallInitiateMint(id, lp, xmr, commitment, duration) => InitiateMint(s, e, id, lp, xmr, commitment, duration)
    case CallSetMintReady(id) => SetMintReady(s, e, id)
    case CallFinalizeMint(id, secret) => FinalizeMint(s, e, id, secret)
    case CallCancelMint(id) => CancelMint(s, e, id)
    case CallInitiateBurn(id, amount, lp, commitment) => InitiateBurn(s, e, id, amount, lp, commitment)
    case CallFinalizeBurn(id, secret) => FinalizeBurn(s, e, id, secret)
    case CallClaimSlashed(id) => ClaimSlashedCollateral(s, e, id)
    case CallLiquidate(lp, debt) => Liquidate(s, e, lp, debt)
    case CallTransfer(to, amount) => TransferToken(s, e, to, amount)
    case CallAddSupport(asset, feedId) => AddCollateralSupport(s, e, asset, feedId)
    case CallRemoveSupport(asset) => RemoveCollateralSupport(s, e, asset)
  }

  /** A reverted transaction changes nothing. */
  function Step(s: State, e: Env, c: Call): (t: State) {
    match Execute(s, e, c) case Ok(t) => t case Err(_) => s
  }

  /** Any interleaving of any calls by anyone, at any times and prices. */
  function Run(s: State, steps: seq<(Env, Call)>): (t: State)
    decreases |steps|
  {
    if steps == [] then s
    else Step(Run(s, steps[..|steps| - 1]), steps[|steps| - 1].0, steps[|steps| - 1].1)
  }
}
