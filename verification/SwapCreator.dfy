/** The SwapCreator contract. A swap's ID is the Keccak-256 hash of its fields, taken to be collision
    free, so the fields themselves are the key of the stage mapping. */
module SwapModel {
  import opened Sums
  import opened Wrappers
  import opened Evm

  datatype Reason =
    | ZeroValue | InvalidSwapKey | InvalidClaimer | InvalidTimeout | InvalidValue | SwapAlreadyExists
    | SwapNotPending | OnlySwapOwner | OnlySwapClaimer | InvalidSwap | SwapCompleted | TooEarlyToClaim
    | TooLateToClaim | NotTimeToRefund | InvalidSecret | InvalidSignature | InvalidContractAddress
    | InvalidRelayerAddress | Panic | TransferFailed

  type Outcome<+T> = Result<T, Reason>

  datatype Swap = Swap(
    owner: Address, claimer: Address, claimCommitment: nat, refundCommitment: nat,
    timeout1: nat, timeout2: nat, asset: Asset, value: nat, nonce: nat)

  datatype RelaySwap = RelaySwap(swap: Swap, fee: nat, relayerHash: nat, swapCreator: Address)

  /** A swap absent from the mapping has stage INVALID. */
  datatype Stage = Pending | Ready | Completed

  /** How a swap was settled, from which stage and when. */
  datatype Settlement =
    | Claimed(swap: Swap, stage: Stage, time: nat)
    | Relayed(swap: Swap, relayer: Address, fee: nat, stage: Stage, time: nat)
    | Refunded(swap: Swap, stage: Stage, time: nat)

  /** `stray` accounts for value that belongs to no open swap: ether sent along with a token swap, and
      token payouts addressed to the contract itself. `paid` is what each address has received of each asset; only
      the transfer itself writes it. */
  datatype State = State(
    self: Address, swaps: map<Swap, Stage>, holdings: map<Asset, nat>, stray: map<Asset, nat>,
    paid: map<(Address, Asset), nat>, log: seq<Settlement>)

  datatype Env = Env(
    sender: Address,
    time: nat,
    value: nat,
    mulVerify: (nat, nat) -> bool,
    relayerHash: (Address, nat) -> nat)

  function Initial(self: Address): (s: State) {
    State(self, map[], map[], map[], map[], [])
  }

  function Credit(s: State, asset: Asset, amount: nat): (r: Outcome<State>)
    ensures r.Ok? ==> r.value == s.(holdings := r.value.holdings)
  {
    if At(s.holdings, asset) + amount > MAX_UINT then Err(TransferFailed)
    else Ok(s.(holdings := s.holdings[asset := At(s.holdings, asset) + amount]))
  }

  function Strand(s: State, asset: Asset, amount: nat): (t: State)
    ensures t == s.(stray := t.stray)
  {
    s.(stray := s.stray[asset := At(s.stray, asset) + amount])
  }

  /** The contract rejects ether sent to itself and keeps tokens sent to itself. */
  function Pay(s: State, asset: Asset, to: Address, amount: nat): (r: Outcome<State>)
    ensures r.Ok? ==> r.value == s.(holdings := r.value.holdings, stray := r.value.stray, paid := r.value.paid)
    ensures r.Err? ==> r.error == TransferFailed
  {
    if At(s.holdings, asset) < amount || (to == s.self && asset == 0) then Err(TransferFailed)
    else
      var t := s.(paid := s.paid[(to, asset) := At(s.paid, (to, asset)) + amount]);
      if to == s.self then Ok(Strand(t, asset, amount))
      else Ok(t.(holdings := s.holdings[asset := At(s.holdings, asset) - amount]))
  }

  predicate ClaimOpen(swap: Swap, stage: Stage, time: nat) {
    !stage.Completed? && (time >= swap.timeout1 || stage.Ready?) && time < swap.timeout2
  }

  predicate RefundOpen(swap: Swap, stage: Stage, time: nat) {
    !stage.Completed? && !(time < swap.timeout2 && (time > swap.timeout1 || stage.Ready?))
  }

  /** What a new swap brings in: its value, and any ether sent along with a token swap. */
  function Fund(s: State, asset: Asset, value: nat, sent: nat): (r: Outcome<State>)
    ensures r.Ok? ==> r.value == s.(holdings := r.value.holdings, stray := r.value.stray)
    ensures r.Err? ==> r.error == TransferFailed
  {
    var s1 :- Credit(s, asset, value);
    if asset == 0 then Ok(s1) else Credit(Strand(s1, 0, sent), 0, sent)
  }

  function NewSwap(s: State, e: Env, claimCommitment: nat, refundCommitment: nat, claimer: Address,
                   duration1: nat, duration2: nat, asset: Asset, value: nat, nonce: nat): (r: Outcome<State>)
  {
    if value == 0 then Err(ZeroValue)
    else if asset == 0 && value != e.value then Err(InvalidValue)
    else
      var s1 :- Fund(s, asset, value, e.value);
      if claimCommitment == 0 || refundCommitment == 0 then Err(InvalidSwapKey)
      else if claimer == 0 then Err(InvalidClaimer)
      else if duration1 == 0 || duration2 == 0 then Err(InvalidTimeout)
      else if e.time + duration1 + duration2 > MAX_UINT then Err(Panic)
      else
        var swap := Swap(e.sender, claimer, claimCommitment, refundCommitment, e.time + duration1, e.time + duration1 + duration2, asset, value, nonce);
        if swap in s.swaps then Err(SwapAlreadyExists)
        else Ok(s1.(swaps := s.swaps[swap := Pending]))
  }

  function SetReady(s: State, e: Env, swap: Swap): (r: Outcome<State>) {
    if swap !in s.swaps || !s.swaps[swap].Pending? then Err(SwapNotPending)
    else if swap.owner != e.sender then Err(OnlySwapOwner)
    else Ok(s.(swaps := s.swaps[swap := Ready]))
  }

  /** The checks shared by direct and relayed claims, and the swap marked completed. */
  function ClaimInternal(s: State, e: Env, swap: Swap, secret: nat): (r: Outcome<State>)
    ensures r.Ok? ==> swap in s.swaps && ClaimOpen(swap, s.swaps[swap], e.time)
  {
    if swap !in s.swaps then Err(InvalidSwap)
    else if s.swaps[swap].Completed? then Err(SwapCompleted)
    else if e.time < swap.timeout1 && !s.swaps[swap].Ready? then Err(TooEarlyToClaim)
    else if e.time >= swap.timeout2 then Err(TooLateToClaim)
    else if !e.mulVerify(secret, swap.claimCommitment) then Err(InvalidSecret)
    else Ok(s.(swaps := s.swaps[swap := Completed]))
  }

  function Claim(s: State, e: Env, swap: Swap, secret: nat): (r: Outcome<State>) {
    if e.sender != swap.claimer then Err(OnlySwapClaimer)
    else
      var s1 :- ClaimInternal(s, e, swap, secret);
      var s2 :- Pay(s1, swap.asset, swap.claimer, swap.value);
      Ok(s2.(log := s.log + [Claimed(swap, s.swaps[swap], e.time)]))
  }

  /** `signer` is the address recovered from the signature over the relayed request. */
  function ClaimRelayer(s: State, e: Env, rs: RelaySwap, secret: nat, relayer: Address, salt: nat, signer: Address): (r: Outcome<State>) {
    if signer != rs.swap.claimer then Err(InvalidSignature)
    else if s.self != rs.swapCreator then Err(InvalidContractAddress)
    else if e.relayerHash(relayer, salt) != rs.relayerHash then Err(InvalidRelayerAddress)
    else
      var s1 :- ClaimInternal(s, e, rs.swap, secret);
      if rs.swap.value < rs.fee then Err(Panic)
      else
        var s2 :- Pay(s1, rs.swap.asset, rs.swap.claimer, rs.swap.value - rs.fee);
        var s3 :- Pay(s2, rs.swap.asset, relayer, rs.fee);
        Ok(s3.(log := s.log + [Relayed(rs.swap, relayer, rs.fee, s.swaps[rs.swap], e.time)]))
  }

  function Refund(s: State, e: Env, swap: Swap, secret: nat): (r: Outcome<State>) {
    if swap !in s.swaps then Err(InvalidSwap)
    else if s.swaps[swap].Completed? then Err(SwapCompleted)
    else if swap.owner != e.sender then Err(OnlySwapOwner)
    else if e.time < swap.timeout2 && (e.time > swap.timeout1 || s.swaps[swap].Ready?) then Err(NotTimeToRefund)
    else if !e.mulVerify(secret, swap.refundCommitment) then Err(InvalidSecret)
    else
      var s1 :- Pay(s.(swaps := s.swaps[swap := Completed]), swap.asset, swap.owner, swap.value);
      Ok(s1.(log := s.log + [Refunded(swap, s.swaps[swap], e.time)]))
  }

  datatype Call =
    | CallNewSwap(claimCommitment: nat, refundCommitment: nat, claimer: Address, duration1: nat, duration2: nat, asset: Asset, value: nat, nonce: nat)
    | CallSetReady(swap: Swap)
    | CallClaim(swap: Swap, secret: nat)
    | CallClaimRelayer(rs: RelaySwap, secret: nat, relayer: Address, salt: nat, signer: Address)
    | CallRefund(swap: Swap, secret: nat)

  function Execute(s: State, e: Env, c: Call): (r: Outcome<State>) {
    match c
    case CallNewSwap(cc, rc, claimer, d1, d2, asset, value, nonce) => NewSwap(s, e, cc, rc, claimer, d1, d2, asset, value, nonce)
    case CallSetReady(swap) => SetReady(s, e, swap)
    case CallClaim(swap, secret) => Claim(s, e, swap, secret)
    case CallClaimRelayer(rs, secret, relayer, salt, signer) => ClaimRelayer(s, e, rs, secret, relayer, salt, signer)
    case CallRefund(swap, secret) => Refund(s, e, swap, secret)
  }

  function Step(s: State, e: Env, c: Call): (t: State) {
    match Execute(s, e, c) case Ok(t) => t case Err(_) => s
  }

  function Run(s: State, steps: seq<(Env, Call)>): (t: State)
    decreases |steps|
  {
    if steps == [] then s
    else Step(Run(s, steps[..|steps| - 1]), steps[|steps| - 1].0, steps[|steps| - 1].1)
  }
}

/** What every run of the SwapCreator keeps. */
module SwapRuns {
  import opened Sums
  import opened Wrappers
  import opened Evm
  import opened SwapModel

  ghost function OpenIn(swaps: map<Swap, Stage>, a: Asset): (m: map<Swap, nat>) {
    map w | w in swaps :: if !swaps[w].Completed? && w.asset == a then w.value else 0
  }

  /** The payments a settlement makes, in order. */
  function Payments(ev: Settlement): (ps: seq<(Address, int)>) {
    match ev
    case Claimed(swap, _, _) => [(swap.claimer, swap.value)]
    case Relayed(swap, relayer, fee, _, _) => [(swap.claimer, swap.value - fee), (relayer, fee)]
    case Refunded(swap, _, _) => [(swap.owner, swap.value)]
  }

  function Sum(ps: seq<(Address, int)>): (n: int) {
    if ps == [] then 0 else Sum(ps[..|ps| - 1]) + ps[|ps| - 1].1
  }

  /** All that was ever paid out for a swap. */
  function Paid(log: seq<Settlement>, swap: Swap): (n: int) {
    if log == [] then 0
    else Paid(log[..|log| - 1], swap) + if log[|log| - 1].swap == swap then Sum(Payments(log[|log| - 1])) else 0
  }

  /** What a settlement pays to an address, in an asset. */
  function Credit(ev: Settlement, to: Address, a: Asset): (n: int) {
    if ev.swap.asset == a then SumTo(Payments(ev), to) else 0
  }

  function SumTo(ps: seq<(Address, int)>, to: Address): (n: int) {
    if ps == [] then 0 else SumTo(ps[..|ps| - 1], to) + if ps[|ps| - 1].0 == to then ps[|ps| - 1].1 else 0
  }

  function Credited(log: seq<Settlement>, to: Address, a: Asset): (n: int) {
    if log == [] then 0 else Credited(log[..|log| - 1], to, a) + Credit(log[|log| - 1], to, a)
  }

  /** Every settlement fell in its own time window, claims from a ready swap or from timeout1 on, refunds not
      while the swap could be claimed; a relayer's fee is part of the value. */
  predicate Fair(ev: Settlement) {
    match ev
    case Claimed(swap, stage, t) => ClaimOpen(swap, stage, t)
    case Relayed(swap, _, fee, stage, t) => fee <= swap.value && ClaimOpen(swap, stage, t)
    case Refunded(swap, stage, t) => RefundOpen(swap, stage, t)
  }

  ghost predicate WellFormed(s: State) {
    forall w :: w in s.swaps ==> w.timeout1 < w.timeout2 && w.value > 0 && w.claimer != 0
  }

  ghost predicate FundsOf(s: State, a: Asset) {
    At(s.holdings, a) == Total(OpenIn(s.swaps, a)) + At(s.stray, a)
  }

  ghost predicate Funded(s: State) {
    forall a :: FundsOf(s, a)
  }

  ghost predicate PaidOnce(s: State) {
    && (forall w :: Paid(s.log, w) == if w in s.swaps && s.swaps[w].Completed? then w.value else 0)
    && (forall i :: 0 <= i < |s.log| ==> Fair(s.log[i]))
  }

  /** An address has received exactly what the settlements pay it. */
  predicate Ledger(s: State, to: Address, a: Asset) {
    At(s.paid, (to, a)) == Credited(s.log, to, a)
  }

  ghost predicate Inv(s: State) {
    WellFormed(s) && Funded(s) && PaidOnce(s) && forall to, a :: Ledger(s, to, a)
  }

  function OpenValue(swaps: map<Swap, Stage>, w: Swap, a: Asset): (n: nat) {
    if w in swaps && !swaps[w].Completed? && w.asset == a then w.value else 0
  }

  lemma OpenWrite(swaps: map<Swap, Stage>, w: Swap, st: Stage, a: Asset)
    ensures Total(OpenIn(swaps[w := st], a)) + OpenValue(swaps, w, a) == Total(OpenIn(swaps, a)) + OpenValue(swaps[w := st], w, a)
  {
    hide Total;
    var c := OpenValue(swaps[w := st], w, a);
    TotalUpdate(OpenIn(swaps, a), w, c);
    assert OpenIn(swaps[w := st], a) == OpenIn(swaps, a)[w := c];
  }

  lemma PaymentsMakeValue(ev: Settlement)
    ensures Sum(Payments(ev)) == ev.swap.value
  {
    var ps := Payments(ev);
    if ev.Relayed? {
      var none: seq<(Address, int)> := [];
      assert ps[..1] == [(ev.swap.claimer, ev.swap.value - ev.fee)] && ps[..1][..0] == none;
      assert Sum(ps[..1]) == ev.swap.value - ev.fee;
    }
  }

  lemma PaidAppend(log: seq<Settlement>, ev: Settlement)
    ensures forall w :: Paid(log + [ev], w) == Paid(log, w) + if ev.swap == w then w.value else 0
    ensures forall to, a :: Credited(log + [ev], to, a) == Credited(log, to, a) + Credit(ev, to, a)
  {
    assert (log + [ev])[..|log|] == log;
    PaymentsMakeValue(ev);
  }

  lemma SumToParts(ev: Settlement, to: Address)
    ensures SumTo(Payments(ev), to) == match ev
                                       case Claimed(w, _, _) => (if w.claimer == to then w.value else 0)
                                       case Relayed(w, relayer, fee, _, _) =>
                                         (if w.claimer == to then w.value - fee else 0) + (if relayer == to then fee else 0)
                                       case Refunded(w, _, _) => (if w.owner == to then w.value else 0)
  {
    var ps := Payments(ev);
    if ev.Relayed? {
      var none: seq<(Address, int)> := [];
      assert ps[..1] == [(ev.swap.claimer, ev.swap.value - ev.fee)] && ps[..1][..0] == none;
      assert SumTo(ps[..1], to) == if ev.swap.claimer == to then ev.swap.value - ev.fee else 0;
    }
  }

  /** Completing an open swap, with its whole value leaving the holdings or turning stray. */
  lemma Completes(s: State, t: State, w: Swap, ev: Settlement)
    requires Inv(s) && w in s.swaps && !s.swaps[w].Completed?
    requires t.swaps == s.swaps[w := Completed] && t.log == s.log + [ev] && ev.swap == w && Fair(ev)
    requires At(t.holdings, w.asset) + At(s.stray, w.asset) + w.value == At(s.holdings, w.asset) + At(t.stray, w.asset)
    requires forall b :: b != w.asset ==> At(t.holdings, b) == At(s.holdings, b) && At(t.stray, b) == At(s.stray, b)
    requires forall to, a :: At(t.paid, (to, a)) == At(s.paid, (to, a)) + Credit(ev, to, a)
    ensures Inv(t)
  {
    hide Total, OpenIn, Paid, Credited, Credit;
    forall a ensures FundsOf(t, a) {
      assert FundsOf(s, a);
      OpenWrite(s.swaps, w, Completed, a);
    }
    PaidAppend(s.log, ev);
    forall to, a ensures Ledger(t, to, a) { assert Ledger(s, to, a); }
  }

  /** Inv gives an open swap's value as a part of the holdings. */
  lemma OpenIsHeld(s: State, w: Swap)
    requires Inv(s) && w in s.swaps && !s.swaps[w].Completed?
    ensures At(s.holdings, w.asset) >= w.value
  {
    hide Total;
    assert FundsOf(s, w.asset);
    TotalAtLeast(OpenIn(s.swaps, w.asset), w);
  }

  /** Funding adds the value to the holdings, and ether sent along to holdings and stray value alike. */
  lemma FundMoves(s: State, asset: Asset, value: nat, sent: nat)
    requires Fund(s, asset, value, sent).Ok?
    ensures var t := Fund(s, asset, value, sent).value;
            forall b :: At(t.holdings, b) - At(t.stray, b) == At(s.holdings, b) - At(s.stray, b) + if b == asset then value else 0
  {
  }

  lemma NewSwapKeeps(s: State, e: Env, c: Call)
    requires Inv(s) && c.CallNewSwap? && Execute(s, e, c).Ok?
    ensures Inv(Execute(s, e, c).value)
  {
    hide Total, OpenIn, Paid, Credited, Fund;
    var t := Execute(s, e, c).value;
    var w := Swap(e.sender, c.claimer, c.claimCommitment, c.refundCommitment, e.time + c.duration1, e.time + c.duration1 + c.duration2, c.asset, c.value, c.nonce);
    FundMoves(s, c.asset, c.value, e.value);
    forall a ensures FundsOf(t, a) {
      assert FundsOf(s, a);
      OpenWrite(s.swaps, w, Pending, a);
    }
    forall to, a ensures Ledger(t, to, a) { assert Ledger(s, to, a); }
  }

  lemma SetReadyKeeps(s: State, e: Env, w: Swap)
    requires Inv(s) && SetReady(s, e, w).Ok?
    ensures Inv(SetReady(s, e, w).value)
  {
    hide Total, OpenIn, Paid, Credited;
    var t := SetReady(s, e, w).value;
    forall a ensures FundsOf(t, a) {
      assert FundsOf(s, a);
      OpenWrite(s.swaps, w, Ready, a);
    }
    forall to, a ensures Ledger(t, to, a) { assert Ledger(s, to, a); }
  }

  /** A payout takes its amount from the holdings or adds it to the stray value, in one asset. */
  lemma PayMoves(s: State, asset: Asset, to: Address, amount: nat)
    requires Pay(s, asset, to, amount).Ok?
    ensures var t := Pay(s, asset, to, amount).value;
            && At(t.holdings, asset) + At(s.stray, asset) + amount == At(s.holdings, asset) + At(t.stray, asset)
            && (forall b :: b != asset ==> At(t.holdings, b) == At(s.holdings, b) && At(t.stray, b) == At(s.stray, b))
            && (forall x, b :: At(t.paid, (x, b)) == At(s.paid, (x, b)) + if x == to && b == asset then amount else 0)
  {
  }

  lemma ClaimKeeps(s: State, e: Env, w: Swap, secret: nat)
    requires Inv(s) && Claim(s, e, w, secret).Ok?
    ensures Inv(Claim(s, e, w, secret).value)
  {
    hide Inv, Pay, SumTo, Payments;
    var s1 := ClaimInternal(s, e, w, secret).value;
    PayMoves(s1, w.asset, w.claimer, w.value);
    var ev := Claimed(w, s.swaps[w], e.time);
    forall to ensures SumTo(Payments(ev), to) == if w.claimer == to then w.value else 0 { SumToParts(ev, to); }
    Completes(s, Claim(s, e, w, secret).value, w, ev);
  }

  lemma ClaimRelayerKeeps(s: State, e: Env, rs: RelaySwap, secret: nat, relayer: Address, salt: nat, signer: Address)
    requires Inv(s) && ClaimRelayer(s, e, rs, secret, relayer, salt, signer).Ok?
    ensures Inv(ClaimRelayer(s, e, rs, secret, relayer, salt, signer).value)
  {
    hide Inv, Pay, SumTo, Payments;
    var w := rs.swap;
    var s1 := ClaimInternal(s, e, w, secret).value;
    PayMoves(s1, w.asset, w.claimer, w.value - rs.fee);
    PayMoves(Pay(s1, w.asset, w.claimer, w.value - rs.fee).value, w.asset, relayer, rs.fee);
    var ev := Relayed(w, relayer, rs.fee, s.swaps[w], e.time);
    forall to ensures SumTo(Payments(ev), to) == (if w.claimer == to then w.value - rs.fee else 0) + (if relayer == to then rs.fee else 0) {
      SumToParts(ev, to);
    }
    Completes(s, ClaimRelayer(s, e, rs, secret, relayer, salt, signer).value, w, ev);
  }

  lemma RefundKeeps(s: State, e: Env, w: Swap, secret: nat)
    requires Inv(s) && Refund(s, e, w, secret).Ok?
    ensures Inv(Refund(s, e, w, secret).value)
  {
    hide Inv, Pay, SumTo, Payments;
    PayMoves(s.(swaps := s.swaps[w := Completed]), w.asset, w.owner, w.value);
    var ev := Refunded(w, s.swaps[w], e.time);
    forall to ensures SumTo(Payments(ev), to) == if w.owner == to then w.value else 0 { SumToParts(ev, to); }
    Completes(s, Refund(s, e, w, secret).value, w, ev);
  }

  lemma StepKeeps(s: State, e: Env, c: Call)
    requires Inv(s)
    ensures Inv(Step(s, e, c))
  {
    hide Inv, NewSwap, SetReady, Claim, ClaimRelayer, Refund;
    if Execute(s, e, c).Ok? {
      match c
      case CallNewSwap(_, _, _, _, _, _, _, _) => NewSwapKeeps(s, e, c);
      case CallSetReady(w) => SetReadyKeeps(s, e, w);
      case CallClaim(w, secret) => ClaimKeeps(s, e, w, secret);
      case CallClaimRelayer(rs, secret, relayer, salt, signer) => ClaimRelayerKeeps(s, e, rs, secret, relayer, salt, signer);
      case CallRefund(w, secret) => RefundKeeps(s, e, w, secret);
    }
  }

  lemma InitialHolds(self: Address)
    ensures Inv(Initial(self))
  {
    var s := Initial(self);
    forall a ensures FundsOf(s, a) { assert OpenIn(s.swaps, a) == map[]; }
  }

  /** The invariant holds in every reachable state. */
  lemma {:induction false} Reachable(self: Address, steps: seq<(Env, Call)>)
    ensures Inv(Run(Initial(self), steps))
    decreases |steps|
  {
    hide Step, Inv;
    if steps == [] {
      InitialHolds(self);
    } else {
      var n := |steps| - 1;
      Reachable(self, steps[..n]);
      StepKeeps(Run(Initial(self), steps[..n]), steps[n].0, steps[n].1);
    }
  }

  /** In every run a swap is paid out exactly its value once it is completed and nothing before, however
      it was settled, and every settlement fell inside its own time window. */
  lemma EachSwapPaidOnce(self: Address, steps: seq<(Env, Call)>, w: Swap)
    ensures var s := Run(Initial(self), steps);
            && Paid(s.log, w) == (if w in s.swaps && s.swaps[w].Completed? then w.value else 0)
            && (forall i :: 0 <= i < |s.log| ==> Fair(s.log[i]))
  {
    Reachable(self, steps);
  }

  /** In every run each address has received, of each asset, exactly what the settlements owe it: a claimed value to
      the claimer, a relayer's fee to the relayer and the rest to the claimer, a refund to the owner. */
  lemma PaidAsSettled(self: Address, steps: seq<(Env, Call)>, to: Address, a: Asset)
    ensures var s := Run(Initial(self), steps);
            At(s.paid, (to, a)) == Credited(s.log, to, a)
  {
    hide Run, Initial;
    Reachable(self, steps);
    assert Ledger(Run(Initial(self), steps), to, a);
  }

  /** A settlement records the stage its swap was in and the time of the call. */
  lemma SettlementRecords(s: State, e: Env, c: Call)
    ensures var t := Step(s, e, c);
            t.log == s.log ||
            (|t.log| == |s.log| + 1 && t.log[..|s.log|] == s.log &&
             var ev := t.log[|s.log|];
             && ev.swap in s.swaps && ev.stage == s.swaps[ev.swap] && ev.time == e.time
             && ev.swap in t.swaps && t.swaps[ev.swap].Completed?)
  {
    hide Pay, Fund;
  }

  /** In every reachable state the holdings are exactly the open swaps plus the stray value. */
  lemma HoldingsCoverOpenSwaps(self: Address, steps: seq<(Env, Call)>, a: Asset)
    ensures var s := Run(Initial(self), steps);
            At(s.holdings, a) == Total(OpenIn(s.swaps, a)) + At(s.stray, a)
  {
    Reachable(self, steps);
    assert FundsOf(Run(Initial(self), steps), a);
  }

  /** At every time an open swap has an exit: claim or refund. Both are open at one instant only,
      timeout1 itself, and only while the owner has not set the swap ready. */
  lemma ExitAlwaysOpen(self: Address, steps: seq<(Env, Call)>, w: Swap, t: nat)
    requires var s := Run(Initial(self), steps); w in s.swaps && !s.swaps[w].Completed?
    ensures var st := Run(Initial(self), steps).swaps[w];
            && (ClaimOpen(w, st, t) || RefundOpen(w, st, t))
            && (ClaimOpen(w, st, t) && RefundOpen(w, st, t) <==> st.Pending? && t == w.timeout1)
  {
    Reachable(self, steps);
  }

  /** In every reachable state a claim succeeds exactly when the claimer calls it in its window with the
      secret; the funds are always there. */
  lemma ClaimSucceeds(self: Address, steps: seq<(Env, Call)>, e: Env, w: Swap, secret: nat)
    ensures var s := Run(Initial(self), steps);
            (Claim(s, e, w, secret).Ok? <==>
               && e.sender == w.claimer
               && w in s.swaps
               && ClaimOpen(w, s.swaps[w], e.time)
               && e.mulVerify(secret, w.claimCommitment)
               && (w.asset == 0 ==> w.claimer != self))
  {
    hide Total;
    Reachable(self, steps);
    RunKeepsSelf(self, steps);
    var s := Run(Initial(self), steps);
    if w in s.swaps && !s.swaps[w].Completed? { OpenIsHeld(s, w); }
  }

  lemma RefundSucceeds(self: Address, steps: seq<(Env, Call)>, e: Env, w: Swap, secret: nat)
    ensures var s := Run(Initial(self), steps);
            (Refund(s, e, w, secret).Ok? <==>
               && e.sender == w.owner
               && w in s.swaps
               && RefundOpen(w, s.swaps[w], e.time)
               && e.mulVerify(secret, w.refundCommitment)
               && (w.asset == 0 ==> w.owner != self))
  {
    hide Total;
    Reachable(self, steps);
    RunKeepsSelf(self, steps);
    var s := Run(Initial(self), steps);
    if w in s.swaps && !s.swaps[w].Completed? { OpenIsHeld(s, w); }
  }

  /** A relayed claim has the same window, replaces the caller by the signer, and splits the value. */
  lemma RelayedClaimSucceeds(self: Address, steps: seq<(Env, Call)>, e: Env, rs: RelaySwap, secret: nat, relayer: Address, salt: nat, signer: Address)
    ensures var s := Run(Initial(self), steps);
            (ClaimRelayer(s, e, rs, secret, relayer, salt, signer).Ok? <==>
               && signer == rs.swap.claimer
               && rs.swapCreator == self
               && e.relayerHash(relayer, salt) == rs.relayerHash
               && rs.swap in s.swaps
               && ClaimOpen(rs.swap, s.swaps[rs.swap], e.time)
               && e.mulVerify(secret, rs.swap.claimCommitment)
               && rs.fee <= rs.swap.value
               && (rs.swap.asset == 0 ==> rs.swap.claimer != self && relayer != self))
  {
    hide Total;
    Reachable(self, steps);
    RunKeepsSelf(self, steps);
    var s := Run(Initial(self), steps);
    if rs.swap in s.swaps && !s.swaps[rs.swap].Completed? { OpenIsHeld(s, rs.swap); }
  }

  lemma StepKeepsSelf(s: State, e: Env, c: Call)
    ensures Step(s, e, c).self == s.self
  {
    hide Pay, Credit, Strand;
  }

  lemma {:induction false} RunKeepsSelf(self: Address, steps: seq<(Env, Call)>)
    ensures Run(Initial(self), steps).self == self
    decreases |steps|
  {
    hide Step;
    if steps != [] {
      var n := |steps| - 1;
      RunKeepsSelf(self, steps[..n]);
      StepKeepsSelf(Run(Initial(self), steps[..n]), steps[n].0, steps[n].1);
    }
  }

  function Rank(st: Stage): (n: nat) {
    match st case Pending => 0 case Ready => 1 case Completed => 2
  }

  ghost predicate Advances(s: State, t: State) {
    forall w :: w in s.swaps ==> w in t.swaps && Rank(s.swaps[w]) <= Rank(t.swaps[w])
  }

  lemma StepAdvances(s: State, e: Env, c: Call)
    ensures Advances(s, Step(s, e, c))
  {
    hide Pay, Credit, Strand;
  }

  /** Over every continuation of every run the stage of a swap only moves forward. */
  lemma {:induction false} StagesAdvance(s: State, steps: seq<(Env, Call)>)
    ensures Advances(s, Run(s, steps))
    decreases |steps|
  {
    hide Step;
    if steps != [] {
      var n := |steps| - 1;
      StagesAdvance(s, steps[..n]);
      StepAdvances(Run(s, steps[..n]), steps[n].0, steps[n].1);
    }
  }
}

/** The SwapCreator in the contract's own form, proved to do what the model says. */
module SwapContract {
  import opened Sums
  import opened Wrappers
  import opened Evm
  import opened SwapModel
  import SwapRuns

  ghost predicate Does(before: State, after: State, r: Outcome<State>, err: Option<Reason>) {
    match r
    case Ok(t) => err == None && after == t
    case Err(reason) => err == Some(reason) && after == before
  }

  lemma Kept(s: State, e: Env, c: Call, t: State)
    requires SwapRuns.Inv(s) && Execute(s, e, c) == Ok(t)
    ensures SwapRuns.Inv(t)
  {
    hide SwapRuns.Inv, Execute;
    SwapRuns.StepKeeps(s, e, c);
  }

  class SwapCreator {
    const self: Address
    var swaps: map<Swap, Stage>
    var holdings: map<Asset, nat>
    var stray: map<Asset, nat>
    var paid: map<(Address, Asset), nat>
    var log: seq<Settlement>

    function View(): (s: State)
      reads this
    {
      State(self, swaps, holdings, stray, paid, log)
    }

    /** What holds between any two calls: the invariant of all runs. */
    ghost predicate Valid()
      reads this
    {
      SwapRuns.Inv(View())
    }

    constructor (address: Address)
      ensures Valid() && View() == Initial(address)
    {
      self := address;
      swaps, holdings, stray, paid, log := map[], map[], map[], map[], [];
      new;
      SwapRuns.InitialHolds(address);
    }

    /** The balances after funding a swap, or nothing if a transfer fails. */
    method Funding(asset: Asset, value: nat, sent: nat) returns (ok: bool, newHoldings: map<Asset, nat>, newStray: map<Asset, nat>)
      ensures ok <==> Fund(View(), asset, value, sent).Ok?
      ensures ok ==> Fund(View(), asset, value, sent).value == View().(holdings := newHoldings, stray := newStray)
    {
      ok, newHoldings, newStray := false, holdings, stray;
      if At(newHoldings, asset) + value > MAX_UINT { return; }
      newHoldings := newHoldings[asset := At(newHoldings, asset) + value];
      if asset != 0 {
        if At(newHoldings, 0) + sent > MAX_UINT { return; }
        newHoldings := newHoldings[0 := At(newHoldings, 0) + sent];
        newStray := newStray[0 := At(newStray, 0) + sent];
      }
      ok := true;
    }

    method NewSwap(e: Env, claimCommitment: nat, refundCommitment: nat, claimer: Address,
                   duration1: nat, duration2: nat, asset: Asset, value: nat, nonce: nat)
      returns (err: Option<Reason>)
      requires Valid()
      modifies this
      ensures Valid()
      ensures Does(old(View()), View(), SwapModel.NewSwap(old(View()), e, claimCommitment, refundCommitment, claimer, duration1, duration2, asset, value, nonce), err)
    {
      hide SwapRuns.Inv, Fund;
      if value == 0 { return Some(ZeroValue); }
      if asset == 0 && value != e.value { return Some(InvalidValue); }
      var ok, newHoldings, newStray := Funding(asset, value, e.value);
      if !ok { return Some(TransferFailed); }
      if claimCommitment == 0 || refundCommitment == 0 { return Some(InvalidSwapKey); }
      if claimer == 0 { return Some(InvalidClaimer); }
      if duration1 == 0 || duration2 == 0 { return Some(InvalidTimeout); }
      var timeout1 := e.time + duration1;
      var timeout2 := e.time + duration1 + duration2;
      if timeout2 > MAX_UINT { return Some(Panic); }
      var swap := Swap(e.sender, claimer, claimCommitment, refundCommitment, timeout1, timeout2, asset, value, nonce);
      if swap in swaps { return Some(SwapAlreadyExists); }
      holdings, stray := newHoldings, newStray;
      swaps := swaps[swap := Pending];
      Kept(old(View()), e, CallNewSwap(claimCommitment, refundCommitment, claimer, duration1, duration2, asset, value, nonce), View());
      return None;
    }

    method SetReady(e: Env, swap: Swap) returns (err: Option<Reason>)
      requires Valid()
      modifies this
      ensures Valid()
      ensures Does(old(View()), View(), SwapModel.SetReady(old(View()), e, swap), err)
    {
      hide SwapRuns.Inv;
      if swap !in swaps || !swaps[swap].Pending? { return Some(SwapNotPending); }
      if swap.owner != e.sender { return Some(OnlySwapOwner); }
      swaps := swaps[swap := Ready];
      Kept(old(View()), e, CallSetReady(swap), View());
      return None;
    }

    /** The guards of `_claim`, before its effect on the stage. */
    method ClaimGuards(e: Env, swap: Swap, secret: nat) returns (err: Option<Reason>)
      ensures match ClaimInternal(View(), e, swap, secret)
              case Ok(t) => err == None && t == View().(swaps := swaps[swap := Completed])
              case Err(reason) => err == Some(reason)
    {
      if swap !in swaps { return Some(InvalidSwap); }
      var swapStage := swaps[swap];
      if swapStage.Completed? { return Some(SwapCompleted); }
      if e.time < swap.timeout1 && !swapStage.Ready? { return Some(TooEarlyToClaim); }
      if e.time >= swap.timeout2 { return Some(TooLateToClaim); }
      if !e.mulVerify(secret, swap.claimCommitment) { return Some(InvalidSecret); }
      return None;
    }

    /** One payout; the caller reverts the transaction if it fails. */
    method PayOut(asset: Asset, to: Address, amount: nat) returns (ok: bool)
      modifies this`holdings, this`stray, this`paid
      ensures ok <==> Pay(old(View()), asset, to, amount).Ok?
      ensures View() == if ok then Pay(old(View()), asset, to, amount).value else old(View())
    {
      if At(holdings, asset) < amount || (to == self && asset == 0) { return false; }
      paid := paid[(to, asset) := At(paid, (to, asset)) + amount];
      if to == self {
        stray := stray[asset := At(stray, asset) + amount];
      } else {
        holdings := holdings[asset := At(holdings, asset) - amount];
      }
      return true;
    }

    method Claim(e: Env, swap: Swap, secret: nat) returns (err: Option<Reason>)
      requires Valid()
      modifies this
      ensures Valid()
      ensures Does(old(View()), View(), SwapModel.Claim(old(View()), e, swap, secret), err)
    {
      hide SwapRuns.Inv, ClaimInternal, Pay;
      if e.sender != swap.claimer { return Some(OnlySwapClaimer); }
      err := ClaimGuards(e, swap, secret);
      if err.Some? { return err; }
      var oldSwaps := swaps;
      swaps := swaps[swap := Completed];
      var ok := PayOut(swap.asset, swap.claimer, swap.value);
      if !ok {
        swaps := oldSwaps;
        return Some(TransferFailed);
      }
      log := log + [Claimed(swap, oldSwaps[swap], e.time)];
      Kept(old(View()), e, CallClaim(swap, secret), View());
    }

    method ClaimRelayer(e: Env, rs: RelaySwap, secret: nat, relayer: Address, salt: nat, signer: Address) returns (err: Option<Reason>)
      requires Valid()
      modifies this
      ensures Valid()
      ensures Does(old(View()), View(), SwapModel.ClaimRelayer(old(View()), e, rs, secret, relayer, salt, signer), err)
    {
      hide SwapRuns.Inv, ClaimInternal, Pay;
      if signer != rs.swap.claimer { return Some(InvalidSignature); }
      if self != rs.swapCreator { return Some(InvalidContractAddress); }
      if e.relayerHash(relayer, salt) != rs.relayerHash { return Some(InvalidRelayerAddress); }
      err := ClaimGuards(e, rs.swap, secret);
      if err.Some? { return err; }
      if rs.swap.value < rs.fee { return Some(Panic); }
      var oldSwaps, oldHoldings, oldStray, oldPaid := swaps, holdings, stray, paid;
      swaps := swaps[rs.swap := Completed];
      var ok := PayOut(rs.swap.asset, rs.swap.claimer, rs.swap.value - rs.fee);
      if ok {
        ok := PayOut(rs.swap.asset, relayer, rs.fee);
      }
      if !ok {
        swaps, holdings, stray, paid := oldSwaps, oldHoldings, oldStray, oldPaid;
        return Some(TransferFailed);
      }
      log := log + [Relayed(rs.swap, relayer, rs.fee, oldSwaps[rs.swap], e.time)];
      Kept(old(View()), e, CallClaimRelayer(rs, secret, relayer, salt, signer), View());
    }

    method Refund(e: Env, swap: Swap, secret: nat) returns (err: Option<Reason>)
      requires Valid()
      modifies this
      ensures Valid()
      ensures Does(old(View()), View(), SwapModel.Refund(old(View()), e, swap, secret), err)
    {
      hide SwapRuns.Inv, Pay;
      if swap !in swaps { return Some(InvalidSwap); }
      var swapStage := swaps[swap];
      if swapStage.Completed? { return Some(SwapCompleted); }
      if swap.owner != e.sender { return Some(OnlySwapOwner); }
      if e.time < swap.timeout2 && (e.time > swap.timeout1 || swapStage.Ready?) { return Some(NotTimeToRefund); }
      if !e.mulVerify(secret, swap.refundCommitment) { return Some(InvalidSecret); }
      var oldSwaps := swaps;
      swaps := swaps[swap := Completed];
      var ok := PayOut(swap.asset, swap.owner, swap.value);
      if !ok {
        swaps := oldSwaps;
        return Some(TransferFailed);
      }
      log := log + [Refunded(swap, swapStage, e.time)];
      Kept(old(View()), e, CallRefund(swap, secret), View());
      return None;
    }
  }
}
