/** A swap from its creation to its settlement, in terms of the call that created it: whatever happens in between,
    who can settle it, with which secret, when, and who is paid. */
module SwapJourneys {
  import opened Sums
  import opened Wrappers
  import opened Evm
  import opened SwapModel
  import opened SwapRuns

  lemma {:induction false} RunConcat(s: State, a: seq<(Env, Call)>, b: seq<(Env, Call)>)
    ensures Run(Run(s, a), b) == Run(s, a + b)
    decreases |b|
  {
    hide Step;
    if b == [] {
      assert a + b == a;
    } else {
      var n := |b| - 1;
      RunConcat(s, a, b[..n]);
      assert (a + b)[..|a| + n] == a + b[..n];
    }
  }

  /** Exactly when a swap is created, and what comes in. */
  lemma NewSwapIff(s: State, e: Env, cc: nat, rc: nat, claimer: Address, d1: nat, d2: nat, asset: Asset, value: nat, nonce: nat)
    ensures NewSwap(s, e, cc, rc, claimer, d1, d2, asset, value, nonce).Ok? <==>
            && value > 0 && cc != 0 && rc != 0 && claimer != 0 && d1 > 0 && d2 > 0 && e.time + d1 + d2 <= MAX_UINT
            && (asset == 0 ==> e.value == value) && At(s.holdings, asset) + value <= MAX_UINT
            && (asset != 0 ==> At(s.holdings, 0) + e.value <= MAX_UINT)
            && Swap(e.sender, claimer, cc, rc, e.time + d1, e.time + d1 + d2, asset, value, nonce) !in s.swaps
    ensures NewSwap(s, e, cc, rc, claimer, d1, d2, asset, value, nonce).Ok? ==>
              var t := NewSwap(s, e, cc, rc, claimer, d1, d2, asset, value, nonce).value;
              && At(t.holdings, asset) == At(s.holdings, asset) + value
              && (asset != 0 ==> At(t.holdings, 0) == At(s.holdings, 0) + e.value)
              && (forall b :: b != asset && b != 0 ==> At(t.holdings, b) == At(s.holdings, b))
              && t.paid == s.paid && t.log == s.log
  {
  }

  /** Creating a swap adds exactly one, pending, and touches no other. */
  lemma NewSwapAdds(s: State, e: Env, c: Call) returns (w: Swap)
    requires c.CallNewSwap? && Execute(s, e, c).Ok?
    ensures var t := Execute(s, e, c).value;
            && w !in s.swaps && t.swaps.Keys == s.swaps.Keys + {w} && t.swaps[w] == Pending
            && (forall u :: u in s.swaps ==> t.swaps[u] == s.swaps[u])
    ensures NewFields(e, c, w)
  {
    hide Fund;
    w := Swap(e.sender, c.claimer, c.claimCommitment, c.refundCommitment, e.time + c.duration1, e.time + c.duration1 + c.duration2,
              c.asset, c.value, c.nonce);
  }

  predicate NewFields(e: Env, c: Call, w: Swap)
    requires c.CallNewSwap?
  {
    && w.owner == e.sender && w.claimer == c.claimer && w.claimCommitment == c.claimCommitment && w.refundCommitment == c.refundCommitment
    && w.timeout1 == e.time + c.duration1 && w.timeout2 == w.timeout1 + c.duration2 && w.asset == c.asset && w.value == c.value
  }

  /** Some swap w, created by call c in environment e0 after the steps `before`, and still open after the steps `after`. */
  ghost predicate OpenSince(self: Address, before: seq<(Env, Call)>, e0: Env, c: Call, w: Swap, after: seq<(Env, Call)>) {
    var s0 := Run(Initial(self), before);
    && c.CallNewSwap? && Execute(s0, e0, c).Ok?
    && w !in s0.swaps && w in Execute(s0, e0, c).value.swaps
    && var s := Run(Execute(s0, e0, c).value, after);
       w in s.swaps && !s.swaps[w].Completed?
  }

  function Now(self: Address, before: seq<(Env, Call)>, e0: Env, c: Call, after: seq<(Env, Call)>): (s: State) {
    Run(Step(Run(Initial(self), before), e0, c), after)
  }

  lemma OpenSinceFields(self: Address, before: seq<(Env, Call)>, e0: Env, c: Call, w: Swap, after: seq<(Env, Call)>)
    returns (steps: seq<(Env, Call)>)
    requires OpenSince(self, before, e0, c, w, after)
    ensures c.CallNewSwap? && NewFields(e0, c, w) && Now(self, before, e0, c, after) == Run(Initial(self), steps)
    ensures var s := Now(self, before, e0, c, after); w in s.swaps && !s.swaps[w].Completed?
  {
    hide Execute, NewFields, Initial;
    var s0 := Run(Initial(self), before);
    var u := NewSwapAdds(s0, e0, c);
    assert w == u;
    var one := before + [(e0, c)];
    assert one[..|before|] == before;
    RunConcat(Initial(self), one, after);
    steps := one + after;
  }

  /** What a payment did to everybody's receipts. */
  predicate Pays(s: State, t: State, to: Address, asset: Asset, amount: nat) {
    t.paid == s.paid[(to, asset) := At(s.paid, (to, asset)) + amount]
  }

  /** However long after its creation: the claimer named in the call, and nobody else, can claim, with a secret of the
      claim commitment given in the call, from timeout1 or from ready on, until timeout2; and receives the value. */
  lemma ClaimJourney(self: Address, before: seq<(Env, Call)>, e0: Env, c: Call, w: Swap, after: seq<(Env, Call)>, e: Env, secret: nat)
    requires OpenSince(self, before, e0, c, w, after)
    ensures var s := Now(self, before, e0, c, after);
            && w in s.swaps
            && (Claim(s, e, w, secret).Ok? <==>
                  && e.sender == c.claimer && e.mulVerify(secret, c.claimCommitment)
                  && (s.swaps[w] == Ready || e.time >= e0.time + c.duration1) && e.time < e0.time + c.duration1 + c.duration2
                  && (c.asset == 0 ==> c.claimer != self))
            && (Claim(s, e, w, secret).Ok? ==>
                  && Pays(s, Claim(s, e, w, secret).value, c.claimer, c.asset, c.value)
                  && Claim(s, e, w, secret).value.swaps == s.swaps[w := Completed])
  {
    hide Run, Initial, Step, Claim, Refund, ClaimRelayer;
    var steps := OpenSinceFields(self, before, e0, c, w, after);
    ClaimSucceeds(self, steps, e, w, secret);
    if Claim(Run(Initial(self), steps), e, w, secret).Ok? { ClaimPays(Run(Initial(self), steps), e, w, secret); }
  }

  lemma ClaimPays(s: State, e: Env, w: Swap, secret: nat)
    requires Claim(s, e, w, secret).Ok?
    ensures Pays(s, Claim(s, e, w, secret).value, w.claimer, w.asset, w.value)
    ensures Claim(s, e, w, secret).value.swaps == s.swaps[w := Completed]
  {
  }

  /** The creator of the swap, and nobody else, can refund it, with a secret of the refund commitment given in the call,
      outside the claim window; and receives the value. */
  lemma RefundJourney(self: Address, before: seq<(Env, Call)>, e0: Env, c: Call, w: Swap, after: seq<(Env, Call)>, e: Env, secret: nat)
    requires OpenSince(self, before, e0, c, w, after)
    ensures var s := Now(self, before, e0, c, after);
            && w in s.swaps
            && (Refund(s, e, w, secret).Ok? <==>
                  && e.sender == e0.sender && e.mulVerify(secret, c.refundCommitment)
                  && (e.time >= e0.time + c.duration1 + c.duration2 || (e.time <= e0.time + c.duration1 && s.swaps[w] != Ready))
                  && (c.asset == 0 ==> e0.sender != self))
            && (Refund(s, e, w, secret).Ok? ==>
                  && Pays(s, Refund(s, e, w, secret).value, e0.sender, c.asset, c.value)
                  && Refund(s, e, w, secret).value.swaps == s.swaps[w := Completed])
  {
    hide Run, Initial, Step, Claim, Refund, ClaimRelayer;
    var steps := OpenSinceFields(self, before, e0, c, w, after);
    RefundSucceeds(self, steps, e, w, secret);
    if Refund(Run(Initial(self), steps), e, w, secret).Ok? { RefundPays(Run(Initial(self), steps), e, w, secret); }
  }

  lemma RefundPays(s: State, e: Env, w: Swap, secret: nat)
    requires Refund(s, e, w, secret).Ok?
    ensures Pays(s, Refund(s, e, w, secret).value, w.owner, w.asset, w.value)
    ensures Refund(s, e, w, secret).value.swaps == s.swaps[w := Completed]
  {
  }

  /** The creator can set the swap ready, exactly while it is pending. */
  lemma ReadyJourney(self: Address, before: seq<(Env, Call)>, e0: Env, c: Call, w: Swap, after: seq<(Env, Call)>, e: Env)
    requires OpenSince(self, before, e0, c, w, after)
    ensures var s := Now(self, before, e0, c, after);
            && w in s.swaps
            && (SetReady(s, e, w).Ok? <==> e.sender == e0.sender && s.swaps[w] == Pending)
            && (SetReady(s, e, w).Ok? ==> SetReady(s, e, w).value == s.(swaps := s.swaps[w := Ready]))
  {
    hide Run, Initial, Step, Claim, Refund, ClaimRelayer;
    var steps := OpenSinceFields(self, before, e0, c, w, after);
  }

  /** Anybody can relay a claim the claimer signed for this contract and this relayer, in the same window; the relayer
      receives the signed fee and the claimer the rest. */
  lemma RelayJourney(self: Address, before: seq<(Env, Call)>, e0: Env, c: Call, after: seq<(Env, Call)>,
                     e: Env, rs: RelaySwap, secret: nat, relayer: Address, salt: nat, signer: Address)
    requires OpenSince(self, before, e0, c, rs.swap, after)
    ensures var s := Now(self, before, e0, c, after);
            && rs.swap in s.swaps
            && (ClaimRelayer(s, e, rs, secret, relayer, salt, signer).Ok? <==>
                  && signer == c.claimer && rs.swapCreator == self && e.relayerHash(relayer, salt) == rs.relayerHash
                  && e.mulVerify(secret, c.claimCommitment) && rs.fee <= c.value
                  && (s.swaps[rs.swap] == Ready || e.time >= e0.time + c.duration1) && e.time < e0.time + c.duration1 + c.duration2
                  && (c.asset == 0 ==> c.claimer != self && relayer != self))
            && (ClaimRelayer(s, e, rs, secret, relayer, salt, signer).Ok? ==>
                  var t := ClaimRelayer(s, e, rs, secret, relayer, salt, signer).value;
                  && rs.fee <= c.value && t.swaps == s.swaps[rs.swap := Completed]
                  && (forall x, b :: At(t.paid, (x, b)) - At(s.paid, (x, b))
                                     == if b != c.asset then 0
                                        else (if x == c.claimer then c.value - rs.fee else 0) + (if x == relayer then rs.fee else 0)))
  {
    hide Run, Initial, Step, Claim, Refund, ClaimRelayer;
    var steps := OpenSinceFields(self, before, e0, c, rs.swap, after);
    RelayedClaimSucceeds(self, steps, e, rs, secret, relayer, salt, signer);
    var s := Run(Initial(self), steps);
    if ClaimRelayer(s, e, rs, secret, relayer, salt, signer).Ok? { RelayPays(s, e, rs, secret, relayer, salt, signer); }
  }

  lemma RelayPays(s: State, e: Env, rs: RelaySwap, secret: nat, relayer: Address, salt: nat, signer: Address)
    requires ClaimRelayer(s, e, rs, secret, relayer, salt, signer).Ok?
    ensures var t, w := ClaimRelayer(s, e, rs, secret, relayer, salt, signer).value, rs.swap;
            && rs.fee <= w.value && t.swaps == s.swaps[w := Completed]
            && (forall x, b :: At(t.paid, (x, b)) - At(s.paid, (x, b))
                               == if b != w.asset then 0
                                  else (if x == w.claimer then w.value - rs.fee else 0) + (if x == relayer then rs.fee else 0))
  {
    hide Pay;
    var s1 := ClaimInternal(s, e, rs.swap, secret).value;
    PayMoves(s1, rs.swap.asset, rs.swap.claimer, rs.swap.value - rs.fee);
    PayMoves(Pay(s1, rs.swap.asset, rs.swap.claimer, rs.swap.value - rs.fee).value, rs.swap.asset, relayer, rs.fee);
  }
}
