/** The p2p host's registry of ongoing swaps. Each critical section guarded by `swapMu` is one step;
    an incoming initiation runs the maker's handler, unlocked, between two of them. */
module RegistryModel {

  type OfferId = nat
  /** A stream object; every initiation has its own. */
  type Stream = nat

  /** An entry without `swapState` is the placeholder of an initiation still being handled. */
  datatype Entry = Entry(stream: Stream, hasState: bool, streamClosed: bool)

  /** `handlers` are the incoming initiations inside `HandleInitiateMessage`, with the offer each is for;
      `used` are the streams seen so far; `panicked` is a nil dereference that ends the process. */
  datatype State = State(swaps: map<OfferId, Entry>, handlers: map<Stream, OfferId>, used: set<Stream>, panicked: bool)

  const Initial := State(map[], map[], {}, false)

  datatype Action =
    | Initiate(id: OfferId, stream: Stream, sent: bool) // the whole outgoing call, `sent` if the first message went out
    | Receive(id: OfferId, stream: Stream)              // an incoming SendKeysMessage reaches the registry
    | HandlerFails(stream: Stream)
    | HandlerSucceeds(stream: Stream)
    | Close(id: OfferId)
    | Delete(id: OfferId)

  function InitiateStep(swaps: map<OfferId, Entry>, id: OfferId, stream: Stream, sent: bool): (t: map<OfferId, Entry>) {
    if id in swaps || !sent then swaps else swaps[id := Entry(stream, true, false)]
  }

  function ReceiveStep(swaps: map<OfferId, Entry>, id: OfferId, stream: Stream): (t: map<OfferId, Entry>) {
    if id in swaps then swaps else swaps[id := Entry(stream, false, false)]
  }

  function CloseStep(swaps: map<OfferId, Entry>, id: OfferId): (t: map<OfferId, Entry>) {
    if id in swaps then swaps[id := swaps[id].(streamClosed := true)] else swaps
  }

  function SetStateStep(swaps: map<OfferId, Entry>, id: OfferId): (t: map<OfferId, Entry>)
    requires id in swaps
  {
    swaps[id := swaps[id].(hasState := true)]
  }

  /** One critical section. Actions that make no sense in a state (a reused stream, a handler that is
      not running, anything after a panic) leave it unchanged. */
  function Step(s: State, a: Action): (t: State) {
    if s.panicked then s
    else match a
      case Initiate(id, stream, sent) =>
        if stream in s.used then s
        else s.(swaps := InitiateStep(s.swaps, id, stream, sent), used := s.used + {stream})
      case Receive(id, stream) =>
        if stream in s.used then s
        else if id in s.swaps then s.(used := s.used + {stream})
        else s.(swaps := ReceiveStep(s.swaps, id, stream), handlers := s.handlers[stream := id], used := s.used + {stream})
      case HandlerFails(stream) =>
        if stream !in s.handlers then s
        else s.(swaps := s.swaps - {s.handlers[stream]}, handlers := s.handlers - {stream})
      case HandlerSucceeds(stream) =>
        if stream !in s.handlers then s
        else if s.handlers[stream] !in s.swaps then s.(panicked := true)
        else s.(swaps := SetStateStep(s.swaps, s.handlers[stream]), handlers := s.handlers - {stream})
      case Close(id) => s.(swaps := CloseStep(s.swaps, id))
      case Delete(id) => s.(swaps := s.swaps - {id})
  }

  /** Any interleaving of any number of initiations, closes and deletes. */
  function Run(steps: seq<Action>): (s: State)
    decreases |steps|
  {
    if steps == [] then Initial else Step(Run(steps[..|steps| - 1]), steps[|steps| - 1])
  }
}

module RegistryRuns {
  import opened RegistryModel

  /** A running handler finds its own placeholder in the registry. */
  predicate Owns(s: State, stream: Stream) {
    stream in s.handlers && s.handlers[stream] in s.swaps && s.swaps[s.handlers[stream]] == Entry(stream, false, s.swaps[s.handlers[stream]].streamClosed)
  }

  ghost predicate Sound(s: State) {
    !s.panicked && forall stream :: stream in s.handlers ==> Owns(s, stream)
  }

  /** Streams in use are recorded as used. */
  ghost predicate Recorded(s: State) {
    && s.handlers.Keys <= s.used
    && (forall id :: id in s.swaps ==> s.swaps[id].stream in s.used)
  }

  /** The offer is not being deleted while a handler for it is running. */
  predicate QuietAt(s: State, a: Action) {
    a.Delete? ==> forall stream :: stream in s.handlers ==> s.handlers[stream] != a.id
  }

  ghost predicate Quiet(steps: seq<Action>) {
    forall k :: 0 <= k < |steps| ==> QuietAt(Run(steps[..k]), steps[k])
  }

  /** A registered entry is never overwritten, by any action in any state: it stays with its stream, its
      state and its closed mark until it is removed, and only its own handler's failure or an explicit
      delete removes it, as long as handlers own their entries. */
  lemma NeverOverwritten(s: State, a: Action, id: OfferId)
    requires id in s.swaps
    ensures var t := Step(s, a);
            && (id in t.swaps ==>
                  && t.swaps[id].stream == s.swaps[id].stream
                  && (s.swaps[id].hasState ==> t.swaps[id].hasState)
                  && (s.swaps[id].streamClosed ==> t.swaps[id].streamClosed))
            && (id !in t.swaps && Sound(s) ==> a == Delete(id) || a == HandlerFails(s.swaps[id].stream))
  {
    if a.HandlerFails? && a.stream in s.handlers && Sound(s) { assert Owns(s, a.stream); }
  }

  /** Over any stretch of any run in which the offer stays registered, it stays with the same stream. */
  lemma {:induction false} EntryKeepsStream(steps: seq<Action>, k: nat, id: OfferId)
    requires k <= |steps|
    requires forall j :: k <= j <= |steps| ==> id in Run(steps[..j]).swaps
    ensures id in Run(steps).swaps && Run(steps).swaps[id].stream == Run(steps[..k]).swaps[id].stream
    decreases |steps|
  {
    hide Step;
    assert steps[..|steps|] == steps;
    if k < |steps| {
      var n := |steps| - 1;
      forall j | k <= j <= n ensures id in Run(steps[..n][..j]).swaps { assert steps[..n][..j] == steps[..j]; }
      EntryKeepsStream(steps[..n], k, id);
      assert steps[..n][..k] == steps[..k];
      NeverOverwritten(Run(steps[..n]), steps[n], id);
    }
  }

  /** Once a swap is registered with its state, nothing but a delete of its own offer removes it: it stays, on the same
      stream, over every continuation without one in which handlers own their entries. */
  lemma {:induction false} RegisteredUntilDeleted(before: seq<Action>, after: seq<Action>, id: OfferId)
    requires Quiet(before + after) && id in Run(before).swaps && Run(before).swaps[id].hasState && Delete(id) !in after
    ensures var t := Run(before + after);
            id in t.swaps && t.swaps[id].hasState && t.swaps[id].stream == Run(before).swaps[id].stream
    decreases |after|
  {
    hide Step;
    if after == [] {
      assert before + after == before;
    } else {
      var n := |after| - 1;
      var all, init := before + after, before + after[..n];
      assert all[..|all| - 1] == init && all[|all| - 1] == after[n];
      forall k | 0 <= k < |init| ensures QuietAt(Run(init[..k]), init[k]) {
        assert init[..k] == all[..k] && init[k] == all[k];
        assert QuietAt(Run(all[..k]), all[k]);
      }
      RegisteredUntilDeleted(before, after[..n], id);
      QuietRunSound(init);
      var s := Run(init);
      NeverOverwritten(s, after[n], id);
      FailsOwnOnly(s, after[n], id);
    }
  }

  /** A failing handler cannot remove an entry that has its state. */
  lemma FailsOwnOnly(s: State, a: Action, id: OfferId)
    requires Sound(s) && id in s.swaps && s.swaps[id].hasState && a != Delete(id)
    ensures id in Step(s, a).swaps
  {
    if a.HandlerFails? && a.stream in s.handlers { assert Owns(s, a.stream); }
  }

  /** What registers a swap: an outgoing initiation whose message went out, on a free offer, with its state; an incoming
      one as a placeholder with a running handler, until that succeeds. */
  lemma Registers(s: State, id: OfferId, stream: Stream, sent: bool)
    requires !s.panicked && stream !in s.used
    ensures var t := Step(s, Initiate(id, stream, sent));
            t.swaps == (if id !in s.swaps && sent then s.swaps[id := Entry(stream, true, false)] else s.swaps) && t.handlers == s.handlers
    ensures var t := Step(s, Receive(id, stream));
            && t.swaps == (if id !in s.swaps then s.swaps[id := Entry(stream, false, false)] else s.swaps)
            && t.handlers == (if id !in s.swaps then s.handlers[stream := id] else s.handlers)
    ensures var t := Step(s, Close(id));
            t.swaps == if id in s.swaps then s.swaps[id := Entry(s.swaps[id].stream, s.swaps[id].hasState, true)] else s.swaps
    ensures Step(s, Delete(id)).swaps == s.swaps - {id}
  {
  }

  /** While handlers own their entries there is at most one per offer. */
  lemma OneHandlerPerOffer(s: State, x: Stream, y: Stream)
    requires Sound(s) && x in s.handlers && y in s.handlers && s.handlers[x] == s.handlers[y]
    ensures x == y
  {
    assert Owns(s, x) && Owns(s, y);
  }

  lemma StepRecords(s: State, a: Action)
    requires Recorded(s)
    ensures Recorded(Step(s, a))
  {
  }

  lemma {:induction false} RunRecords(steps: seq<Action>)
    ensures Recorded(Run(steps))
    decreases |steps|
  {
    hide Step;
    if steps != [] {
      RunRecords(steps[..|steps| - 1]);
      StepRecords(Run(steps[..|steps| - 1]), steps[|steps| - 1]);
    }
  }

  /** A quiet step keeps every handler with its own placeholder and cannot panic. */
  lemma QuietStepSound(s: State, a: Action)
    requires Sound(s) && Recorded(s) && QuietAt(s, a)
    ensures Sound(Step(s, a))
  {
    var t := Step(s, a);
    if a.HandlerSucceeds? && a.stream in s.handlers { assert Owns(s, a.stream); }
    forall x | x in t.handlers ensures Owns(t, x) {
      if x in s.handlers {
        assert Owns(s, x);
        if a.HandlerFails? && a.stream in s.handlers { assert Owns(s, a.stream); }
      }
    }
  }

  /** A delete that hits a running handler breaks it at once. */
  lemma NoisyStepBreaks(s: State, a: Action)
    requires !QuietAt(s, a)
    ensures !Sound(Step(s, a))
  {
    var x :| x in s.handlers && s.handlers[x] == a.id;
    if !s.panicked { assert !Owns(Step(s, a), x); }
  }

  lemma {:induction false} QuietRunSound(steps: seq<Action>)
    requires Quiet(steps)
    ensures Sound(Run(steps))
    decreases |steps|
  {
    hide Step;
    if steps != [] {
      var n := |steps| - 1;
      forall k | 0 <= k < n ensures QuietAt(Run(steps[..n][..k]), steps[..n][k]) {
        assert steps[..n][..k] == steps[..k];
        assert QuietAt(Run(steps[..k]), steps[k]);
      }
      QuietRunSound(steps[..n]);
      RunRecords(steps[..n]);
      assert QuietAt(Run(steps[..n]), steps[n]);
      QuietStepSound(Run(steps[..n]), steps[n]);
    }
  }

  /** Over every run, every handler owns its placeholder at every moment and nothing panics if and only
      if no offer is deleted while its handler is running. */
  lemma OwnershipIffQuiet(steps: seq<Action>)
    ensures (forall k :: 0 <= k <= |steps| ==> Sound(Run(steps[..k]))) <==> Quiet(steps)
  {
    hide Step, Sound;
    if Quiet(steps) {
      forall k | 0 <= k <= |steps| ensures Sound(Run(steps[..k])) {
        forall j | 0 <= j < k ensures QuietAt(Run(steps[..k][..j]), steps[..k][j]) {
          assert steps[..k][..j] == steps[..j];
          assert QuietAt(Run(steps[..j]), steps[j]);
        }
        QuietRunSound(steps[..k]);
      }
    } else {
      var k :| 0 <= k < |steps| && !QuietAt(Run(steps[..k]), steps[k]);
      assert steps[..k + 1][..k] == steps[..k];
      NoisyStepBreaks(Run(steps[..k]), steps[k]);
      assert !Sound(Run(steps[..k + 1]));
    }
  }

  /** So in a quiet run a failing handler removes its own placeholder and nothing else, and a succeeding
      one always finds it. */
  lemma QuietHandlerEnds(steps: seq<Action>, stream: Stream)
    requires Quiet(steps) && stream in Run(steps).handlers
    ensures var s := Run(steps);
            var id := s.handlers[stream];
            && id in s.swaps && s.swaps[id].stream == stream && !s.swaps[id].hasState
            && Step(s, HandlerFails(stream)).swaps == s.swaps - {id}
            && !Step(s, HandlerSucceeds(stream)).panicked
            && Step(s, HandlerSucceeds(stream)).swaps == s.swaps[id := s.swaps[id].(hasState := true)]
  {
    QuietRunSound(steps);
    assert Owns(Run(steps), stream);
  }

  /** Without the condition the handler can find nothing to update, or remove a stranger's placeholder. */
  lemma DeletedUnderHandler()
    ensures Run([Receive(7, 1), Delete(7), HandlerSucceeds(1)]).panicked
    ensures var s := Run([Receive(7, 1), Delete(7), Receive(7, 2)]);
            7 in s.swaps && s.swaps[7].stream == 2 && 7 !in Step(s, HandlerFails(1)).swaps
  {
    var p := [Receive(7, 1), Delete(7)];
    assert p[..1] == [Receive(7, 1)] && p[..1][..0] == [];
    assert Run([Receive(7, 1)]).swaps == map[7 := Entry(1, false, false)];
    assert Run(p).swaps == map[] && Run(p).handlers == map[1 := 7];
    assert [Receive(7, 1), Delete(7), HandlerSucceeds(1)][..2] == p;
    assert [Receive(7, 1), Delete(7), Receive(7, 2)][..2] == p;
  }
}

/** The host in its own form: a map changed in place under a lock, one method per critical section. */
module RegistryHost {
  import opened RegistryModel
  import opened RegistryRuns

  class Host {
    var swaps: map<OfferId, Entry>
    /** The incoming initiations being handled and the streams opened so far, which no field of the host records. */
    ghost var handlers: map<Stream, OfferId>
    ghost var used: set<Stream>
    ghost var panicked: bool

    ghost function View(): (s: State)
      reads this
    {
      State(swaps, handlers, used, panicked)
    }

    ghost predicate Valid()
      reads this
    {
      Recorded(View()) && !panicked
    }

    constructor ()
      ensures Valid() && Sound(View()) && View() == Initial
    {
      swaps, handlers, used, panicked := map[], map[], {}, false;
    }

    /** `Initiate` holds the lock while it connects, opens the stream and sends the first message. */
    method Initiate(id: OfferId, connected: bool, streamOpened: bool, messageSent: bool, stream: Stream) returns (ok: bool)
      requires Valid() && stream !in used
      modifies this
      ensures Valid() && (old(Sound(View())) ==> Sound(View()))
      ensures View() == Step(old(View()), RegistryModel.Initiate(id, stream, connected && streamOpened && messageSent))
      ensures ok <==> id !in old(swaps) && connected && streamOpened && messageSent
      ensures swaps == if ok then old(swaps)[id := Entry(stream, true, false)] else old(swaps)
    {
      hide Sound;
      ghost var a := RegistryModel.Initiate(id, stream, connected && streamOpened && messageSent);
      used := used + {stream};
      ok := false;
      if id !in swaps && connected && streamOpened && messageSent {
        swaps := swaps[id := Entry(stream, true, false)];
        ok := true;
      }
      StepRecords(old(View()), a);
      if old(Sound(View())) { QuietStepSound(old(View()), a); }
    }

    /** First critical section of `handleProtocolStream`: an accepted initiation starts its handler. */
    method Receive(id: OfferId, stream: Stream) returns (accepted: bool)
      requires Valid() && stream !in used
      modifies this
      ensures Valid() && (old(Sound(View())) ==> Sound(View()))
      ensures View() == Step(old(View()), RegistryModel.Receive(id, stream))
      ensures accepted <==> id !in old(swaps)
      ensures swaps == if accepted then old(swaps)[id := Entry(stream, false, false)] else old(swaps)
    {
      hide Sound;
      used := used + {stream};
      accepted := id !in swaps;
      if accepted {
        swaps := swaps[id := Entry(stream, false, false)];
        handlers := handlers[stream := id];
      }
      StepRecords(old(View()), RegistryModel.Receive(id, stream));
      if old(Sound(View())) { QuietStepSound(old(View()), RegistryModel.Receive(id, stream)); }
    }

    /** After a failed `HandleInitiateMessage`. While handlers own their entries this removes the handler's own
        placeholder and no other entry. */
    method DropPlaceholder(id: OfferId, stream: Stream)
      requires Valid() && stream in handlers && handlers[stream] == id
      modifies this
      ensures Valid() && View() == Step(old(View()), HandlerFails(stream))
      ensures old(Sound(View())) ==> Sound(View()) && id in old(swaps) && old(swaps)[id].stream == stream && !old(swaps)[id].hasState
    {
      hide Sound;
      swaps := swaps - {id};
      handlers := handlers - {stream};
      StepRecords(old(View()), HandlerFails(stream));
      if old(Sound(View())) {
        QuietStepSound(old(View()), HandlerFails(stream));
        SoundOwns(old(View()), stream);
      }
    }

    /** After a successful one. The entry is dereferenced, which panics if it is gone; while handlers own their
        entries it never is. */
    method SetSwapState(id: OfferId, stream: Stream)
      requires Valid() && stream in handlers && handlers[stream] == id
      modifies this
      ensures View() == Step(old(View()), HandlerSucceeds(stream))
      ensures panicked <==> id !in old(swaps)
      ensures !panicked ==> Valid()
      ensures old(Sound(View())) ==> !panicked && Sound(View()) && old(swaps)[id].stream == stream && swaps[id].hasState
    {
      hide Sound;
      StepRecords(old(View()), HandlerSucceeds(stream));
      if old(Sound(View())) {
        QuietStepSound(old(View()), HandlerSucceeds(stream));
        SoundOwns(old(View()), stream);
      }
      if id !in swaps {
        panicked := true;
        return;
      }
      swaps := swaps[id := swaps[id].(hasState := true)];
      handlers := handlers - {stream};
    }

    /** Closes the stream the first time only. */
    method CloseProtocolStream(id: OfferId) returns (closedNow: bool)
      requires Valid()
      modifies this
      ensures Valid() && (old(Sound(View())) ==> Sound(View()))
      ensures View() == Step(old(View()), Close(id))
      ensures closedNow <==> id in old(swaps) && !old(swaps)[id].streamClosed
    {
      hide Sound;
      closedNow := id in swaps && !swaps[id].streamClosed;
      if closedNow {
        swaps := swaps[id := swaps[id].(streamClosed := true)];
      }
      assert View() == Step(old(View()), Close(id)) by {
        assert id in old(swaps) && !closedNow ==> old(swaps)[id := old(swaps)[id].(streamClosed := true)] == old(swaps);
      }
      StepRecords(old(View()), Close(id));
      if old(Sound(View())) { QuietStepSound(old(View()), Close(id)); }
    }

    /** Removes the entry whoever owns it: handlers keep theirs exactly when none is running for this offer. */
    method DeleteOngoingSwap(id: OfferId)
      requires Valid()
      modifies this
      ensures Valid() && View() == Step(old(View()), Delete(id))
      ensures old(Sound(View())) ==> (Sound(View()) <==> QuietAt(old(View()), Delete(id)))
    {
      hide Sound;
      if id in swaps {
        swaps := swaps - {id};
      }
      assert swaps == old(swaps) - {id};
      StepRecords(old(View()), Delete(id));
      if old(Sound(View())) {
        if QuietAt(old(View()), Delete(id)) {
          QuietStepSound(old(View()), Delete(id));
        } else {
          NoisyStepBreaks(old(View()), Delete(id));
        }
      }
    }

    /** The stream a message for this offer is written to, if the swap is ongoing. */
    method SendSwapMessage(id: OfferId) returns (has: bool, stream: Stream)
      ensures has <==> id in swaps
      ensures has ==> stream == swaps[id].stream
    {
      has := id in swaps;
      stream := if has then swaps[id].stream else 0;
    }
  }

  lemma SoundOwns(s: State, stream: Stream)
    requires Sound(s) && stream in s.handlers
    ensures Owns(s, stream)
  {
  }
}
