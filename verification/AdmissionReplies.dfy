/**
 What calls are answered: a retry gets the run of its identity again, in every interleaving, and each
 refusal has its reason in the store of the moment.
 */
module AdmissionReplies {
  import opened Options
  import Text
  import opened AdmissionStores
  import opened AdmissionProtocol

  /** The release is the expected one: same commit and bundle, and same deployment if one is named. */
  ghost predicate IsPinnedTo(expected: Option<Precondition>, release: Release) {
    match expected
    case None => true
    case Some(p) =>
      && Text.TrimSpace(release.commit) == p.commit && Text.TrimSpace(release.bundleDigest) == p.bundleDigest
      && (p.deploymentID != "" ==> release.deploymentID.Some? && Text.TrimSpace(release.deploymentID.value) == p.deploymentID)
  }

  /** The run was stored for this very request, or by a version that stored no fingerprint. */
  ghost predicate SameRequest(run: Run, request: Request) {
    run.fingerprint == request.fingerprint || run.fingerprint == ""
  }

  ghost predicate SameClient(run: Run, request: Request) {
    request.clientID == "" || run.clientID == request.clientID
  }

  /** The step ends the call with this reply and does nothing else. */
  ghost predicate Replies(s: State, c: nat, a: Action, reply: Reply)
    requires c in s.calls
  {
    Step(s, a) == Next(s.(calls := s.calls[c := Done(s.calls[c].request, reply)]))
  }

  // ----- One step

  /** A create that finds the run of its identity, at first or after losing a race, is answered with it or told why not. */
  lemma CreateFindsRun(s: State, c: nat, run: Run)
    requires c in s.calls && (s.calls[c].Creating? || s.calls[c].Collided?)
    requires Find(s.world.store.runs, s.calls[c].request.identity) == Some(run)
    ensures var request := s.calls[c].request;
            var look := if s.calls[c].Creating? then Lookup(c) else Reread(c);
            && (!IsPinnedTo(request.expected, run.release) ==> Replies(s, c, look, Refused(RoutingConflict)))
            && (IsPinnedTo(request.expected, run.release) ==>
                  && (SameRequest(run, request) ==> Replies(s, c, look, Admitted(run, request.fingerprint, true)))
                  && (!SameRequest(run, request) ==> Replies(s, c, look, Refused(FingerprintConflict))))
  {
    hide Find, Text.TrimSpace;
  }

  lemma ProbeFindsRun(s: State, c: nat, run: Run)
    requires c in s.calls && s.calls[c].Probing? && Find(s.world.store.runs, s.calls[c].request.identity) == Some(run)
    ensures var request := s.calls[c].request;
            && (SameClient(run, request) && SameRequest(run, request) ==> Replies(s, c, Lookup(c), ProbedAdmitted(run, request.fingerprint)))
            && (!SameClient(run, request) || !SameRequest(run, request) ==> Replies(s, c, Lookup(c), Refused(FingerprintConflict)))
  {
    hide Find;
  }

  /** A probe that found no run is answered from the outcome that the store holds by then. */
  lemma ProbeFindsOutcome(s: State, c: nat)
    requires c in s.calls && s.calls[c].ProbedUnseen? && Find(s.world.store.runs, s.calls[c].request.identity).None?
    ensures var request, outcomes := s.calls[c].request, s.world.store.outcomes;
            && (request.identity !in outcomes ==> Replies(s, c, ReadOutcome(c), ProbedReady))
            && (request.identity in outcomes ==>
                  var record := outcomes[request.identity];
                  && (record.fingerprint != request.fingerprint ==> Replies(s, c, ReadOutcome(c), Refused(FingerprintConflict)))
                  && (record == Record(false, request.fingerprint) ==> Replies(s, c, ReadOutcome(c), ProbedAborted)))
  {
    hide Find;
  }

  /** It may also find that a run came in between; then only a differing request or an abort is told apart. */
  lemma ProbeFindsLateRun(s: State, c: nat, run: Run)
    requires c in s.calls && s.calls[c].ProbedUnseen? && Find(s.world.store.runs, s.calls[c].request.identity) == Some(run)
    ensures var request, outcomes := s.calls[c].request, s.world.store.outcomes;
            && (request.identity in outcomes ==>
                  var record := outcomes[request.identity];
                  && (record.fingerprint != request.fingerprint ==> Replies(s, c, ReadOutcome(c), Refused(FingerprintConflict)))
                  && (record == Record(false, request.fingerprint) ==> Replies(s, c, ReadOutcome(c), ProbedAborted))
                  && (record == Record(true, request.fingerprint) ==> Replies(s, c, ReadOutcome(c), Refused(Internal))))
            && (request.identity !in outcomes ==>
                  Replies(s, c, ReadOutcome(c), Refused(if run.fingerprint in {"", request.fingerprint} then Internal else FingerprintConflict)))
  {
    hide Find;
  }

  /** The insertion succeeds where nothing is known of the identity; an abort of the same request is told apart. */
  lemma InsertIsAnswered(s: State, c: nat)
    requires c in s.calls && s.calls[c].Prepared? && CallOk(s.world, s.calls[c])
    requires Find(s.world.store.runs, s.calls[c].request.identity).None?
    ensures var request, run, store := s.calls[c].request, s.calls[c].run, s.world.store;
            && (request.identity !in store.outcomes ==>
                  Step(s, Insert(c)) ==
                  Next(State(s.world.(store := Store(store.runs + [run], store.outcomes[request.identity := Record(true, request.fingerprint)])),
                             s.calls[c := Done(request, Admitted(run, request.fingerprint, false))])))
            && (request.identity in store.outcomes && store.outcomes[request.identity] == Record(false, request.fingerprint) ==>
                  Replies(s, c, Insert(c), Refused(PermanentlyAborted)))
            && (request.identity in store.outcomes && store.outcomes[request.identity] != Record(false, request.fingerprint) ==>
                  Step(s, Insert(c)) == Next(s.(calls := s.calls[c := Collided(request)])))
  {
    hide Find;
  }

  /** A release is pinned for the new run exactly when it is the expected one. */
  lemma PinIsAnswered(s: State, c: nat, release: Release)
    requires c in s.calls && s.calls[c].Unseen?
    ensures var request := s.calls[c].request;
            if IsPinnedTo(request.expected, release) then
              Step(s, PinRelease(c, release)) ==
              Next(s.(calls := s.calls[c := Prepared(request, Run(request.identity, request.fingerprint, release, request.clientID, "QUEUED"))]))
            else Replies(s, c, PinRelease(c, release), Refused(RoutingConflict))
  {
    hide Text.TrimSpace;
  }

  /** An abort settles an identity of which no outcome is known: as admitted if its run is there, else as aborted. */
  lemma AbortIsAnswered(s: State, id: Identity, fingerprint: string)
    requires fingerprint != ""
    ensures var store, found := s.world.store, Find(s.world.store.runs, id);
            if id in store.outcomes || (found.Some? && found.value.fingerprint != fingerprint) then Step(s, Abort(id, fingerprint)) == Next(s)
            else Step(s, Abort(id, fingerprint)) ==
                 Next(s.(world := s.world.(store := store.(outcomes := store.outcomes[id := Record(found.Some?, fingerprint)]))))
    ensures var store, found := s.world.store, Find(s.world.store.runs, id);
            match Resolve(store, id, fingerprint)
            case Differs => if id in store.outcomes then store.outcomes[id].fingerprint != fingerprint else found.Some? && found.value.fingerprint != fingerprint
            case Resolved(_, record) => record.fingerprint == fingerprint && (if id in store.outcomes then record == store.outcomes[id] else record.admitted == found.Some?)
  {
    hide Find;
  }

  // ----- Whole runs

  /** Retention leaves the identity alone. */
  ghost predicate Spares(actions: seq<Action>, id: Identity) {
    forall i | 0 <= i < |actions| && actions[i].Retain? :: id !in actions[i].expired
  }

  ghost predicate Held(s: State, id: Identity, run: Run) {
    Find(s.world.store.runs, id).Some? && SameRun(Find(s.world.store.runs, id).value, run)
  }

  lemma HeldStays(s: State, a: Action, id: Identity, run: Run)
    requires Invariant(s) && Held(s, id, run) && Step(s, a).Next? && (a.Retain? ==> id !in a.expired)
    ensures Held(Step(s, a).state, id, run)
  {
    WorldOfInvariant(s);
    StoreIsOk(s.world);
    UniqueIsDistinct(s.world.store);
    hide Invariant, Find, MoveRun, Matches, Bind, Without, Taken, WorldOk;
    match a
    case Advance(j, state) =>
      FindMoved(s.world.store.runs, j, state, id);
    case Retain(expired) =>
      FoundIsHeld(s.world.store, id);
      FindWithout(s.world.store.runs, expired, id);
    case Insert(c) =>
      if s.calls[c].Prepared? {
        FindSnoc(s.world.store.runs, s.calls[c].run, id);
      }
    case _ =>
  }

  /** What a create may be answered while the run of its identity is stored. */
  ghost predicate RightCreateReply(request: Request, run: Run, reply: Reply) {
    match reply
    case Admitted(r, fingerprint, replayed) =>
      && replayed && SameRun(r, run) && fingerprint == request.fingerprint
      && SameRequest(run, request) && IsPinnedTo(request.expected, run.release)
    case Refused(reason) =>
      || reason == Internal
      || (reason == FingerprintConflict && !SameRequest(run, request))
      || (reason == RoutingConflict && !IsPinnedTo(request.expected, run.release))
    case _ => false
  }

  /** The same for a probe. */
  ghost predicate RightProbeReply(request: Request, run: Run, reply: Reply) {
    match reply
    case ProbedAdmitted(r, fingerprint) =>
      SameRun(r, run) && fingerprint == request.fingerprint && SameRequest(run, request) && SameClient(run, request)
    case Refused(reason) =>
      reason == Internal || (reason == FingerprintConflict && !(SameRequest(run, request) && SameClient(run, request)))
    case _ => false
  }

  /** A create under way, with a run prepared perhaps, or answered rightly. */
  ghost predicate CreateGoes(call: Call, request: Request, run: Run) {
    && call.request == request
    && (call.Creating? || call.Prepared? || call.Collided? || (call.Done? && RightCreateReply(request, run, call.reply)))
  }

  ghost predicate ProbeGoes(call: Call, request: Request, run: Run) {
    call.request == request && (call.Probing? || (call.Done? && RightProbeReply(request, run, call.reply)))
  }

  lemma RightForSame(request: Request, a: Run, b: Run, reply: Reply)
    requires SameRun(a, b)
    ensures RightCreateReply(request, a, reply) <==> RightCreateReply(request, b, reply)
    ensures RightProbeReply(request, a, reply) <==> RightProbeReply(request, b, reply)
  {
    hide Text.TrimSpace;
  }

  /** While a run is stored its identity is not aborted, so an insertion can only collide. */
  lemma InsertCollides(s: State, c: nat, run: Run)
    requires Invariant(s) && c in s.calls && s.calls[c].Prepared? && Held(s, s.calls[c].request.identity, run)
    ensures Create(s.world.store, s.calls[c].run).Conflicted?
  {
    hide Find, Matches;
    assert CallOk(s.world, s.calls[c]);
    var id := s.calls[c].request.identity;
    if id in s.world.store.outcomes {
      assert RecordOk(s.world.store, id);
    }
  }

  lemma CreateGoesOn(s: State, a: Action, c: nat, run: Run)
    requires Invariant(s) && c in s.calls && Held(s, s.calls[c].request.identity, run) && Step(s, a).Next?
    requires CreateGoes(s.calls[c], s.calls[c].request, run)
    ensures var t := Step(s, a).state; c in t.calls && CreateGoes(t.calls[c], s.calls[c].request, run)
  {
    hide Invariant, Find, MoveRun, Matches, Create, Resolve, Retained, IsPinnedTo, StepCall;
    if IsCall(a) && a.call == c {
      CreateStepGoesOn(s, a, c, run);
    } else if IsCall(a) && a.call in s.calls {
      OtherCallStays(s, a, c);
    }
  }

  predicate IsCall(a: Action) { !a.Abort? && !a.Advance? && !a.Retain? }

  lemma OtherCallStays(s: State, a: Action, c: nat)
    requires IsCall(a) && !a.BeginCreate? && !a.BeginProbe? && a.call in s.calls && c in s.calls && a.call != c && Step(s, a).Next?
    ensures var t := Step(s, a).state; c in t.calls && t.calls[c] == s.calls[c]
  {
    hide Find, Matches, Create;
  }

  lemma CreateStepGoesOn(s: State, a: Action, c: nat, run: Run)
    requires Invariant(s) && c in s.calls && Held(s, s.calls[c].request.identity, run) && StepCall(s, c, s.calls[c], a).Next?
    requires CreateGoes(s.calls[c], s.calls[c].request, run) && IsCall(a) && a.call == c && !a.BeginCreate? && !a.BeginProbe?
    ensures var t := StepCall(s, c, s.calls[c], a).state; c in t.calls && CreateGoes(t.calls[c], s.calls[c].request, run)
  {
    var call := s.calls[c];
    if call.Prepared? {
      InsertCollides(s, c, run);
    }
    var held := Find(s.world.store.runs, call.request.identity).value;
    if call.Creating? || call.Collided? {
      CreateFindsRun(s, c, held);
    }
    hide Invariant, Find, Matches, Create, IsPinnedTo;
  }

  lemma ProbeGoesOn(s: State, a: Action, c: nat, run: Run)
    requires c in s.calls && Held(s, s.calls[c].request.identity, run) && Step(s, a).Next?
    requires ProbeGoes(s.calls[c], s.calls[c].request, run)
    ensures var t := Step(s, a).state; c in t.calls && ProbeGoes(t.calls[c], s.calls[c].request, run)
  {
    hide Find, MoveRun, Matches, Create, Resolve, Retained;
  }

  /**
   As long as retention spares the run of its identity, a create that is at work while the run is stored
   is answered with that run, or refused for another fingerprint, another release or a failure.
   */
  lemma {:induction false} RetryIsAnswered(s: State, actions: seq<Action>, c: nat, run: Run)
    requires Invariant(s) && Runs(s, actions).Next? && c in s.calls && Spares(actions, s.calls[c].request.identity)
    requires Held(s, s.calls[c].request.identity, run) && CreateGoes(s.calls[c], s.calls[c].request, run)
    ensures var u := Runs(s, actions).state; c in u.calls && CreateGoes(u.calls[c], s.calls[c].request, run)
    decreases |actions|
  {
    hide Invariant, Step, Held, CreateGoes;
    if actions != [] {
      var t, id := Step(s, actions[0]).state, s.calls[c].request.identity;
      StepKeepsInvariant(s, actions[0]);
      HeldStays(s, actions[0], id, run);
      CreateGoesOn(s, actions[0], c, run);
      SameIdentity(t.calls[c], s.calls[c].request, run);
      RetryIsAnswered(t, actions[1..], c, run);
    }
  }

  lemma SameIdentity(call: Call, request: Request, run: Run)
    requires CreateGoes(call, request, run) || ProbeGoes(call, request, run)
    ensures call.request == request
  {
  }

  lemma {:induction false} ProbeIsAnswered(s: State, actions: seq<Action>, c: nat, run: Run)
    requires Invariant(s) && Runs(s, actions).Next? && c in s.calls && Spares(actions, s.calls[c].request.identity)
    requires Held(s, s.calls[c].request.identity, run) && ProbeGoes(s.calls[c], s.calls[c].request, run)
    ensures var u := Runs(s, actions).state; c in u.calls && ProbeGoes(u.calls[c], s.calls[c].request, run)
    decreases |actions|
  {
    hide Invariant, Step, Held, ProbeGoes;
    if actions != [] {
      var t, id := Step(s, actions[0]).state, s.calls[c].request.identity;
      StepKeepsInvariant(s, actions[0]);
      HeldStays(s, actions[0], id, run);
      ProbeGoesOn(s, actions[0], c, run);
      SameIdentity(t.calls[c], s.calls[c].request, run);
      ProbeIsAnswered(t, actions[1..], c, run);
    }
  }

  /**
   The promise of an idempotency key: sending the request of a stored run again, without a release
   precondition or with one that names the run's release, returns that run and changes nothing.
   */
  lemma RetryIsReplayed(s: State, c: nat, request: Request, run: Run)
    requires c !in s.calls && request.fingerprint != "" && Find(s.world.store.runs, request.identity) == Some(run)
    requires run.fingerprint == request.fingerprint && IsPinnedTo(request.expected, run.release)
    ensures Runs(s, [BeginCreate(c, request), Lookup(c)]) ==
            Next(s.(calls := s.calls[c := Done(request, Admitted(run, request.fingerprint, true))]))
  {
    hide Find, IsPinnedTo;
    var t := s.(calls := s.calls[c := Creating(request)]);
    CreateFindsRun(t, c, run);
    var u := s.(calls := s.calls[c := Done(request, Admitted(run, request.fingerprint, true))]);
    assert t.calls[c := Done(request, Admitted(run, request.fingerprint, true))] == u.calls;
    hide Replies, Matches;
    assert Step(t, Lookup(c)) == Next(u);
    RunsTwo(s, BeginCreate(c, request), Lookup(c), t, u);
  }
}
