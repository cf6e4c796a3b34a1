/**
 Idempotent admission as interleaved steps: any number of create and probe calls, aborts, running
 workers and retention over the atomic store.
 */
module AdmissionProtocol {
  import opened Options
  import opened AdmissionStores

  /** What one call asks for: its identity, its fingerprint and, for a create, a normalized release pin. */
  datatype Request = Request(identity: Identity, fingerprint: string, expected: Option<Precondition>, clientID: string)

  datatype Reason = FingerprintConflict | RoutingConflict | PermanentlyAborted | AlreadyExists | Internal

  datatype Reply =
    | Admitted(run: Run, fingerprint: string, replayed: bool)
    | ProbedAdmitted(run: Run, fingerprint: string)
    | ProbedAborted
    | ProbedReady
    | Refused(reason: Reason)

  datatype Call =
    | Creating(request: Request)
    | Unseen(request: Request)
    | Prepared(request: Request, run: Run)
    | Collided(request: Request)
    | Probing(request: Request)
    | ProbedUnseen(request: Request)
    | Done(request: Request, reply: Reply)

  /** The store, and the runs that retention has taken from it; no decision reads the latter. */
  datatype World = World(store: Store, gone: seq<Run>)

  datatype State = State(world: World, calls: map<nat, Call>)

  datatype Action =
    | BeginCreate(call: nat, request: Request)
    | BeginProbe(call: nat, request: Request)
    | Lookup(call: nat)
    | PinRelease(call: nat, release: Release)
    | Insert(call: nat)
    | Reread(call: nat)
    | ReadOutcome(call: nat)
    | Fail(call: nat)
    | Abort(identity: Identity, fingerprint: string)
    | Advance(identity: Identity, state: string)
    | Retain(expired: set<Identity>)

  datatype Outcome = Stuck | Next(state: State)

  // ----- Decisions

  /** replayAdmission: a stored fingerprint, when there is one, must be the request's. */
  function Replay(run: Run, request: Request): Reply {
    if run.fingerprint != "" && run.fingerprint != request.fingerprint then Refused(FingerprintConflict)
    else Admitted(run, request.fingerprint, true)
  }

  predicate Accepts(request: Request, release: Release) {
    request.expected.Some? ==> Matches(request.expected.value, release)
  }

  /** What a create call answers when it finds the run of its identity. */
  function ReplayPinned(run: Run, request: Request): Reply {
    if !Accepts(request, run.release) then Refused(RoutingConflict) else Replay(run, request)
  }

  /** What a probe answers when it finds the run. */
  function ReplayProbe(run: Run, request: Request): Reply {
    if request.clientID != "" && run.clientID != request.clientID then Refused(FingerprintConflict)
    else
      match Replay(run, request)
      case Admitted(r, fingerprint, _) => ProbedAdmitted(r, fingerprint)
      case other => other
  }

  /** What a probe answers from the outcome when it has found no run. */
  function ProbeRecord(record: Option<Record>, request: Request): Reply {
    match record
    case None => ProbedReady
    case Some(r) =>
      if r.fingerprint != request.fingerprint then Refused(FingerprintConflict)
      else if !r.admitted then ProbedAborted
      else Refused(Internal)
  }

  /** GetAdmissionOutcome: a run without a record reads as admitted; one without a fingerprint is an error. */
  datatype RecordLookup = RecordFound(record: Record) | NoRecord | BadRecord

  function ReadRecord(s: Store, id: Identity): RecordLookup {
    if id in s.outcomes then RecordFound(s.outcomes[id])
    else
      match Find(s.runs, id)
      case None => NoRecord
      case Some(run) => if run.fingerprint == "" then BadRecord else RecordFound(Record(true, run.fingerprint))
  }

  function Answer(s: State, c: nat, request: Request, reply: Reply): Outcome {
    Next(s.(calls := s.calls[c := Done(request, reply)]))
  }

  function MoveRun(runs: seq<Run>, id: Identity, state: string): seq<Run> {
    seq(|runs|, i requires 0 <= i < |runs| => if runs[i].identity == id then runs[i].(state := state) else runs[i])
  }

  // ----- Steps

  function StepCall(s: State, c: nat, call: Call, a: Action): Outcome {
    var store := s.world.store;
    match (call, a)
    case (Creating(request), Lookup(_)) =>
      (match Find(store.runs, request.identity)
       case Some(run) => Answer(s, c, request, ReplayPinned(run, request))
       case None => Next(s.(calls := s.calls[c := Unseen(request)])))
    case (Unseen(request), PinRelease(_, release)) =>
      if !Accepts(request, release) then Answer(s, c, request, Refused(RoutingConflict))
      else Next(s.(calls := s.calls[c := Prepared(request, NewRun(request, release))]))
    case (Prepared(request, run), Insert(_)) =>
      (match Create(store, run)
       case Created(after) => Next(State(s.world.(store := after), s.calls[c := Done(request, Admitted(run, request.fingerprint, false))]))
       case AbortedBefore => Answer(s, c, request, Refused(PermanentlyAborted))
       case Conflicted => Next(s.(calls := s.calls[c := Collided(request)])))
    case (Collided(request), Reread(_)) =>
      (match Find(store.runs, request.identity)
       case Some(run) => Answer(s, c, request, ReplayPinned(run, request))
       case None => Answer(s, c, request, Refused(AlreadyExists)))
    case (Probing(request), Lookup(_)) =>
      (match Find(store.runs, request.identity)
       case Some(run) => Answer(s, c, request, ReplayProbe(run, request))
       case None => Next(s.(calls := s.calls[c := ProbedUnseen(request)])))
    case (ProbedUnseen(request), ReadOutcome(_)) =>
      (match ReadRecord(store, request.identity)
       case RecordFound(record) => Answer(s, c, request, ProbeRecord(Some(record), request))
       case NoRecord => Answer(s, c, request, ProbeRecord(None, request))
       case BadRecord => Answer(s, c, request, Refused(Internal)))
    case (Done(_, _), _) => Stuck
    case (_, Fail(_)) => Answer(s, c, call.request, Refused(Internal))
    case (_, _) => Stuck
  }

  function NewRun(request: Request, release: Release): Run {
    Run(request.identity, request.fingerprint, release, request.clientID, "QUEUED")
  }

  function Step(s: State, a: Action): Outcome {
    var store := s.world.store;
    match a
    case BeginCreate(c, request) =>
      if c in s.calls || request.fingerprint == "" then Stuck else Next(s.(calls := s.calls[c := Creating(request)]))
    case BeginProbe(c, request) =>
      if c in s.calls || request.fingerprint == "" then Stuck else Next(s.(calls := s.calls[c := Probing(request)]))
    case Abort(id, fingerprint) =>
      if fingerprint == "" then Stuck
      else
        (match Resolve(store, id, fingerprint)
         case Resolved(after, _) => Next(s.(world := s.world.(store := after)))
         case Differs => Next(s))
    case Advance(id, state) => Next(s.(world := s.world.(store := store.(runs := MoveRun(store.runs, id, state)))))
    case Retain(expired) => Next(s.(world := Retained(s.world, expired)))
    case _ => if a.call in s.calls then StepCall(s, a.call, s.calls[a.call], a) else Stuck
  }

  function Retained(w: World, expired: set<Identity>): World {
    World(Prune(w.store, expired), w.gone + Taken(w.store.runs, expired))
  }

  function Runs(s: State, actions: seq<Action>): Outcome
    decreases |actions|
  {
    if actions == [] then Next(s)
    else
      match Step(s, actions[0])
      case Stuck => Stuck
      case Next(t) => Runs(t, actions[1..])
  }

  // ----- Invariant

  /** The same run, whatever it has been doing since. */
  predicate SameRun(a: Run, b: Run) { a == b.(state := a.state) }

  /** The store holds the run. */
  ghost predicate Holds(s: Store, run: Run) {
    Find(s.runs, run.identity).Some? && SameRun(Find(s.runs, run.identity).value, run)
  }

  ghost predicate GoneAt(w: World, i: int, run: Run) { 0 <= i < |w.gone| && SameRun(w.gone[i], run) }

  /** The store holds the run, or has held it until retention took it. */
  ghost predicate Recalls(w: World, run: Run) { Holds(w.store, run) || exists i :: GoneAt(w, i, run) }

  /** The identity stays taken by this run although the store no longer holds it. */
  ghost predicate Fenced(s: Store, run: Run) {
    && run.identity in s.outcomes && s.outcomes[run.identity] == Record(true, run.fingerprint)
    && Find(s.runs, run.identity).None?
  }

  ghost predicate GoneOk(w: World, i: nat)
    requires i < |w.gone|
  {
    w.gone[i].fingerprint != "" ==> Fenced(w.store, w.gone[i])
  }

  ghost predicate BothGone(w: World, i: int, j: int, id: Identity) {
    && 0 <= i < |w.gone| && 0 <= j < |w.gone| && w.gone[i].identity == id && w.gone[j].identity == id
    && w.gone[i].fingerprint != "" && w.gone[j].fingerprint != ""
  }

  ghost predicate WorldOk(w: World) {
    && StoreOk(w.store)
    && (forall i: nat | i < |w.gone| :: GoneOk(w, i))
    && (forall i, j, id | BothGone(w, i, j, id) :: i == j)
  }

  predicate FitsFingerprint(run: Run, fingerprint: string) { run.fingerprint == "" || run.fingerprint == fingerprint }

  ghost predicate Settled(s: Store, id: Identity) { id in s.outcomes && s.outcomes[id].admitted }

  ghost predicate ReplyOk(w: World, request: Request, reply: Reply) {
    match reply
    case Admitted(run, fingerprint, replayed) =>
      && run.identity == request.identity && fingerprint == request.fingerprint && FitsFingerprint(run, fingerprint)
      && Accepts(request, run.release) && Recalls(w, run)
      && (!replayed ==> run.fingerprint != "" && Settled(w.store, run.identity))
    case ProbedAdmitted(run, fingerprint) =>
      run.identity == request.identity && fingerprint == request.fingerprint && FitsFingerprint(run, fingerprint) && Recalls(w, run)
    case ProbedAborted => request.identity in w.store.outcomes && w.store.outcomes[request.identity] == Record(false, request.fingerprint)
    case _ => true
  }

  ghost predicate CallOk(w: World, call: Call) {
    && call.request.fingerprint != ""
    && match call
       case Prepared(request, run) =>
         run.identity == request.identity && run.fingerprint == request.fingerprint && Accepts(request, run.release)
       case Done(request, reply) => ReplyOk(w, request, reply)
       case _ => true
  }

  ghost predicate Fresh(call: Call, id: Identity) {
    call.Done? && call.reply.Admitted? && !call.reply.replayed && call.request.identity == id
  }

  ghost predicate BothFresh(s: State, c: nat, d: nat, id: Identity) {
    c in s.calls && d in s.calls && Fresh(s.calls[c], id) && Fresh(s.calls[d], id)
  }

  ghost predicate Invariant(s: State) {
    && WorldOk(s.world)
    && (forall c | c in s.calls :: CallOk(s.world, s.calls[c]))
    && forall c: nat, d: nat, id | BothFresh(s, c, d, id) :: c == d
  }

  /** What every step keeps of the world: runs are remembered, up to their progress, and outcomes are final. */
  ghost predicate Keeps(w: World, v: World) {
    && (forall run | Recalls(w, run) :: Recalls(v, run))
    && w.gone <= v.gone
    && forall id | id in w.store.outcomes :: id in v.store.outcomes && v.store.outcomes[id] == w.store.outcomes[id]
  }

  lemma ReplyStays(w: World, v: World, call: Call)
    requires CallOk(w, call) && Keeps(w, v)
    ensures CallOk(v, call)
  {
    hide Recalls, Matches;
  }

  /** A new store with the same retained runs: what it holds, and that fenced identities stay fenced, decides. */
  lemma StoreKeeps(w: World, store: Store)
    requires WorldOk(w) && StoreOk(store)
    requires forall run | Holds(w.store, run) :: Holds(store, run)
    requires forall id | id in w.store.outcomes :: id in store.outcomes && store.outcomes[id] == w.store.outcomes[id]
    requires forall id | id in w.store.outcomes && Find(w.store.runs, id).None? :: Find(store.runs, id).None?
    ensures WorldOk(w.(store := store)) && Keeps(w, w.(store := store))
  {
    hide StoreOk, Holds, Find;
    var v := w.(store := store);
    forall run | Recalls(w, run)
      ensures Recalls(v, run)
    {
      if i :| GoneAt(w, i, run) {
        assert GoneAt(v, i, run);
      }
    }
    forall i: nat | i < |v.gone|
      ensures GoneOk(v, i)
    {
      assert GoneOk(w, i);
    }
    forall i, j, id | BothGone(v, i, j, id)
      ensures i == j
    {
      assert BothGone(w, i, j, id);
    }
  }

  lemma CreateKeeps(w: World, run: Run)
    requires WorldOk(w) && Create(w.store, run).Created?
    ensures var v := w.(store := Create(w.store, run).store);
            WorldOk(v) && Keeps(w, v) && Recalls(v, run) && Settled(v.store, run.identity) && !Settled(w.store, run.identity)
  {
    CreateIsOk(w.store, run);
    var t := Create(w.store, run).store;
    forall r | Holds(w.store, r)
      ensures Holds(t, r)
    {
      FindSnoc(w.store.runs, run, r.identity);
    }
    forall id | id in w.store.outcomes && Find(w.store.runs, id).None?
      ensures Find(t.runs, id).None?
    {
      FindSnoc(w.store.runs, run, id);
    }
    FindSnoc(w.store.runs, run, run.identity);
    StoreKeeps(w, t);
  }

  lemma {:induction false} FindMoved(runs: seq<Run>, id: Identity, state: string, j: Identity)
    ensures Find(MoveRun(runs, id, state), j) ==
            match Find(runs, j) case None => None case Some(run) => Some(if j == id then run.(state := state) else run)
  {
    if runs != [] {
      var moved := MoveRun(runs, id, state);
      assert moved[1..] == MoveRun(runs[1..], id, state);
      FindMoved(runs[1..], id, state, j);
    }
  }

  lemma AdvanceIsOk(s: Store, id: Identity, state: string)
    requires StoreOk(s)
    ensures StoreOk(s.(runs := MoveRun(s.runs, id, state)))
  {
    var t := s.(runs := MoveRun(s.runs, id, state));
    forall j
      ensures Find(t.runs, j) == match Find(s.runs, j) case None => None case Some(run) => Some(if j == id then run.(state := state) else run)
    {
      FindMoved(s.runs, id, state, j);
    }
    forall i, j, k | RunAt(t, i, k) && RunAt(t, j, k)
      ensures i == j
    {
      assert RunAt(s, i, k) && RunAt(s, j, k);
    }
    hide MoveRun, Find;
    forall j | j in t.outcomes
      ensures RecordOk(t, j)
    {
      assert RecordOk(s, j);
    }
  }

  lemma AdvanceKeeps(w: World, id: Identity, state: string)
    requires WorldOk(w)
    ensures var v := w.(store := w.store.(runs := MoveRun(w.store.runs, id, state))); WorldOk(v) && Keeps(w, v)
  {
    AdvanceIsOk(w.store, id, state);
    var t := w.store.(runs := MoveRun(w.store.runs, id, state));
    forall j
      ensures Find(t.runs, j) ==
              match Find(w.store.runs, j) case None => None case Some(run) => Some(if j == id then run.(state := state) else run)
    {
      FindMoved(w.store.runs, id, state, j);
    }
    hide MoveRun, Find, StoreOk;
    StoreKeeps(w, t);
  }

  lemma AbortKeeps(w: World, id: Identity, fingerprint: string)
    requires WorldOk(w) && Resolve(w.store, id, fingerprint).Resolved?
    ensures var v := w.(store := Resolve(w.store, id, fingerprint).store); WorldOk(v) && Keeps(w, v)
  {
    ResolveIsOk(w.store, id, fingerprint);
    hide Find, StoreOk;
    StoreKeeps(w, Resolve(w.store, id, fingerprint).store);
  }

  /** Retention remembers every run it takes, and fences those that have a fingerprint. */
  lemma RetainKeeps(w: World, expired: set<Identity>)
    requires WorldOk(w)
    ensures WorldOk(Retained(w, expired)) && Keeps(w, Retained(w, expired))
  {
    var v := Retained(w, expired);
    PruneIsOk(w.store, expired);
    UniqueIsDistinct(w.store);
    hide WorldOk, Find, Without, Taken, Bind;
    forall run | Recalls(w, run)
      ensures Recalls(v, run)
    {
      RetainRecalls(w, expired, run);
    }
    forall id | id in w.store.outcomes
      ensures id in v.store.outcomes && v.store.outcomes[id] == w.store.outcomes[id]
    {
      BindAt(w.store.runs, w.store.outcomes, id);
    }
    forall i: nat | i < |v.gone|
      ensures GoneOk(v, i)
    {
      RetainFences(w, expired, i);
    }
    forall i, j, id | BothGone(v, i, j, id)
      ensures i == j
    {
      RetainOnce(w, expired, i, j, id);
    }
    WorldHas(v);
  }

  lemma WorldHas(w: World)
    requires StoreOk(w.store) && (forall i: nat | i < |w.gone| :: GoneOk(w, i)) && forall i, j, id | BothGone(w, i, j, id) :: i == j
    ensures WorldOk(w)
  {
    hide StoreOk, GoneOk, BothGone;
  }

  lemma RetainRecalls(w: World, expired: set<Identity>, run: Run)
    requires DistinctRuns(w.store.runs) && Recalls(w, run)
    ensures Recalls(Retained(w, expired), run)
  {
    var v := Retained(w, expired);
    hide Find, Without, Taken, Bind, DistinctRuns;
    if i :| GoneAt(w, i, run) {
      assert GoneAt(v, i, run);
    } else {
      var found := Find(w.store.runs, run.identity).value;
      var k := FindIsRun(w.store.runs, run.identity);
      FindWithout(w.store.runs, expired, run.identity);
      if Drops(expired, found) {
        WithoutHolds(w.store.runs, expired, found);
        var j :| 0 <= j < |Taken(w.store.runs, expired)| && Taken(w.store.runs, expired)[j] == found;
        assert GoneAt(v, |w.gone| + j, run);
      }
    }
  }

  /** A taken run was the run of its identity. */
  lemma TakenWasHeld(w: World, expired: set<Identity>, j: nat)
    requires DistinctRuns(w.store.runs) && j < |Taken(w.store.runs, expired)|
    ensures var run := Taken(w.store.runs, expired)[j];
            Drops(expired, run) && Find(w.store.runs, run.identity) == Some(run)
  {
    var run := Taken(w.store.runs, expired)[j];
    hide Find, Taken;
    WithoutHolds(w.store.runs, expired, run);
    var k :| 0 <= k < |w.store.runs| && w.store.runs[k] == run;
    FindNothing(w.store.runs, run.identity, k);
    var l := FindIsRun(w.store.runs, run.identity);
  }

  lemma RetainFences(w: World, expired: set<Identity>, i: nat)
    requires WorldOk(w) && DistinctRuns(w.store.runs) && i < |Retained(w, expired).gone|
    ensures GoneOk(Retained(w, expired), i)
  {
    var v := Retained(w, expired);
    var run := v.gone[i];
    FindWithout(w.store.runs, expired, run.identity);
    BindAt(w.store.runs, w.store.outcomes, run.identity);
    hide Find, Without, Taken, Bind, DistinctRuns;
    if i < |w.gone| {
      assert GoneOk(w, i);
    } else {
      TakenWasHeld(w, expired, i - |w.gone|);
      if run.identity in w.store.outcomes {
        assert RecordOk(w.store, run.identity);
      }
    }
  }

  lemma RetainOnce(w: World, expired: set<Identity>, i: nat, j: nat, id: Identity)
    requires WorldOk(w) && DistinctRuns(w.store.runs) && BothGone(Retained(w, expired), i, j, id)
    ensures i == j
  {
    hide Find, Without, Taken, Bind, DistinctRuns, StoreOk;
    if i < |w.gone| && j < |w.gone| {
      assert BothGone(w, i, j, id);
    } else if i < |w.gone| {
      assert GoneOk(w, i);
      TakenWasHeld(w, expired, j - |w.gone|);
    } else if j < |w.gone| {
      assert GoneOk(w, j);
      TakenWasHeld(w, expired, i - |w.gone|);
    } else {
      WithoutIsDistinct(w.store.runs, expired);
      SameTaken(Taken(w.store.runs, expired), i - |w.gone|, j - |w.gone|);
    }
  }

  lemma SameTaken(runs: seq<Run>, i: nat, j: nat)
    requires DistinctRuns(runs) && i < |runs| && j < |runs| && runs[i].identity == runs[j].identity
    ensures i == j
  {
  }

  lemma FoundIsHeld(s: Store, id: Identity)
    requires Find(s.runs, id).Some?
    ensures Find(s.runs, id).value.identity == id && Holds(s, Find(s.runs, id).value)
  {
    var i := FindIsRun(s.runs, id);
  }

  /** A step of one call changes that call, and the world only by inserting its run. */
  lemma CallStepIsOk(s: State, c: nat, a: Action)
    requires Invariant(s) && c in s.calls && StepCall(s, c, s.calls[c], a).Next?
    ensures var t := StepCall(s, c, s.calls[c], a).state;
            && c in t.calls && t.calls == s.calls[c := t.calls[c]] && CallOk(t.world, t.calls[c])
            && WorldOk(t.world) && Keeps(s.world, t.world)
            && !s.calls[c].Done? && t.calls[c].request == s.calls[c].request
            && (Fresh(t.calls[c], t.calls[c].request.identity) ==> !Settled(s.world.store, t.calls[c].request.identity))
            && (Returns(t.calls[c]) ==> Find(t.world.store.runs, t.calls[c].request.identity).Some?)
  {
    hide Matches, WorldOk, Find, Holds;
    var call := s.calls[c];
    var id := call.request.identity;
    assert CallOk(s.world, call);
    KeepsItself(s.world);
    if Find(s.world.store.runs, id).Some? {
      FoundIsHeld(s.world.store, id);
    }
    if call.Prepared? && Create(s.world.store, call.run).Created? {
      StoreIsOk(s.world);
      CreateIsOk(s.world.store, call.run);
      CreateKeeps(s.world, call.run);
    }
    hide Keeps, Create;
  }

  lemma StoreIsOk(w: World)
    requires WorldOk(w)
    ensures StoreOk(w.store)
  {
    hide StoreOk;
  }

  ghost predicate Returns(call: Call) { call.Done? && (call.reply.Admitted? || call.reply.ProbedAdmitted?) }

  ghost predicate Answered(s: State, c: nat, id: Identity, run: Run, fingerprint: string) {
    && c in s.calls && Returns(s.calls[c]) && s.calls[c].request.identity == id
    && s.calls[c].reply.run == run && s.calls[c].reply.fingerprint == fingerprint
  }

  lemma FreshIsSettled(s: State, c: nat, id: Identity)
    requires Invariant(s) && c in s.calls && Fresh(s.calls[c], id)
    ensures Settled(s.world.store, id)
  {
    hide Matches, WorldOk, Recalls;
    assert CallOk(s.world, s.calls[c]);
  }

  lemma AnsweredIsRecalled(s: State, c: nat, id: Identity, run: Run, fingerprint: string)
    requires Invariant(s) && Answered(s, c, id, run, fingerprint)
    ensures Recalls(s.world, run) && run.identity == id && FitsFingerprint(run, fingerprint) && fingerprint != ""
  {
    hide Matches, WorldOk, Recalls;
    assert CallOk(s.world, s.calls[c]);
  }

  lemma OnlyFresh(s: State, t: State, c: nat)
    requires Invariant(s) && c in s.calls && !s.calls[c].Done? && c in t.calls && t.calls == s.calls[c := t.calls[c]]
    requires Fresh(t.calls[c], t.calls[c].request.identity) ==> !Settled(s.world.store, t.calls[c].request.identity)
    ensures forall i: nat, j: nat, id | BothFresh(t, i, j, id) :: i == j
  {
    hide Matches, WorldOk, Settled;
    forall i: nat, j: nat, id | BothFresh(t, i, j, id)
      ensures i == j
    {
      if i != c && j != c {
        assert BothFresh(s, i, j, id);
      } else if i != j {
        FreshIsSettled(s, if i == c then j else i, id);
      }
    }
  }

  /** What a step keeps of the calls: replies are final, and new ones are honest about the store of the moment. */
  ghost predicate Answers(s: State, t: State) {
    && (forall c | c in s.calls && s.calls[c].Done? :: c in t.calls && t.calls[c] == s.calls[c])
    && forall c | c in t.calls && Returns(t.calls[c]) && !(c in s.calls && s.calls[c].Done?) ::
         NewAnswer(s, t, t.calls[c])
  }

  ghost predicate NewAnswer(s: State, t: State, call: Call) {
    && (Fresh(call, call.request.identity) ==> !Settled(s.world.store, call.request.identity))
    && Find(t.world.store.runs, call.request.identity).Some?
  }

  lemma StepKeepsInvariant(s: State, a: Action)
    requires Invariant(s) && Step(s, a).Next?
    ensures Invariant(Step(s, a).state) && Keeps(s.world, Step(s, a).state.world) && Answers(s, Step(s, a).state)
  {
    hide StepCall, WorldOk, Find, Matches, Create, Resolve, MoveRun, Keeps, Retained;
    var t := Step(s, a).state;
    if a.Abort? {
      KeepsItself(s.world);
      if Resolve(s.world.store, a.identity, a.fingerprint).Resolved? {
        AbortKeeps(s.world, a.identity, a.fingerprint);
      }
      WorldChanges(s, t);
    } else if a.Advance? {
      AdvanceKeeps(s.world, a.identity, a.state);
      WorldChanges(s, t);
    } else if a.Retain? {
      RetainKeeps(s.world, a.expired);
      WorldChanges(s, t);
    } else if a.BeginCreate? || a.BeginProbe? {
      CallBegins(s, t, a.call);
    } else {
      CallStepIsOk(s, a.call, a);
      OnlyFresh(s, t, a.call);
      CallsStay(s, t, a.call);
    }
  }

  lemma WorldChanges(s: State, t: State)
    requires Invariant(s) && t.calls == s.calls && WorldOk(t.world) && Keeps(s.world, t.world)
    ensures Invariant(t) && Answers(s, t)
  {
    hide WorldOk, Keeps, CallOk;
    forall c | c in t.calls
      ensures CallOk(t.world, t.calls[c])
    {
      ReplyStays(s.world, t.world, s.calls[c]);
    }
    forall i: nat, j: nat, id | BothFresh(t, i, j, id)
      ensures i == j
    {
      assert BothFresh(s, i, j, id);
    }
  }

  lemma CallBegins(s: State, t: State, c: nat)
    requires Invariant(s) && c !in s.calls && c in t.calls && t == s.(calls := s.calls[c := t.calls[c]])
    requires (t.calls[c].Creating? || t.calls[c].Probing?) && t.calls[c].request.fingerprint != ""
    ensures Invariant(t) && Keeps(s.world, t.world) && Answers(s, t)
  {
    hide WorldOk, Recalls;
    forall i: nat, j: nat, id | BothFresh(t, i, j, id)
      ensures i == j
    {
      assert BothFresh(s, i, j, id);
    }
  }

  lemma CallsStay(s: State, t: State, c: nat)
    requires Invariant(s) && c in t.calls && t.calls == s.calls[c := t.calls[c]] && CallOk(t.world, t.calls[c]) && Keeps(s.world, t.world)
    ensures forall d | d in t.calls :: CallOk(t.world, t.calls[d])
  {
    hide WorldOk, Keeps, CallOk;
    forall d | d in t.calls
      ensures CallOk(t.world, t.calls[d])
    {
      if d != c {
        ReplyStays(s.world, t.world, s.calls[d]);
      }
    }
  }

  lemma KeepsOn(w: World, v: World, u: World)
    requires Keeps(w, v) && Keeps(v, u)
    ensures Keeps(w, u)
  {
    hide Recalls;
  }

  lemma KeepsItself(w: World)
    ensures Keeps(w, w)
  {
    hide Recalls;
  }

  lemma {:induction false} RunsKeepInvariant(s: State, actions: seq<Action>)
    requires Invariant(s) && Runs(s, actions).Next?
    ensures Invariant(Runs(s, actions).state) && Keeps(s.world, Runs(s, actions).state.world)
    ensures forall c | c in s.calls && s.calls[c].Done? :: c in Runs(s, actions).state.calls && Runs(s, actions).state.calls[c] == s.calls[c]
    decreases |actions|
  {
    hide Invariant, Keeps, Step, NewAnswer;
    if actions == [] {
      KeepsItself(s.world);
    } else {
      var t := Step(s, actions[0]).state;
      StepKeepsInvariant(s, actions[0]);
      RunsKeepInvariant(t, actions[1..]);
      KeepsOn(s.world, t.world, Runs(t, actions[1..]).state.world);
    }
  }

  // ----- The theorems

  /** A start: a store in order, which may hold runs of older versions and may have lost some to retention. */
  ghost predicate IsStart(s: State) { StoreOk(s.world.store) && s.world.gone == [] && s.calls == map[] }

  lemma StartIsInvariant(s: State)
    requires IsStart(s)
    ensures Invariant(s)
  {
  }

  /** No run without a fingerprint has been taken from this identity. */
  ghost predicate NothingForgotten(w: World, id: Identity) {
    forall i | 0 <= i < |w.gone| && w.gone[i].identity == id :: w.gone[i].fingerprint != ""
  }

  /** In every interleaving at most one run exists per identity. */
  lemma OneRunPerIdentity(s: State, actions: seq<Action>, i: nat, j: nat)
    requires IsStart(s) && Runs(s, actions).Next?
    requires var runs := Runs(s, actions).state.world.store.runs; i < |runs| && j < |runs| && runs[i].identity == runs[j].identity
    ensures i == j
  {
    StartIsInvariant(s);
    RunsKeepInvariant(s, actions);
    var t := Runs(s, actions).state;
    hide Runs, Step;
    SameIdentitySameRun(t.world.store, i, j);
  }

  /** Two recalled runs of one identity are the same, if both have a fingerprint or none without one was taken. */
  lemma RecalledOnce(w: World, a: Run, b: Run)
    requires WorldOk(w) && Recalls(w, a) && Recalls(w, b) && a.identity == b.identity
    requires (a.fingerprint != "" && b.fingerprint != "") || NothingForgotten(w, a.identity)
    ensures SameRun(a, b)
  {
    hide StoreOk, Find;
    if i :| GoneAt(w, i, a) {
      GoneIsFenced(w, i);
      if j :| GoneAt(w, j, b) {
        assert BothGone(w, i, j, a.identity);
      }
    } else if j :| GoneAt(w, j, b) {
      GoneIsFenced(w, j);
    }
  }

  lemma GoneIsFenced(w: World, i: nat)
    requires WorldOk(w) && i < |w.gone|
    ensures w.gone[i].fingerprint != "" ==> Fenced(w.store, w.gone[i])
  {
    hide StoreOk, Find;
    assert GoneOk(w, i);
  }

  /**
   All successful replies for one identity return the same run, which the store holds or has held,
   with the fingerprint it was stored under; only a run stored without one, once retention has taken
   it, can be followed by another.
   */
  lemma RepliesAgree(s: State, actions: seq<Action>, c: nat, d: nat, id: Identity, a: Run, x: string, b: Run, y: string)
    requires IsStart(s) && Runs(s, actions).Next?
    requires var t := Runs(s, actions).state; Answered(t, c, id, a, x) && Answered(t, d, id, b, y)
    ensures var w := Runs(s, actions).state.world;
            && Recalls(w, a) && Recalls(w, b)
            && ((a.fingerprint != "" && b.fingerprint != "") || NothingForgotten(w, id) ==> SameRun(a, b))
    ensures a.fingerprint != "" ==> x == a.fingerprint
    ensures a.fingerprint != "" && b.fingerprint != "" ==> x == y
  {
    StartIsInvariant(s);
    RunsKeepInvariant(s, actions);
    var t := Runs(s, actions).state;
    hide Runs, Step, WorldOk, Recalls, NothingForgotten;
    AnsweredIsRecalled(t, c, id, a, x);
    AnsweredIsRecalled(t, d, id, b, y);
    if (a.fingerprint != "" && b.fingerprint != "") || NothingForgotten(t.world, id) {
      RecalledOnce(t.world, a, b);
    }
  }

  /** At most one call per identity creates a run, retention or not. */
  lemma OneCreation(s: State, actions: seq<Action>, c: nat, d: nat, id: Identity)
    requires IsStart(s) && Runs(s, actions).Next? && BothFresh(Runs(s, actions).state, c, d, id)
    ensures c == d
  {
    StartIsInvariant(s);
    RunsKeepInvariant(s, actions);
    hide Runs;
  }

  /** A create that carried a release precondition and succeeded returned a run of a matching release. */
  lemma RepliesArePinned(s: State, actions: seq<Action>, c: nat)
    requires IsStart(s) && Runs(s, actions).Next?
    requires var t := Runs(s, actions).state; c in t.calls && t.calls[c].Done? && t.calls[c].reply.Admitted?
    ensures var call := Runs(s, actions).state.calls[c];
            call.request.expected.Some? ==> Matches(call.request.expected.value, call.reply.run.release)
  {
    StartIsInvariant(s);
    RunsKeepInvariant(s, actions);
    var t := Runs(s, actions).state;
    hide Runs, Matches, WorldOk, Recalls;
    assert CallOk(t.world, t.calls[c]);
  }

  ghost predicate AbortedAt(w: World, id: Identity) { id in w.store.outcomes && !w.store.outcomes[id].admitted }

  lemma AbortedHasNoRun(w: World, id: Identity)
    requires WorldOk(w) && AbortedAt(w, id)
    ensures Find(w.store.runs, id).None?
  {
    hide Find;
    assert RecordOk(w.store, id);
  }

  /** While an identity is aborted, no call gets an answer with a run of it. */
  lemma {:induction false} NoNewAnswer(s: State, actions: seq<Action>, id: Identity, c: nat)
    requires Invariant(s) && Runs(s, actions).Next? && AbortedAt(s.world, id)
    requires var u := Runs(s, actions).state; c in u.calls && Returns(u.calls[c]) && u.calls[c].request.identity == id
    ensures c in s.calls && s.calls[c] == Runs(s, actions).state.calls[c]
    decreases |actions|
  {
    hide Invariant, Step, Find, Recalls;
    if actions != [] {
      var t := Step(s, actions[0]).state;
      StepKeepsInvariant(s, actions[0]);
      NoNewAnswer(t, actions[1..], id, c);
      if !(c in s.calls && s.calls[c].Done?) {
        assert NewAnswer(s, t, t.calls[c]);
        WorldOfInvariant(t);
        AbortedHasNoRun(t.world, id);
      }
    }
  }

  lemma WorldOfInvariant(s: State)
    requires Invariant(s)
    ensures WorldOk(s.world)
  {
    hide WorldOk;
  }

  /**
   An identity that is aborted at some point is aborted ever after: no run of it exists, no call is
   answered with one any more, and none ever was, unless a run without a fingerprint was taken before.
   */
  lemma AbortedStaysAborted(s: State, first: seq<Action>, later: seq<Action>, id: Identity)
    requires IsStart(s) && Runs(s, first).Next?
    requires AbortedAt(Runs(s, first).state.world, id) && Runs(Runs(s, first).state, later).Next?
    ensures var t, u := Runs(s, first).state, Runs(Runs(s, first).state, later).state;
            && AbortedAt(u.world, id) && Find(u.world.store.runs, id).None?
            && (forall c, run, fingerprint | Answered(u, c, id, run, fingerprint) :: Answered(t, c, id, run, fingerprint))
            && (NothingForgotten(u.world, id) ==> forall c, run, fingerprint :: !Answered(u, c, id, run, fingerprint))
  {
    StartIsInvariant(s);
    RunsKeepInvariant(s, first);
    var t := Runs(s, first).state;
    RunsKeepInvariant(t, later);
    var u := Runs(t, later).state;
    WorldOfInvariant(u);
    AbortedHasNoRun(u.world, id);
    forall c, run, fingerprint | Answered(u, c, id, run, fingerprint)
      ensures Answered(t, c, id, run, fingerprint) && !NothingForgotten(u.world, id)
    {
      NoNewAnswer(t, later, id, c);
      hide Runs, Invariant;
      AnsweredThenForgotten(u, c, id, run, fingerprint);
    }
  }

  lemma AnsweredThenForgotten(u: State, c: nat, id: Identity, run: Run, fingerprint: string)
    requires Invariant(u) && AbortedAt(u.world, id) && Answered(u, c, id, run, fingerprint)
    ensures !NothingForgotten(u.world, id)
  {
    AnsweredIsRecalled(u, c, id, run, fingerprint);
    WorldOfInvariant(u);
    AbortedHasNoRun(u.world, id);
    hide Invariant, StoreOk, Find;
    var i :| GoneAt(u.world, i, run);
    assert GoneOk(u.world, i);
  }

  /** An identity that is settled as admitted is not created again, whatever retention takes. */
  lemma {:induction false} SettledIsNotCreated(s: State, actions: seq<Action>, id: Identity, c: nat)
    requires Invariant(s) && Runs(s, actions).Next? && Settled(s.world.store, id)
    requires var u := Runs(s, actions).state; c in u.calls && Fresh(u.calls[c], id)
    ensures c in s.calls && s.calls[c] == Runs(s, actions).state.calls[c]
    decreases |actions|
  {
    hide Invariant, Step, Find, Recalls;
    if actions != [] {
      var t := Step(s, actions[0]).state;
      StepKeepsInvariant(s, actions[0]);
      SettledIsNotCreated(t, actions[1..], id, c);
      if !(c in s.calls && s.calls[c].Done?) {
        FreshWasUnsettled(s, t, c, id);
      }
    }
  }

  lemma FreshWasUnsettled(s: State, t: State, c: nat, id: Identity)
    requires Answers(s, t) && c in t.calls && Fresh(t.calls[c], id) && !(c in s.calls && s.calls[c].Done?)
    ensures !Settled(s.world.store, id)
  {
    hide Find, Settled;
    assert NewAnswer(s, t, t.calls[c]);
  }

  /**
   A probe that said "aborted" stays right: no later answer returns a run. One that said "admitted"
   names the run of every other success, unless a run without a fingerprint was taken.
   */
  lemma ProbesAreFinal(s: State, first: seq<Action>, later: seq<Action>, c: nat)
    requires IsStart(s) && Runs(s, first).Next? && Runs(Runs(s, first).state, later).Next?
    requires var t := Runs(s, first).state; c in t.calls && t.calls[c].Done?
    ensures var t, u := Runs(s, first).state, Runs(Runs(s, first).state, later).state;
            var id := t.calls[c].request.identity;
            && (t.calls[c].reply.ProbedAborted? ==>
                  && Find(u.world.store.runs, id).None?
                  && forall d, run, fingerprint | Answered(u, d, id, run, fingerprint) :: Answered(t, d, id, run, fingerprint))
            && (t.calls[c].reply.ProbedAdmitted? ==>
                  forall d, run, fingerprint | Answered(u, d, id, run, fingerprint) ::
                    (run.fingerprint != "" && t.calls[c].reply.run.fingerprint != "") || NothingForgotten(u.world, id)
                    ==> SameRun(run, t.calls[c].reply.run))
  {
    StartIsInvariant(s);
    RunsKeepInvariant(s, first);
    var t := Runs(s, first).state;
    RunsKeepInvariant(t, later);
    var u := Runs(t, later).state;
    WorldOfInvariant(u);
    var id := t.calls[c].request.identity;
    if t.calls[c].reply.ProbedAborted? {
      ProbedAbortedIsAborted(t, c);
      AbortedStaysAborted(s, first, later, id);
    }
    if t.calls[c].reply.ProbedAdmitted? {
      var p := t.calls[c].reply.run;
      forall d, run, fingerprint | Answered(u, d, id, run, fingerprint) && ((run.fingerprint != "" && p.fingerprint != "") || NothingForgotten(u.world, id))
        ensures SameRun(run, p)
      {
        hide Runs, Invariant, WorldOk, Recalls;
        AnsweredIsRecalled(u, d, id, run, fingerprint);
        AnsweredIsRecalled(u, c, id, p, u.calls[c].reply.fingerprint);
        RecalledOnce(u.world, run, p);
      }
    }
  }

  lemma ProbedAbortedIsAborted(s: State, c: nat)
    requires Invariant(s) && c in s.calls && s.calls[c].Done? && s.calls[c].reply.ProbedAborted?
    ensures AbortedAt(s.world, s.calls[c].request.identity)
  {
    hide WorldOk, Recalls, Matches;
    assert CallOk(s.world, s.calls[c]);
  }

  // ----- Runs without a fingerprint

  /** The store of the start holds a run of the identity that was stored without a fingerprint and without an outcome. */
  ghost predicate HasLegacyRun(s: State, id: Identity, run: Run) {
    IsStart(s) && Find(s.world.store.runs, id) == Some(run) && run.fingerprint == "" && id !in s.world.store.outcomes
  }

  function Plain(id: Identity, fingerprint: string): Request { Request(id, fingerprint, None, "") }

  lemma RunsTwo(s: State, a: Action, b: Action, t: State, u: State)
    requires Step(s, a) == Next(t) && Step(t, b) == Next(u)
    ensures Runs(s, [a, b]) == Next(u)
  {
    assert [a, b][1..] == [b] && [b][1..] == [];
    assert Runs(t, [b]) == Next(u);
    hide Step;
  }

  lemma {:induction false} RunsJoin(s: State, first: seq<Action>, later: seq<Action>)
    requires Runs(s, first).Next?
    ensures Runs(s, first + later) == Runs(Runs(s, first).state, later)
    decreases |first|
  {
    hide Step;
    if first == [] {
      assert first + later == later;
    } else {
      assert (first + later)[1..] == first[1..] + later;
      RunsJoin(Step(s, first[0]).state, first[1..], later);
    }
  }

  /** A create that finds a run without a fingerprint is answered with it, whatever its own. */
  lemma ReplaysLegacy(s: State, c: nat, id: Identity, run: Run, x: string)
    requires c !in s.calls && x != "" && Find(s.world.store.runs, id) == Some(run) && run.fingerprint == ""
    ensures var r := Runs(s, [BeginCreate(c, Plain(id, x)), Lookup(c)]);
            r == Next(s.(calls := s.calls[c := Done(Plain(id, x), Admitted(run, x, true))]))
  {
    hide Find;
    var t := s.(calls := s.calls[c := Creating(Plain(id, x))]);
    var u := s.(calls := s.calls[c := Done(Plain(id, x), Admitted(run, x, true))]);
    assert t.calls[c := Done(Plain(id, x), Admitted(run, x, true))] == u.calls;
    RunsTwo(s, BeginCreate(c, Plain(id, x)), Lookup(c), t, u);
  }

  /**
   The exception is real: wherever a run without a fingerprint is stored, any two requests with its
   identity both succeed, however their fingerprints differ.
   */
  lemma LegacyRunAcceptsBoth(s: State, id: Identity, run: Run, x: string, y: string)
    requires HasLegacyRun(s, id, run) && x != "" && y != ""
    ensures exists actions :: Runs(s, actions).Next? &&
              Answered(Runs(s, actions).state, 0, id, run, x) && Answered(Runs(s, actions).state, 1, id, run, y)
  {
    hide Runs, Step, Find, StoreOk;
    var first, later := [BeginCreate(0, Plain(id, x)), Lookup(0)], [BeginCreate(1, Plain(id, y)), Lookup(1)];
    ReplaysLegacy(s, 0, id, run, x);
    var t := Runs(s, first).state;
    ReplaysLegacy(t, 1, id, run, y);
    RunsJoin(s, first, later);
    var u := Runs(s, first + later).state;
    assert Answered(u, 0, id, run, x) && Answered(u, 1, id, run, y);
  }

  /** What retention leaves of an identity whose run it takes without a fingerprint: nothing. */
  lemma ForgetsLegacy(s: State, id: Identity, run: Run)
    requires StoreOk(s.world.store) && Find(s.world.store.runs, id) == Some(run) && run.fingerprint == "" && id !in s.world.store.outcomes
    ensures var r := Runs(s, [Advance(id, "EXPIRED"), Retain({id})]);
            r.Next? && r.state.calls == s.calls && Find(r.state.world.store.runs, id).None? && id !in r.state.world.store.outcomes
  {
    var t := s.(world := s.world.(store := s.world.store.(runs := MoveRun(s.world.store.runs, id, "EXPIRED"))));
    var u := s.(world := Retained(t.world, {id}));
    RunsTwo(s, Advance(id, "EXPIRED"), Retain({id}), t, u);
    hide Runs, Step;
    FindMoved(s.world.store.runs, id, "EXPIRED", id);
    AdvanceIsOk(s.world.store, id, "EXPIRED");
    UniqueIsDistinct(t.world.store);
    var k := FindIsRun(s.world.store.runs, id);
    hide Find, Without, Taken, Bind, MoveRun, DistinctRuns;
    FindWithout(t.world.store.runs, {id}, id);
    BindAt(t.world.store.runs, t.world.store.outcomes, id);
  }

  lemma CreatesAnew(s: State, c: nat, id: Identity, y: string, release: Release)
    requires c !in s.calls && y != "" && Find(s.world.store.runs, id).None? && id !in s.world.store.outcomes
    ensures var request := Plain(id, y);
            var actions := [BeginCreate(c, request), Lookup(c)] + [PinRelease(c, release), Insert(c)];
            Runs(s, actions).Next? &&
            Runs(s, actions).state.calls == s.calls[c := Done(request, Admitted(NewRun(request, release), y, false))]
  {
    hide Find;
    var request := Plain(id, y);
    var run := NewRun(request, release);
    var s1 := s.(calls := s.calls[c := Creating(request)]);
    var s2 := s.(calls := s.calls[c := Unseen(request)]);
    assert s1.calls[c := Unseen(request)] == s2.calls;
    RunsTwo(s, BeginCreate(c, request), Lookup(c), s1, s2);
    var s3 := s.(calls := s.calls[c := Prepared(request, run)]);
    assert s2.calls[c := Prepared(request, run)] == s3.calls;
    var s4 := State(s.world.(store := Create(s.world.store, run).store), s.calls[c := Done(request, Admitted(run, y, false))]);
    assert s3.calls[c := Done(request, Admitted(run, y, false))] == s4.calls;
    RunsTwo(s2, PinRelease(c, release), Insert(c), s3, s4);
    RunsJoin(s, [BeginCreate(c, request), Lookup(c)], [PinRelease(c, release), Insert(c)]);
  }

  /**
   So is the other one: wherever a run without a fingerprint is stored, retention can take it, and
   then the same identity is answered with a second, different run.
   */
  lemma LegacyRunMayBeForgotten(s: State, id: Identity, run: Run, x: string, y: string, release: Release)
    requires HasLegacyRun(s, id, run) && x != "" && y != ""
    ensures exists actions, other :: Runs(s, actions).Next? && !SameRun(run, other) &&
              Answered(Runs(s, actions).state, 0, id, run, x) && Answered(Runs(s, actions).state, 1, id, other, y)
  {
    hide Runs, Step, Find, StoreOk;
    var request := Plain(id, y);
    var a1, a2 := [BeginCreate(0, Plain(id, x)), Lookup(0)], [Advance(id, "EXPIRED"), Retain({id})];
    var a3 := [BeginCreate(1, request), Lookup(1)] + [PinRelease(1, release), Insert(1)];
    ReplaysLegacy(s, 0, id, run, x);
    var t := Runs(s, a1).state;
    ForgetsLegacy(t, id, run);
    RunsJoin(s, a1, a2);
    var u := Runs(s, a1 + a2).state;
    CreatesAnew(u, 1, id, y, release);
    RunsJoin(s, a1 + a2, a3);
    var v := Runs(s, (a1 + a2) + a3).state;
    assert Answered(v, 0, id, run, x) && Answered(v, 1, id, NewRun(request, release), y);
    assert !SameRun(run, NewRun(request, release));
  }
}
