/**
 The durable side of idempotent admission: runs, admission outcomes, and the atomic operations on
 them, with the release precondition a request may carry.
 */
module AdmissionStores {
  import opened Options
  import opened Text

  // ----- Identity

  /** Workspace, principal scope and idempotency key. */
  datatype Identity = Identity(workspace: string, scope: string, key: string)

  /** The bytes that deterministicRunID hashes. */
  function IdentityPreimage(id: Identity): string { id.workspace + ['\0'] + id.scope + ['\0'] + id.key }

  predicate Separable(id: Identity) { '\0' !in id.workspace && '\0' !in id.scope }

  lemma FirstZero(a: string, x: string, b: string, y: string)
    requires '\0' !in a && '\0' !in b && a + ['\0'] + x == b + ['\0'] + y
    ensures a == b && x == y
  {
    var s, t := a + ['\0'] + x, b + ['\0'] + y;
    assert s[|a|] == '\0' && t[|b|] == '\0';
    assert forall i | 0 <= i < |a| :: s[i] == a[i];
    assert forall i | 0 <= i < |b| :: t[i] == b[i];
    assert |a| == |b|;
    assert s[..|a|] == a && t[..|b|] == b;
    assert s[|a| + 1..] == x && t[|b| + 1..] == y;
  }

  /** Identities whose workspace and scope hold no zero character have different pre-images. */
  lemma IdentityInjective(a: Identity, b: Identity)
    requires Separable(a) && Separable(b)
    ensures IdentityPreimage(a) == IdentityPreimage(b) <==> a == b
  {
    if IdentityPreimage(a) == IdentityPreimage(b) {
      var x, y := a.scope + ['\0'] + a.key, b.scope + ['\0'] + b.key;
      assert IdentityPreimage(a) == a.workspace + ['\0'] + x;
      assert IdentityPreimage(b) == b.workspace + ['\0'] + y;
      FirstZero(a.workspace, x, b.workspace, y);
      FirstZero(a.scope, a.key, b.scope, b.key);
    }
  }

  /** Some other identity has the same pre-image. */
  ghost predicate Shared(id: Identity) {
    exists other :: other != id && IdentityPreimage(other) == IdentityPreimage(id)
  }

  lemma CutAtZero(s: string) returns (i: nat)
    requires '\0' in s
    ensures i < |s| && s == s[..i] + ['\0'] + s[i + 1..]
  {
    i :| 0 <= i < |s| && s[i] == '\0';
  }

  lemma BorderMoves(w: string, a: string, b: string, k: string)
    ensures IdentityPreimage(Identity(w, a + ['\0'] + b, k)) == IdentityPreimage(Identity(w, a, b + ['\0'] + k))
    ensures IdentityPreimage(Identity(a + ['\0'] + b, w, k)) == IdentityPreimage(Identity(a, b + ['\0'] + w, k))
  {
  }

  lemma OtherShares(id: Identity, other: Identity)
    requires other.workspace != id.workspace || |other.scope| != |id.scope|
    requires IdentityPreimage(other) == IdentityPreimage(id)
    ensures Shared(id)
  {
    hide IdentityPreimage;
  }

  /** A zero character in a component passes for a border, so the identity is not alone. */
  lemma ZeroShares(id: Identity)
    requires '\0' in id.workspace || '\0' in id.scope || '\0' in id.key
    ensures Shared(id)
  {
    hide IdentityPreimage, Shared;
    var w, s, k := id.workspace, id.scope, id.key;
    if '\0' in w {
      var i := CutAtZero(w);
      BorderMoves(s, w[..i], w[i + 1..], k);
      OtherShares(id, Identity(w[..i], w[i + 1..] + ['\0'] + s, k));
    } else if '\0' in s {
      var i := CutAtZero(s);
      BorderMoves(w, s[..i], s[i + 1..], k);
      OtherShares(id, Identity(w, s[..i], s[i + 1..] + ['\0'] + k));
    } else {
      var i := CutAtZero(k);
      BorderMoves(w, s, k[..i], k[i + 1..]);
      OtherShares(id, Identity(w, s + ['\0'] + k[..i], k[i + 1..]));
    }
  }

  predicate ZeroFree(id: Identity) { Separable(id) && '\0' !in id.key }

  /** A pre-image belongs to one identity only exactly when no component holds a zero character. */
  lemma PreimageIsUniqueExactly(id: Identity)
    ensures !Shared(id) <==> ZeroFree(id)
  {
    if !ZeroFree(id) {
      ZeroShares(id);
    } else if Shared(id) {
      var other :| other != id && IdentityPreimage(other) == IdentityPreimage(id);
      ZerosCount(other, id);
      IdentityInjective(other, id);
    }
  }

  ghost function Zeros(s: string): nat { multiset(s)['\0'] }

  /** The pre-image of a zero-free identity has two zeros, so any identity that shares it is separable too. */
  lemma ZerosCount(other: Identity, id: Identity)
    requires ZeroFree(id) && IdentityPreimage(other) == IdentityPreimage(id)
    ensures Separable(other)
  {
    ZerosOf(other);
    ZerosOf(id);
    NoZeros(id.workspace);
    NoZeros(id.scope);
    NoZeros(id.key);
    NoZeros(other.workspace);
    NoZeros(other.scope);
  }

  lemma NoZeros(s: string)
    ensures Zeros(s) == 0 <==> '\0' !in s
  {
  }

  lemma ZerosOf(id: Identity)
    ensures Zeros(IdentityPreimage(id)) == Zeros(id.workspace) + Zeros(id.scope) + Zeros(id.key) + 2
  {
    assert multiset(IdentityPreimage(id)) == multiset(id.workspace) + multiset(['\0']) + multiset(id.scope) + multiset(['\0']) + multiset(id.key);
    assert multiset(['\0'])['\0'] == 1;
  }

  // ----- Release preconditions

  datatype Release = Release(deploymentID: Option<string>, commit: string, bundleDigest: string)

  datatype Precondition = Precondition(deploymentID: string, commit: string, bundleDigest: string)

  function NormalizePrecondition(p: Precondition): Option<Precondition> {
    var n := Precondition(TrimSpace(p.deploymentID), TrimSpace(p.commit), TrimSpace(p.bundleDigest));
    if n.commit == "" || n.bundleDigest == "" then None else Some(n)
  }

  predicate Matches(p: Precondition, release: Release) {
    if TrimSpace(release.commit) != p.commit || TrimSpace(release.bundleDigest) != p.bundleDigest then false
    else if p.deploymentID == "" then true
    else release.deploymentID.Some? && TrimSpace(release.deploymentID.value) == p.deploymentID
  }

  /** A normalized precondition always pins a commit and a bundle. */
  lemma MatchPinsRelease(p: Precondition, a: Release, b: Release)
    requires NormalizePrecondition(p).Some?
    requires var n := NormalizePrecondition(p).value; Matches(n, a) && Matches(n, b)
    ensures TrimSpace(a.commit) == TrimSpace(b.commit) != "" && TrimSpace(a.bundleDigest) == TrimSpace(b.bundleDigest) != ""
  {
    hide TrimSpace;
  }

  // ----- The store

  datatype Run = Run(identity: Identity, fingerprint: string, release: Release, clientID: string, state: string)

  datatype Record = Record(admitted: bool, fingerprint: string)

  /** Runs in the order of their creation, and one outcome per identity. */
  datatype Store = Store(runs: seq<Run>, outcomes: map<Identity, Record>)

  function Find(runs: seq<Run>, id: Identity): Option<Run> {
    if runs == [] then None
    else if runs[0].identity == id then Some(runs[0])
    else Find(runs[1..], id)
  }

  datatype Creation = Created(store: Store) | AbortedBefore | Conflicted

  /** CreateRunAndEnqueue: the outcome is bound first, then the run is inserted, or nothing changes. */
  function Create(s: Store, run: Run): Creation {
    if run.identity in s.outcomes then
      var existing := s.outcomes[run.identity];
      if existing.fingerprint != run.fingerprint then Conflicted
      else if !existing.admitted then AbortedBefore
      else Conflicted
    else if Find(s.runs, run.identity).Some? then Conflicted
    else Created(Store(s.runs + [run], s.outcomes[run.identity := Record(true, run.fingerprint)]))
  }

  datatype Resolution = Resolved(store: Store, record: Record) | Differs

  /** ResolveAdmissionOutcome: a settled outcome is returned; an unsettled identity becomes admitted or aborted for good. */
  function Resolve(s: Store, id: Identity, fingerprint: string): Resolution {
    if id in s.outcomes then
      if s.outcomes[id].fingerprint != fingerprint then Differs else Resolved(s, s.outcomes[id])
    else
      match Find(s.runs, id)
      case Some(run) =>
        if run.fingerprint != fingerprint then Differs
        else Resolved(s.(outcomes := s.outcomes[id := Record(true, fingerprint)]), Record(true, fingerprint))
      case None =>
        Resolved(s.(outcomes := s.outcomes[id := Record(false, fingerprint)]), Record(false, fingerprint))
  }

  // ----- Retention

  /** TerminalRunState */
  predicate Terminal(state: string) { state in {"SUCCEEDED", "FAILED", "CANCELED", "EXPIRED"} }

  /** Loading the state binds an outcome to every run that has a fingerprint and no outcome yet. */
  function Bind(runs: seq<Run>, outcomes: map<Identity, Record>): map<Identity, Record> {
    if runs == [] then outcomes
    else
      var run := runs[0];
      Bind(runs[1..], if run.fingerprint != "" && run.identity !in outcomes then outcomes[run.identity := Record(true, run.fingerprint)] else outcomes)
  }

  predicate Drops(ids: set<Identity>, run: Run) { run.identity in ids && Terminal(run.state) }

  function Without(runs: seq<Run>, ids: set<Identity>): seq<Run> {
    if runs == [] then []
    else (if Drops(ids, runs[0]) then [] else [runs[0]]) + Without(runs[1..], ids)
  }

  function Taken(runs: seq<Run>, ids: set<Identity>): seq<Run> {
    if runs == [] then []
    else (if Drops(ids, runs[0]) then [runs[0]] else []) + Taken(runs[1..], ids)
  }

  /** PruneSettledJobs: of the runs past their retention the settled ones go; outcomes outlive them. */
  function Prune(s: Store, ids: set<Identity>): Store {
    Store(Without(s.runs, ids), Bind(s.runs, s.outcomes))
  }

  class LocalStore {
    var runs: seq<Run>
    var outcomes: map<Identity, Record>

    constructor ()
      ensures Contents() == Store([], map[])
    {
      runs, outcomes := [], map[];
    }

    ghost function Contents(): Store
      reads this
    {
      Store(runs, outcomes)
    }

    method GetRun(id: Identity) returns (found: Option<Run>)
      ensures found == Find(runs, id)
    {
      var i := 0;
      assert runs[0..] == runs;
      while i < |runs|
        invariant 0 <= i <= |runs| && Find(runs, id) == Find(runs[i..], id)
      {
        if runs[i].identity == id {
          return Some(runs[i]);
        }
        assert runs[i..][1..] == runs[i + 1..];
        i := i + 1;
      }
      return None;
    }

    method CreateRunAndEnqueue(run: Run) returns (r: Creation)
      modifies this
      ensures r == Create(old(Contents()), run)
      ensures Contents() == if r.Created? then r.store else old(Contents())
    {
      if run.identity in outcomes {
        var existing := outcomes[run.identity];
        if existing.fingerprint != run.fingerprint {
          return Conflicted;
        }
        if !existing.admitted {
          return AbortedBefore;
        }
        return Conflicted;
      }
      var found := GetRun(run.identity);
      if found.Some? {
        return Conflicted;
      }
      outcomes := outcomes[run.identity := Record(true, run.fingerprint)];
      runs := runs + [run];
      return Created(Store(runs, outcomes));
    }

    method ResolveAdmissionOutcome(id: Identity, fingerprint: string) returns (r: Option<Record>)
      modifies this
      ensures var resolved := Resolve(old(Contents()), id, fingerprint);
              && Contents() == (if resolved.Resolved? then resolved.store else old(Contents()))
              && r == (if resolved.Resolved? then Some(resolved.record) else None)
    {
      if id in outcomes {
        if outcomes[id].fingerprint != fingerprint {
          return None;
        }
        return Some(outcomes[id]);
      }
      var found := GetRun(id);
      var record;
      if found.Some? {
        if found.value.fingerprint != fingerprint {
          return None;
        }
        record := Record(true, fingerprint);
      } else {
        record := Record(false, fingerprint);
      }
      outcomes := outcomes[id := record];
      return Some(record);
    }

    method BindOutcomes()
      modifies this`outcomes
      ensures outcomes == Bind(runs, old(outcomes))
    {
      assert runs[0..] == runs;
      for i := 0 to |runs|
        invariant Bind(runs[i..], outcomes) == Bind(runs, old(outcomes))
      {
        assert runs[i..][0] == runs[i] && runs[i..][1..] == runs[i + 1..];
        if runs[i].fingerprint != "" && runs[i].identity !in outcomes {
          outcomes := outcomes[runs[i].identity := Record(true, runs[i].fingerprint)];
        }
      }
    }

    method PruneSettledRuns(expired: set<Identity>)
      modifies this
      ensures Contents() == Prune(old(Contents()), expired)
    {
      BindOutcomes();
      var kept := KeepRuns(expired);
      runs := kept;
    }

    method KeepRuns(expired: set<Identity>) returns (kept: seq<Run>)
      ensures kept == Without(runs, expired)
    {
      hide Terminal;
      kept := [];
      assert runs[0..] == runs;
      for i := 0 to |runs|
        invariant kept + Without(runs[i..], expired) == Without(runs, expired)
      {
        var run := runs[i];
        assert runs[i..][0] == run && runs[i..][1..] == runs[i + 1..];
        KeepNext(kept, run, Without(runs[i + 1..], expired));
        if !(run.identity in expired && Terminal(run.state)) {
          kept := kept + [run];
        }
      }
    }
  }

  lemma KeepNext(kept: seq<Run>, run: Run, rest: seq<Run>)
    ensures kept + ([run] + rest) == (kept + [run]) + rest && kept + ([] + rest) == kept + rest
  {
  }

  // ----- Facts about the store

  ghost predicate RunAt(s: Store, i: int, id: Identity) { 0 <= i < |s.runs| && s.runs[i].identity == id }

  ghost predicate UniqueRuns(s: Store) {
    forall i, j, id | RunAt(s, i, id) && RunAt(s, j, id) :: i == j
  }

  ghost predicate RecordOk(s: Store, id: Identity)
    requires id in s.outcomes
  {
    var found := Find(s.runs, id);
    found.Some? ==> s.outcomes[id] == Record(true, found.value.fingerprint)
  }

  /** One run per identity; a run that has an outcome is admitted under its fingerprint, so an aborted identity has no run. */
  ghost predicate StoreOk(s: Store) {
    UniqueRuns(s) && forall id | id in s.outcomes :: RecordOk(s, id)
  }

  lemma {:induction false} FindIsRun(runs: seq<Run>, id: Identity) returns (i: nat)
    requires Find(runs, id).Some?
    ensures i < |runs| && runs[i] == Find(runs, id).value && runs[i].identity == id
  {
    if runs[0].identity == id {
      i := 0;
    } else {
      i := FindIsRun(runs[1..], id);
      i := i + 1;
    }
  }

  lemma {:induction false} FindNothing(runs: seq<Run>, id: Identity, i: nat)
    requires i < |runs| && runs[i].identity == id
    ensures Find(runs, id).Some?
  {
    if i > 0 && runs[0].identity != id {
      assert runs[1..][i - 1] == runs[i];
      FindNothing(runs[1..], id, i - 1);
    }
  }

  lemma {:induction false} FindSnoc(runs: seq<Run>, run: Run, id: Identity)
    ensures Find(runs + [run], id) ==
            if Find(runs, id).Some? then Find(runs, id) else if run.identity == id then Some(run) else None
  {
    if runs == [] {
      assert [] + [run] == [run];
      assert Find([run][1..], id) == None;
    } else {
      assert (runs + [run])[1..] == runs[1..] + [run];
      FindSnoc(runs[1..], run, id);
    }
  }

  lemma CreateIsOk(s: Store, run: Run)
    requires StoreOk(s) && Create(s, run).Created?
    ensures StoreOk(Create(s, run).store) && Find(Create(s, run).store.runs, run.identity) == Some(run)
  {
    var t := Create(s, run).store;
    forall id | id in t.outcomes
      ensures RecordOk(t, id)
    {
      FindSnoc(s.runs, run, id);
      if id != run.identity {
        assert RecordOk(s, id);
      }
    }
    FindSnoc(s.runs, run, run.identity);
    forall i, j, id | RunAt(t, i, id) && RunAt(t, j, id)
      ensures i == j
    {
      if i < |s.runs| && j < |s.runs| {
        assert RunAt(s, i, id) && RunAt(s, j, id);
      } else if i < |s.runs| {
        FindNothing(s.runs, id, i);
      } else if j < |s.runs| {
        FindNothing(s.runs, id, j);
      }
    }
  }

  lemma ResolveIsOk(s: Store, id: Identity, fingerprint: string)
    requires StoreOk(s) && Resolve(s, id, fingerprint).Resolved?
    ensures StoreOk(Resolve(s, id, fingerprint).store)
  {
    var t := Resolve(s, id, fingerprint).store;
    forall j | j in t.outcomes
      ensures RecordOk(t, j)
    {
      if j in s.outcomes {
        assert RecordOk(s, j);
      }
    }
    forall i, j, k | RunAt(t, i, k) && RunAt(t, j, k)
      ensures i == j
    {
      assert RunAt(s, i, k) && RunAt(s, j, k);
    }
  }

  ghost predicate DistinctRuns(runs: seq<Run>) {
    forall i, j | 0 <= i < j < |runs| :: runs[i].identity != runs[j].identity
  }

  lemma SameIdentitySameRun(s: Store, i: nat, j: nat)
    requires UniqueRuns(s) && i < |s.runs| && j < |s.runs| && s.runs[i].identity == s.runs[j].identity
    ensures i == j
  {
    assert RunAt(s, i, s.runs[i].identity) && RunAt(s, j, s.runs[i].identity);
  }

  lemma UniqueIsDistinct(s: Store)
    ensures UniqueRuns(s) <==> DistinctRuns(s.runs)
  {
    if UniqueRuns(s) {
      forall i, j | 0 <= i < j < |s.runs|
        ensures s.runs[i].identity != s.runs[j].identity
      {
        if s.runs[i].identity == s.runs[j].identity {
          SameIdentitySameRun(s, i, j);
        }
      }
    }
  }

  lemma {:induction false} WithoutHolds(runs: seq<Run>, ids: set<Identity>, run: Run)
    ensures run in Without(runs, ids) <==> run in runs && !Drops(ids, run)
    ensures run in Taken(runs, ids) <==> run in runs && Drops(ids, run)
  {
    if runs != [] {
      WithoutHolds(runs[1..], ids, run);
      assert runs == [runs[0]] + runs[1..];
    }
  }

  lemma {:induction false} WithoutIsDistinct(runs: seq<Run>, ids: set<Identity>)
    requires DistinctRuns(runs)
    ensures DistinctRuns(Without(runs, ids)) && DistinctRuns(Taken(runs, ids))
  {
    if runs != [] {
      WithoutIsDistinct(runs[1..], ids);
      forall r | r in Without(runs[1..], ids) || r in Taken(runs[1..], ids)
        ensures r.identity != runs[0].identity
      {
        WithoutHolds(runs[1..], ids, r);
        var j :| 0 <= j < |runs[1..]| && runs[1..][j] == r;
        assert runs[j + 1] == r;
      }
    }
  }

  lemma {:induction false} FindWithout(runs: seq<Run>, ids: set<Identity>, id: Identity)
    requires DistinctRuns(runs)
    ensures var found := Find(runs, id);
            Find(Without(runs, ids), id) == if found.Some? && !Drops(ids, found.value) then found else None
  {
    var kept := Without(runs, ids);
    WithoutIsDistinct(runs, ids);
    if Find(kept, id).Some? {
      var i := FindIsRun(kept, id);
      assert kept[i] in kept;
      WithoutHolds(runs, ids, kept[i]);
      var j :| 0 <= j < |runs| && runs[j] == kept[i];
      FindNothing(runs, id, j);
      var k := FindIsRun(runs, id);
    } else if Find(runs, id).Some? {
      var k := FindIsRun(runs, id);
      WithoutHolds(runs, ids, runs[k]);
      if runs[k] in kept {
        var i :| 0 <= i < |kept| && kept[i] == runs[k];
        FindNothing(kept, id, i);
      }
    }
  }

  lemma HeadIsDistinct(runs: seq<Run>)
    requires DistinctRuns(runs) && runs != []
    ensures Find(runs[1..], runs[0].identity).None?
  {
    if Find(runs[1..], runs[0].identity).Some? {
      var j := FindIsRun(runs[1..], runs[0].identity);
      assert false;
    }
  }

  /** Binding keeps every outcome, and adds one for the run of each identity that has a fingerprint. */
  lemma {:induction false} BindAt(runs: seq<Run>, outcomes: map<Identity, Record>, id: Identity)
    requires DistinctRuns(runs)
    ensures var bound := Bind(runs, outcomes);
            && (id in outcomes ==> id in bound && bound[id] == outcomes[id])
            && (id !in outcomes ==>
                  if Find(runs, id).Some? && Find(runs, id).value.fingerprint != ""
                  then id in bound && bound[id] == Record(true, Find(runs, id).value.fingerprint)
                  else id !in bound)
  {
    if runs != [] {
      var run := runs[0];
      BindAt(runs[1..], if run.fingerprint != "" && run.identity !in outcomes then outcomes[run.identity := Record(true, run.fingerprint)] else outcomes, id);
      HeadIsDistinct(runs);
    }
  }

  /** What goes is exactly the expired runs that have come to an end in one of the four ways. */
  lemma PrunedExactly(s: Store, ids: set<Identity>, run: Run)
    ensures run in Prune(s, ids).runs <==>
              run in s.runs && !(run.identity in ids && (run.state == "SUCCEEDED" || run.state == "FAILED" || run.state == "CANCELED" || run.state == "EXPIRED"))
  {
    WithoutHolds(s.runs, ids, run);
  }

  /** Pruning keeps the store in order. */
  lemma PruneIsOk(s: Store, ids: set<Identity>)
    requires StoreOk(s)
    ensures StoreOk(Prune(s, ids))
  {
    var t := Prune(s, ids);
    UniqueIsDistinct(s);
    UniqueIsDistinct(t);
    WithoutIsDistinct(s.runs, ids);
    hide Find, Without, Bind;
    forall id | id in t.outcomes
      ensures RecordOk(t, id)
    {
      FindWithout(s.runs, ids, id);
      BindAt(s.runs, s.outcomes, id);
      if id in s.outcomes {
        assert RecordOk(s, id);
      }
    }
  }
}
