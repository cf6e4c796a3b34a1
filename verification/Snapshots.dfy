/**
 Catalog snapshots: normalization of stored and legacy ones, the deployments they make effective,
 and merging an imported snapshot.
 */
module Snapshots {
  import opened Options
  import opened Text
  import opened Workspaces
  import opened RoutingPolicies

  const MANIFEST_V2 := "windforce.app-manifest/v2"
  const DEFAULT_TIMEOUT_S := 300

  /** Canonicalization of the opaque interface declarations of one action. */
  datatype Library = Library(canonical: seq<string> -> Option<seq<string>>) {
    ghost predicate Valid() {
      forall x | canonical(x).Some? :: canonical(canonical(x).value) == canonical(x)
    }
  }

  /** The map key "workspace/app", as a pair. */
  datatype Key = Key(workspace: string, app: string)

  datatype Entry = Entry(
    id: string, workspace: string, gitSourceID: string, app: string, commit: string, deploymentID: Option<string>,
    deployment: Deployment, createdAt: Time)

  datatype Candidate = Candidate(deployment: Deployment, syncedAt: Time)

  datatype Audit = Audit(id: string, workspace: string, gitSourceID: string, app: string, kind: string, actor: string, createdAt: Time)

  datatype Marker = Marker(workspace: string, gitSourceID: string, commit: string, releasedAt: Time)

  datatype Snapshot = Snapshot(
    deployments: map<Key, Deployment>, policies: map<Key, Policy>, active: map<Key, string>,
    candidates: map<string, Candidate>, history: seq<Entry>, audit: seq<Audit>, markers: map<Key, Marker>)

  const EMPTY := Snapshot(map[], map[], map[], map[], [], [], map[])

  function KeyOf(d: Deployment): Key { Key(NormalizeWorkspace(d.workspace), d.app) }

  function EntryKey(e: Entry): Key { Key(NormalizeWorkspace(e.workspace), e.app) }

  // ----- Deployments as stored

  function CanonicalAction(lib: Library, a: Action): Option<Action> {
    match a.declarations
    case None => Some(a)
    case Some(declarations) =>
      match lib.canonical(declarations)
      case None => None
      case Some(c) => Some(a.(declarations := Some(c)))
  }

  /** contract.NormalizeDeploymentPublicInterfaces */
  function NormalizeInterfaces(lib: Library, d: Deployment): Option<Deployment> {
    if d.apiVersion == "" then
      if exists k | k in d.actions :: d.actions[k].declarations.Some? then None else Some(d)
    else if d.apiVersion != MANIFEST_V2 then None
    else if exists k | k in d.actions :: CanonicalAction(lib, d.actions[k]).None? then None
    else Some(d.(actions := map k | k in d.actions :: CanonicalAction(lib, d.actions[k]).value))
  }

  function Defaults(d: Deployment): Deployment {
    d.(tag := if d.tag == "" then DEFAULT_ROUTE_TAG else d.tag,
       timeoutS := if d.timeoutS == 0 then DEFAULT_TIMEOUT_S else d.timeoutS,
       scriptLang := if d.scriptLang == "" then "typescript" else d.scriptLang)
  }

  /** normalizeStoredDeployment: canonical when possible, defaults filled in. */
  function Stored(lib: Library, d: Deployment): Deployment {
    match NormalizeInterfaces(lib, d)
    case Some(n) => Defaults(n)
    case None => Defaults(d)
  }

  /** Declarations are accepted from manifests of the second version only, and only canonical ones. */
  lemma InterfacesExactly(lib: Library, d: Deployment)
    ensures NormalizeInterfaces(lib, d).Some? <==>
              && (d.apiVersion == "" || d.apiVersion == "windforce.app-manifest/v2")
              && forall k | k in d.actions && d.actions[k].declarations.Some? ::
                   d.apiVersion != "" && lib.canonical(d.actions[k].declarations.value).Some?
    ensures NormalizeInterfaces(lib, d).Some? ==>
              var n := NormalizeInterfaces(lib, d).value;
              && n == d.(actions := n.actions) && n.actions.Keys == d.actions.Keys
              && forall k | k in d.actions ::
                   n.actions[k] == match d.actions[k].declarations
                                   case None => d.actions[k]
                                   case Some(x) => d.actions[k].(declarations := lib.canonical(x))
  {
    if d.apiVersion == "windforce.app-manifest/v2" {
      forall k | k in d.actions
        ensures CanonicalAction(lib, d.actions[k]).Some? <==> d.actions[k].declarations.None? || lib.canonical(d.actions[k].declarations.value).Some?
      {
      }
    }
  }

  /** Storing makes the interfaces canonical if they can be, fills in three defaults, and changes nothing else. */
  lemma StoredMeans(lib: Library, d: Deployment)
    ensures var s, n := Stored(lib, d), NormalizeInterfaces(lib, d);
            && s.tag == (if d.tag == "" then "default" else d.tag)
            && s.timeoutS == (if d.timeoutS == 0 then 300 else d.timeoutS)
            && s.scriptLang == (if d.scriptLang == "" then "typescript" else d.scriptLang)
            && s.actions == (if n.Some? then n.value.actions else d.actions)
            && s == d.(tag := s.tag, timeoutS := s.timeoutS, scriptLang := s.scriptLang, actions := s.actions)
  {
    InterfacesExactly(lib, d);
    hide NormalizeInterfaces;
  }

  lemma InterfacesTwice(lib: Library, d: Deployment)
    requires lib.Valid() && NormalizeInterfaces(lib, d).Some?
    ensures NormalizeInterfaces(lib, NormalizeInterfaces(lib, d).value) == NormalizeInterfaces(lib, d)
  {
    forall k | k in d.actions && CanonicalAction(lib, d.actions[k]).Some?
      ensures var a := CanonicalAction(lib, d.actions[k]).value; CanonicalAction(lib, a) == Some(a)
    {
    }
    hide CanonicalAction;
    var n := NormalizeInterfaces(lib, d).value;
    if d.apiVersion != "" {
      assert (map k | k in n.actions :: CanonicalAction(lib, n.actions[k]).value) == n.actions;
    }
  }

  lemma InterfacesIgnoreDefaults(lib: Library, d: Deployment)
    ensures NormalizeInterfaces(lib, Defaults(d)) ==
            match NormalizeInterfaces(lib, d) case None => None case Some(n) => Some(Defaults(n))
  {
    hide CanonicalAction;
  }

  lemma StoredTwice(lib: Library, d: Deployment)
    requires lib.Valid()
    ensures Stored(lib, Stored(lib, d)) == Stored(lib, d)
  {
    InterfacesIgnoreDefaults(lib, d);
    if NormalizeInterfaces(lib, d).Some? {
      InterfacesTwice(lib, d);
      InterfacesIgnoreDefaults(lib, NormalizeInterfaces(lib, d).value);
    }
    hide NormalizeInterfaces;
  }

  /** A stored deployment is its own canonical form, if it has one. */
  lemma StoredIsCanonical(lib: Library, d: Deployment)
    requires lib.Valid() && NormalizeInterfaces(lib, Stored(lib, d)).Some?
    ensures NormalizeInterfaces(lib, Stored(lib, d)) == Some(Stored(lib, d))
  {
    InterfacesIgnoreDefaults(lib, d);
    if NormalizeInterfaces(lib, d).Some? {
      InterfacesTwice(lib, d);
      InterfacesIgnoreDefaults(lib, NormalizeInterfaces(lib, d).value);
    }
    hide NormalizeInterfaces;
  }

  lemma InterfacesIgnoreOverrides(lib: Library, d: Deployment)
    ensures NormalizeInterfaces(lib, Stripped(d)) ==
            match NormalizeInterfaces(lib, d) case None => None case Some(n) => Some(Stripped(n))
  {
    forall k | k in d.actions
      ensures CanonicalAction(lib, Stripped(d).actions[k]) ==
              match CanonicalAction(lib, d.actions[k]) case None => None case Some(a) => Some(a.(overrides := NO_OVERRIDES))
    {
    }
    hide CanonicalAction;
    assert Stripped(d).actions.Keys == d.actions.Keys;
    if NormalizeInterfaces(lib, d).Some? && d.apiVersion != "" {
      var n, m := NormalizeInterfaces(lib, d).value, NormalizeInterfaces(lib, Stripped(d)).value;
      assert m.actions == Stripped(n).actions;
    }
  }

  lemma StoredStripped(lib: Library, d: Deployment)
    ensures Stored(lib, Stripped(d)) == Stripped(Stored(lib, d))
  {
    InterfacesIgnoreOverrides(lib, d);
    hide NormalizeInterfaces;
  }

  lemma StrippedTwice(d: Deployment)
    ensures Stripped(Stripped(d)) == Stripped(d)
  {
  }

  lemma StoredKeepsKey(lib: Library, d: Deployment)
    ensures KeyOf(Stored(lib, d)) == KeyOf(d) && Stored(lib, d).app == d.app
    ensures KeyOf(Stripped(d)) == KeyOf(d) && Stripped(d).app == d.app
  {
    hide CanonicalAction;
  }

  // ----- Normalization of a snapshot

  /** A deployment is filed under its own key, unless it names no app. */
  function NormalKey(k: Key, d: Deployment): Key { if d.app == "" then k else KeyOf(d) }

  ghost predicate Collide(m: map<Key, Deployment>, a: Key, b: Key) {
    a in m && b in m && a != b && NormalKey(a, m[a]) == NormalKey(b, m[b])
  }

  /** No two raw keys normalize to one. */
  ghost predicate NoCollision(m: map<Key, Deployment>) { forall a, b :: !Collide(m, a, b) }

  ghost predicate IsRefiled(lib: Library, m: map<Key, Deployment>, r: map<Key, Deployment>) {
    && r.Keys == (set k | k in m :: NormalKey(k, m[k]))
    && forall k | k in m :: NormalKey(k, m[k]) in r && r[NormalKey(k, m[k])] == Stored(lib, m[k])
  }

  ghost function Refiled(lib: Library, m: map<Key, Deployment>): (r: map<Key, Deployment>)
    requires NoCollision(m)
    ensures IsRefiled(lib, m, r)
  {
    hide NormalKey, Stored;
    assert forall a, b | a in m && b in m && NormalKey(a, m[a]) == NormalKey(b, m[b]) :: !Collide(m, a, b);
    map k | k in m :: NormalKey(k, m[k]) := Stored(lib, m[k])
  }

  ghost function StrippedAll(m: map<Key, Deployment>): map<Key, Deployment> { map k | k in m :: Stripped(m[k]) }

  function PolicyAt(policies: map<Key, Policy>, k: Key): Policy { if k in policies then policies[k] else ZERO_POLICY }

  /** The policy of one key after migration: an empty one is not stored. */
  ghost function MigratedPolicy(m: map<Key, Deployment>, policies: map<Key, Policy>, k: Key): Option<Policy> {
    if k in m && !Empty(Extracted(m[k], PolicyAt(policies, k))) then Some(Extracted(m[k], PolicyAt(policies, k)))
    else Lookup(policies, k)
  }

  ghost function MigratedPolicies(m: map<Key, Deployment>, policies: map<Key, Policy>): map<Key, Policy> {
    map k | k in m.Keys + policies.Keys && MigratedPolicy(m, policies, k).Some? :: MigratedPolicy(m, policies, k).value
  }

  predicate Matches(d: Deployment, e: Entry) {
    if d.deploymentID.Some? && e.deploymentID.Some? then
      TrimSpace(d.deploymentID.value) != "" && d.deploymentID == e.deploymentID
    else if d.commit != e.commit then false
    else if d.bundleDigest != "" || e.deployment.bundleDigest != "" then d.bundleDigest == e.deployment.bundleDigest
    else true
  }

  /** Deployment identifiers decide when both sides have one, else the commit and the bundle. */
  lemma MatchesExactly(d: Deployment, e: Entry)
    ensures Matches(d, e) <==>
              if d.deploymentID.Some? && e.deploymentID.Some? then d.deploymentID == e.deploymentID && TrimSpace(d.deploymentID.value) != ""
              else d.commit == e.commit && d.bundleDigest == e.deployment.bundleDigest
  {
    hide TrimSpace;
  }

  /** The newest of the first n entries that was published under the key and matches the deployment. */
  ghost function Newest(history: seq<Entry>, n: nat, k: Key, d: Deployment): Option<string>
    requires n <= |history|
  {
    if n == 0 then None
    else if EntryKey(history[n - 1]) == k && Matches(d, history[n - 1]) then Some(history[n - 1].id)
    else Newest(history, n - 1, k, d)
  }

  ghost predicate Candidates(history: seq<Entry>, i: int, k: Key, d: Deployment) {
    0 <= i < |history| && EntryKey(history[i]) == k && Matches(d, history[i])
  }

  /** It is the last matching one in the history, which is kept oldest first. */
  lemma {:induction false} NewestExactly(history: seq<Entry>, n: nat, k: Key, d: Deployment)
    requires n <= |history|
    ensures match Newest(history, n, k, d)
            case None => forall i | 0 <= i < n :: !Candidates(history, i, k, d)
            case Some(id) => exists i :: i < n && Candidates(history, i, k, d) && history[i].id == id && forall j | i < j < n :: !Candidates(history, j, k, d)
    decreases n
  {
    hide Matches, EntryKey;
    if n > 0 {
      if Candidates(history, n - 1, k, d) {
        assert history[n - 1].id == Newest(history, n, k, d).value;
      } else {
        NewestExactly(history, n - 1, k, d);
      }
    }
  }

  predicate BlankAt(active: map<Key, string>, k: Key) { k !in active || TrimSpace(active[k]) == "" }

  ghost function ActiveAt(m: map<Key, Deployment>, active: map<Key, string>, history: seq<Entry>, k: Key): Option<string> {
    if k in m && BlankAt(active, k) && Newest(history, |history|, k, m[k]).Some? then Newest(history, |history|, k, m[k])
    else Lookup(active, k)
  }

  ghost function Backfilled(m: map<Key, Deployment>, active: map<Key, string>, history: seq<Entry>): map<Key, string> {
    map k | k in m.Keys + active.Keys && ActiveAt(m, active, history, k).Some? :: ActiveAt(m, active, history, k).value
  }

  /**
   A key gets the id of the last entry that its deployment matches when it has a deployment and no id, or
   a blank one; every other id stays.
   */
  lemma BackfillMeans(m: map<Key, Deployment>, active: map<Key, string>, history: seq<Entry>, k: Key)
    ensures var before, after := Lookup(active, k), Lookup(Backfilled(m, active, history), k);
            if k in m && (before.None? || TrimSpace(before.value) == "") && exists i :: Candidates(history, i, k, m[k]) then
              exists i :: Candidates(history, i, k, m[k]) && after == Some(history[i].id) && forall j | i < j < |history| :: !Candidates(history, j, k, m[k])
            else after == before
  {
    hide TrimSpace, Candidates, Newest;
    if k in m {
      NewestExactly(history, |history|, k, m[k]);
      CandidatesAreEntries(history, k, m[k]);
    }
  }

  lemma CandidatesAreEntries(history: seq<Entry>, k: Key, d: Deployment)
    ensures forall i | Candidates(history, i, k, d) :: 0 <= i < |history|
  {
    hide Matches, EntryKey;
  }

  ghost function StoredHistory(lib: Library, history: seq<Entry>): seq<Entry> {
    seq(|history|, i requires 0 <= i < |history| => history[i].(deployment := Stored(lib, history[i].deployment)))
  }

  ghost function StoredCandidates(lib: Library, candidates: map<string, Candidate>): map<string, Candidate> {
    map k | k in candidates :: candidates[k].(deployment := Stored(lib, candidates[k].deployment))
  }

  ghost function Normalized(lib: Library, s: Snapshot): Snapshot
    requires NoCollision(s.deployments)
  {
    var refiled := Refiled(lib, s.deployments);
    var deployments := StrippedAll(refiled);
    var history := StoredHistory(lib, s.history);
    s.(deployments := deployments,
       policies := MigratedPolicies(refiled, s.policies),
       candidates := StoredCandidates(lib, s.candidates),
       history := history,
       active := Backfilled(deployments, s.active, history))
  }

  // ----- Normalization, step by step

  method NormalizeDeploymentMap(lib: Library, m: map<Key, Deployment>) returns (r: map<Key, Deployment>)
    requires NoCollision(m)
    ensures r == Refiled(lib, m)
  {
    hide Stored, NormalKey, Refiled;
    r := map[];
    var keys := m.Keys;
    while keys != {}
      invariant keys <= m.Keys
      invariant r.Keys == (set k | k in m && k !in keys :: NormalKey(k, m[k]))
      invariant forall k | k in m && k !in keys :: r[NormalKey(k, m[k])] == Stored(lib, m[k])
      decreases |keys|
    {
      var k :| k in keys;
      keys := keys - {k};
      var deployment := Stored(lib, m[k]);
      var normalizedKey := NormalKey(k, m[k]);
      forall a | a in m && a != k
        ensures NormalKey(a, m[a]) != normalizedKey
      {
        assert !Collide(m, a, k);
      }
      r := r[normalizedKey := deployment];
    }
    assert IsRefiled(lib, m, r);
    RefiledOnce(lib, m, r, Refiled(lib, m));
  }

  lemma RefiledOnce(lib: Library, m: map<Key, Deployment>, r: map<Key, Deployment>, q: map<Key, Deployment>)
    requires IsRefiled(lib, m, r) && IsRefiled(lib, m, q)
    ensures r == q
  {
    hide NormalKey, Stored;
  }

  lemma SameMaps<K, V>(a: map<K, V>, b: map<K, V>)
    requires forall k :: Lookup(a, k) == Lookup(b, k)
    ensures a == b
  {
    forall k
      ensures k in a <==> k in b
      ensures k in a && k in b ==> a[k] == b[k]
    {
      assert Lookup(a, k) == Lookup(b, k);
    }
  }

  method MigratePolicies(refiled: map<Key, Deployment>, before: map<Key, Policy>)
    returns (deployments: map<Key, Deployment>, policies: map<Key, Policy>)
    ensures deployments == StrippedAll(refiled) && policies == MigratedPolicies(refiled, before)
  {
    hide Stripped, Extracted, Empty, MigratedPolicies, MigratedPolicy, PolicyAt, Lookup;
    deployments, policies := refiled, before;
    forall k | k !in refiled
      ensures MigratedPolicy(refiled, before, k) == Lookup(before, k)
    {
      NotMigrated(refiled, before, k);
    }
    var keys := refiled.Keys;
    while keys != {}
      invariant keys <= refiled.Keys == deployments.Keys
      invariant forall k | k in deployments :: deployments[k] == if k in keys then refiled[k] else Stripped(refiled[k])
      invariant forall k :: Lookup(policies, k) == if k in keys then Lookup(before, k) else MigratedPolicy(refiled, before, k)
      decreases |keys|
    {
      var k :| k in keys;
      keys := keys - {k};
      var stripped;
      stripped, policies := MigrateOne(refiled, before, policies, k);
      deployments := deployments[k := stripped];
    }
    forall k
      ensures Lookup(policies, k) == Lookup(MigratedPolicies(refiled, before), k)
    {
      MigratedAt(refiled, before, k);
    }
    SameMaps(policies, MigratedPolicies(refiled, before));
  }

  lemma NotMigrated(m: map<Key, Deployment>, policies: map<Key, Policy>, k: Key)
    requires k !in m
    ensures MigratedPolicy(m, policies, k) == Lookup(policies, k)
  {
  }

  method MigrateOne(refiled: map<Key, Deployment>, ghost before: map<Key, Policy>, policies: map<Key, Policy>, k: Key)
    returns (stripped: Deployment, r: map<Key, Policy>)
    requires k in refiled && Lookup(policies, k) == Lookup(before, k)
    ensures stripped == Stripped(refiled[k]) && Lookup(r, k) == MigratedPolicy(refiled, before, k)
    ensures forall j | j != k :: Lookup(r, j) == Lookup(policies, j)
  {
    hide Stripped, Extracted, Empty;
    r := policies;
    var policy;
    stripped, policy := ExtractEmbeddedRoutingPolicy(refiled[k], PolicyAt(policies, k));
    if !Empty(policy) {
      r := r[k := policy];
    }
  }

  lemma MigratedAt(m: map<Key, Deployment>, policies: map<Key, Policy>, k: Key)
    ensures Lookup(MigratedPolicies(m, policies), k) == MigratedPolicy(m, policies, k)
  {
    hide Extracted, Empty;
  }

  method BackfillActiveHistoryIDs(m: map<Key, Deployment>, before: map<Key, string>, history: seq<Entry>) returns (active: map<Key, string>)
    ensures active == Backfilled(m, before, history)
  {
    hide Matches, EntryKey, Backfilled;
    active := before;
    var keys := m.Keys;
    while keys != {}
      invariant keys <= m.Keys
      invariant forall k :: Lookup(active, k) == if k in keys then Lookup(before, k) else ActiveAt(m, before, history, k)
      decreases |keys|
    {
      var k :| k in keys;
      keys := keys - {k};
      assert Lookup(active, k) == Lookup(before, k);
      assert BlankAt(active, k) == BlankAt(before, k);
      if !BlankAt(active, k) {
        continue;
      }
      var found := FindNewest(history, k, m[k]);
      if found.Some? {
        active := active[k := found.value];
      }
    }
    forall k
      ensures Lookup(active, k) == Lookup(Backfilled(m, before, history), k)
    {
      BackfilledAt(m, before, history, k);
    }
    SameMaps(active, Backfilled(m, before, history));
  }

  method FindNewest(history: seq<Entry>, k: Key, d: Deployment) returns (found: Option<string>)
    ensures found == Newest(history, |history|, k, d)
  {
    hide Matches, EntryKey;
    var index := |history|;
    while index > 0
      invariant 0 <= index <= |history|
      invariant Newest(history, |history|, k, d) == Newest(history, index, k, d)
    {
      index := index - 1;
      var entry := history[index];
      if EntryKey(entry) != k {
        continue;
      }
      if Matches(d, entry) {
        return Some(entry.id);
      }
    }
    return None;
  }

  lemma BackfilledAt(m: map<Key, Deployment>, active: map<Key, string>, history: seq<Entry>, k: Key)
    ensures Lookup(Backfilled(m, active, history), k) == ActiveAt(m, active, history, k)
  {
    hide Newest, BlankAt;
  }

  method NormalizeHistory(lib: Library, before: seq<Entry>) returns (history: seq<Entry>)
    ensures history == StoredHistory(lib, before)
  {
    hide Stored;
    history := before;
    for index := 0 to |history|
      invariant |history| == |before|
      invariant forall i | 0 <= i < |before| :: history[i] == if i < index then StoredHistory(lib, before)[i] else before[i]
    {
      history := history[index := history[index].(deployment := Stored(lib, history[index].deployment))];
    }
  }

  method NormalizeCandidates(lib: Library, before: map<string, Candidate>) returns (candidates: map<string, Candidate>)
    ensures candidates == StoredCandidates(lib, before)
  {
    hide Stored;
    candidates := before;
    var keys := before.Keys;
    while keys != {}
      invariant keys <= before.Keys == candidates.Keys
      invariant forall k | k in before :: candidates[k] == if k in keys then before[k] else StoredCandidates(lib, before)[k]
      decreases |keys|
    {
      var k :| k in keys;
      keys := keys - {k};
      candidates := candidates[k := candidates[k].(deployment := Stored(lib, candidates[k].deployment))];
    }
  }

  method NormalizeSnapshot(lib: Library, s: Snapshot) returns (r: Snapshot)
    requires NoCollision(s.deployments)
    ensures r == Normalized(lib, s)
  {
    hide Stored, NormalKey, StrippedAll, MigratedPolicies, Backfilled, StoredHistory, StoredCandidates, Refiled;
    var refiled := NormalizeDeploymentMap(lib, s.deployments);
    var deployments, policies := MigratePolicies(refiled, s.policies);
    var candidates := NormalizeCandidates(lib, s.candidates);
    var history := NormalizeHistory(lib, s.history);
    var active := BackfillActiveHistoryIDs(deployments, s.active, history);
    r := s.(deployments := deployments, policies := policies, candidates := candidates, history := history, active := active);
  }
}
