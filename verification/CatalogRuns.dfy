/**
 The release catalog as a state machine: publishing, rolling back, placing and importing, and what
 every run of them keeps.
 */
module CatalogRuns {
  import opened Options
  import Text
  import opened Workspaces
  import opened RoutingPolicies
  import opened Snapshots
  import opened CatalogMigration
  import opened CatalogImports

  const DEFAULT_GIT_SOURCE := "default"

  datatype Rollback = Rollback(workspace: string, app: string, releaseID: string, actor: string, reason: string, at: Time)

  datatype Event =
    | Publish(deployment: Deployment, at: Time, id: string)
    | Revert(request: Rollback, auditID: string)
    | PlaceInitially(workspace: string, app: string, patch: Patch, now: Time)
    | PlaceApp(workspace: string, app: string, patch: Patch, now: Time, auditID: string)
    | PlaceAction(workspace: string, app: string, action: string, patch: Patch, now: Time, auditID: string)
    | Import(snapshot: Snapshot)

  // ----- Publication

  function GitSourceOf(value: string, app: string): string {
    if Text.TrimSpace(value) != "" then Text.TrimSpace(value)
    else if Text.TrimSpace(app) != "" then Text.TrimSpace(app)
    else DEFAULT_GIT_SOURCE
  }

  function Dated(d: Deployment, at: Time): Deployment {
    d.(updatedAt := if d.updatedAt.None? then Some(at) else d.updatedAt,
       actions := map k | k in d.actions :: if d.actions[k].updatedAt.None? then d.actions[k].(updatedAt := Some(at)) else d.actions[k])
  }

  /** The release that a publication pins: canonical, with defaults, without overrides, dated. */
  function Prepared(lib: Library, d: Deployment, at: Time): Option<Deployment> {
    match NormalizeInterfaces(lib, d)
    case None => None
    case Some(n) => Some(Dated(Stripped(Defaults(n)), at))
  }

  function NewEntry(d: Deployment, at: Time, id: string): Entry {
    Entry(id, NormalizeWorkspace(d.workspace), GitSourceOf(d.gitSourceID, d.app), d.app, d.commit, d.deploymentID, d, at)
  }

  function Published(s: Snapshot, d: Deployment, at: Time, id: string): Snapshot {
    var key, entry := KeyOf(d), NewEntry(d, at, id);
    s.(deployments := s.deployments[key := d],
       active := s.active[key := id],
       history := s.history + [entry],
       audit := s.audit + [Audit(id, entry.workspace, entry.gitSourceID, entry.app, "release_published", "system", at)],
       markers := s.markers[Key(entry.workspace, entry.gitSourceID) := Marker(entry.workspace, entry.gitSourceID, d.commit, at)])
  }

  // ----- Rollback

  /** The first entry from `from` on that was released under the key with the id. */
  ghost function Release(history: seq<Entry>, key: Key, id: string, from: nat): Option<Entry>
    decreases |history| - from
  {
    if from >= |history| then None
    else if EntryKey(history[from]) == key && history[from].id == id then Some(history[from])
    else Release(history, key, id, from + 1)
  }

  method FindRelease(history: seq<Entry>, workspace: string, app: string, releaseID: string) returns (found: Option<Entry>)
    ensures found == Release(history, Key(NormalizeWorkspace(workspace), Text.TrimSpace(app)), Text.TrimSpace(releaseID), 0)
  {
    hide NormalizeWorkspace, Text.TrimSpace;
    var key, id := Key(NormalizeWorkspace(workspace), Text.TrimSpace(app)), Text.TrimSpace(releaseID);
    for i := 0 to |history|
      invariant Release(history, key, id, 0) == Release(history, key, id, i)
    {
      if EntryKey(history[i]) == key && history[i].id == id {
        return Some(history[i]);
      }
    }
    return None;
  }

  lemma {:induction false} ReleaseIsEntry(history: seq<Entry>, key: Key, id: string, from: nat) returns (i: nat)
    requires Release(history, key, id, from).Some?
    ensures from <= i < |history| && Release(history, key, id, from) == Some(history[i])
    ensures EntryKey(history[i]) == key && history[i].id == id
    decreases |history| - from
  {
    if EntryKey(history[from]) == key && history[from].id == id {
      i := from;
    } else {
      i := ReleaseIsEntry(history, key, id, from + 1);
    }
  }

  function PreparedRollback(r: Rollback): Option<Rollback> {
    var p := Rollback(NormalizeWorkspace(r.workspace), Text.TrimSpace(r.app), Text.TrimSpace(r.releaseID),
                      Text.TrimSpace(r.actor), Text.TrimSpace(r.reason), r.at);
    if p.app == "" || p.releaseID == "" || p.actor == "" || p.reason == "" then None else Some(p)
  }

  function SwitchedTo(s: Snapshot, target: Entry, r: Rollback, auditID: string): Snapshot {
    var key := Key(NormalizeWorkspace(r.workspace), r.app);
    var source := if Text.TrimSpace(target.gitSourceID) != "" then Text.TrimSpace(target.gitSourceID)
                  else Text.TrimSpace(GitSourceOf(target.deployment.gitSourceID, target.deployment.app));
    s.(deployments := s.deployments[key := Applied(target.deployment, ZERO_POLICY)],
       active := s.active[key := target.id],
       audit := s.audit + [Audit(auditID, r.workspace, source, r.app, "release_rolled_back", r.actor, r.at)],
       markers := s.markers[Key(NormalizeWorkspace(r.workspace), source) := Marker(r.workspace, source, target.commit, r.at)])
  }

  ghost function RolledBack(s: Snapshot, request: Rollback, auditID: string): Option<Snapshot> {
    match PreparedRollback(request)
    case None => None
    case Some(r) =>
      var key := Key(NormalizeWorkspace(r.workspace), Text.TrimSpace(r.app));
      match Release(s.history, key, Text.TrimSpace(r.releaseID), 0)
      case None => None
      case Some(target) =>
        if Lookup(s.active, Key(NormalizeWorkspace(r.workspace), r.app)) == Some(target.id) then None
        else Some(SwitchedTo(s, target, r, auditID))
  }

  // ----- Placement

  /** The stored policy, or a new one when none is stored under the app's name. */
  function BasePolicy(s: Snapshot, workspace: string, app: string): Policy {
    var p := PolicyAt(s.policies, Key(NormalizeWorkspace(workspace), app));
    if p.app == "" then NewPolicy(workspace, app) else p
  }

  function Placed(s: Snapshot, workspace: string, app: string, action: string, patch: Patch, now: Time): Snapshot {
    s.(policies := s.policies[Key(NormalizeWorkspace(workspace), app) := Patched(BasePolicy(s, workspace, app), action, patch, now)])
  }

  function PlacementAudit(d: Deployment, patch: Patch, now: Time, auditID: string): Audit {
    Audit(auditID, NormalizeWorkspace(d.workspace), GitSourceOf(d.gitSourceID, d.app), d.app, "execution_placement_updated", Text.TrimSpace(patch.actor), now)
  }

  function PlacedApp(s: Snapshot, workspace: string, app: string, patch: Patch, now: Time, auditID: string): Option<Snapshot> {
    var key := Key(NormalizeWorkspace(workspace), app);
    if key !in s.deployments then None
    else Some(Placed(s, workspace, app, "", patch, now).(audit := s.audit + [PlacementAudit(s.deployments[key], patch, now, auditID)]))
  }

  function PlacedAction(s: Snapshot, workspace: string, app: string, action: string, patch: Patch, now: Time, auditID: string): Option<Snapshot> {
    var key := Key(NormalizeWorkspace(workspace), app);
    if key !in s.deployments || action !in s.deployments[key].actions then None
    else Some(Placed(s, workspace, app, action, patch, now).(audit := s.audit + [PlacementAudit(s.deployments[key], patch, now, auditID)]))
  }

  function PublishedRelease(lib: Library, s: Snapshot, d: Deployment, at: Time, id: string): Option<Snapshot> {
    match Prepared(lib, d, at)
    case None => None
    case Some(p) => Some(Published(s, p, at, id))
  }

  // ----- What each operation does, in full

  /** The source of a release is the first of its source name, its app and "default" that is not blank. */
  lemma GitSourceMeans(value: string, app: string)
    ensures var names := [Text.TrimSpace(value), Text.TrimSpace(app), "default"];
            exists i :: 0 <= i < |names| && names[i] != "" && (forall j | 0 <= j < i :: names[j] == "") && GitSourceOf(value, app) == names[i]
  {
    hide Text.TrimSpace;
    var names := [Text.TrimSpace(value), Text.TrimSpace(app), "default"];
    var i := if names[0] != "" then 0 else if names[1] != "" then 1 else 2;
    assert names[i] != "" && forall j | 0 <= j < i :: names[j] == "";
  }

  /** What a placement starts from: the stored policy, if it is of some app, or else an empty one. */
  lemma BasePolicyMeans(s: Snapshot, workspace: string, app: string)
    ensures var key, base := Key(NormalizeWorkspace(workspace), app), BasePolicy(s, workspace, app);
            if key in s.policies && s.policies[key].app != "" then base == s.policies[key]
            else base == Policy(NormalizeWorkspace(workspace), app, 0, Overrides(None, None), map[], Operation("", "", None), "", 0)
  {
    hide NormalizeWorkspace;
  }

  ghost predicate PlacedOn(after: Policy, before: Policy, action: string, patch: Patch) {
    && after.revision == before.revision + 1
    && (action == "" ==> Changes(after.overrides, before.overrides, patch) && after.actions == before.actions)
    && (action != "" ==>
          && after.overrides == before.overrides && Changes(OverridesOf(after.actions, action), OverridesOf(before.actions, action), patch)
          && forall k | k != action :: OverridesOf(after.actions, k) == OverridesOf(before.actions, k))
  }

  /** A placement patches the policy that is stored, counts its revision up, and leaves the rest of the catalog alone. */
  lemma PlacementMeans(lib: Library, s: Snapshot, e: Event)
    requires !e.Import? && !e.Publish? && !e.Revert? && NoCollision(s.deployments) && Changed(lib, s, e).Some?
    ensures var m, key := Changed(lib, s, e).value, Key(NormalizeWorkspace(e.workspace), e.app);
            var stored := key in s.policies && s.policies[key].app != "";
            && m == s.(policies := m.policies, audit := m.audit) && m.policies.Keys == s.policies.Keys + {key}
            && (forall k | k in s.policies && k != key :: m.policies[k] == s.policies[k])
            && PlacedOn(m.policies[key], Normalize(if stored then s.policies[key] else NewPolicy(e.workspace, e.app)),
                        if e.PlaceAction? then e.action else "", e.patch)
  {
    hide Changed, Patched, Normalize, NormalizeWorkspace, Changes, OverridesOf;
    var action := if e.PlaceAction? then e.action else "";
    PlacementOnly(lib, s, e);
    PatchMeans(BasePolicy(s, e.workspace, e.app), action, e.patch, e.now);
  }

  /** A publication is refused for its interfaces only; it pins the release everywhere under its own key. */
  lemma PublishMeans(lib: Library, s: Snapshot, d: Deployment, at: Time, id: string)
    ensures PublishedRelease(lib, s, d, at, id).None? <==> NormalizeInterfaces(lib, d).None?
    ensures PublishedRelease(lib, s, d, at, id).Some? ==>
              var m, p := PublishedRelease(lib, s, d, at, id).value, Prepared(lib, d, at).value;
              var key, source := Key(NormalizeWorkspace(d.workspace), d.app), GitSourceOf(d.gitSourceID, d.app);
              && m == s.(deployments := s.deployments[key := p], active := s.active[key := id], history := m.history, audit := m.audit, markers := m.markers)
              && m.history == s.history + [Entry(id, key.workspace, source, d.app, d.commit, d.deploymentID, p, at)]
              && m.audit == s.audit + [Audit(id, key.workspace, source, d.app, "release_published", "system", at)]
              && m.markers == s.markers[Key(key.workspace, source) := Marker(key.workspace, source, d.commit, at)]
  {
    if NormalizeInterfaces(lib, d).Some? {
      InterfacesExactly(lib, d);
      PreparedKeeps(lib, d, at);
    }
    hide NormalizeWorkspace, NormalizeInterfaces, Prepared, GitSourceOf;
    assert Prepared(lib, d, at).None? <==> NormalizeInterfaces(lib, d).None? by { PreparedExactly(lib, d, at); }
  }

  lemma PreparedExactly(lib: Library, d: Deployment, at: Time)
    ensures Prepared(lib, d, at).None? <==> NormalizeInterfaces(lib, d).None?
  {
    hide NormalizeInterfaces;
  }

  /** Preparing keeps what identifies a release, and dates what has no date yet. */
  lemma PreparedKeeps(lib: Library, d: Deployment, at: Time)
    requires NormalizeInterfaces(lib, d).Some?
    ensures var p := Prepared(lib, d, at).value;
            && p.workspace == d.workspace && p.app == d.app && p.gitSourceID == d.gitSourceID
            && p.commit == d.commit && p.deploymentID == d.deploymentID && p.bundleDigest == d.bundleDigest && p.rest == d.rest
            && p.overrides == NO_OVERRIDES && p.actions.Keys == d.actions.Keys
            && p.updatedAt == (if d.updatedAt.Some? then d.updatedAt else Some(at))
            && forall k | k in d.actions ::
                 && p.actions[k].overrides == NO_OVERRIDES && p.actions[k].tag == d.actions[k].tag && p.actions[k].rest == d.actions[k].rest
                 && p.actions[k].updatedAt == (if d.actions[k].updatedAt.Some? then d.actions[k].updatedAt else Some(at))
  {
    InterfacesExactly(lib, d);
    hide NormalizeInterfaces;
  }

  /** The entry that a rollback asks for: the first of its workspace and app with its id. */
  ghost predicate Asked(history: seq<Entry>, request: Rollback, i: int) {
    && 0 <= i < |history| && EntryKey(history[i]) == Key(NormalizeWorkspace(request.workspace), Text.TrimSpace(request.app))
    && history[i].id == Text.TrimSpace(request.releaseID)
    && forall j | 0 <= j < i :: !(EntryKey(history[j]) == EntryKey(history[i]) && history[j].id == history[i].id)
  }

  lemma {:induction false} ReleaseIsFirst(history: seq<Entry>, key: Key, id: string, from: nat) returns (i: nat)
    requires Release(history, key, id, from).Some?
    ensures from <= i < |history| && Release(history, key, id, from) == Some(history[i]) && EntryKey(history[i]) == key && history[i].id == id
    ensures forall j | from <= j < i :: !(EntryKey(history[j]) == key && history[j].id == id)
    decreases |history| - from
  {
    hide EntryKey;
    if EntryKey(history[from]) == key && history[from].id == id {
      i := from;
    } else {
      i := ReleaseIsFirst(history, key, id, from + 1);
    }
  }

  lemma {:induction false} ReleaseIsFound(history: seq<Entry>, key: Key, id: string, from: nat, i: nat)
    requires from <= i < |history| && EntryKey(history[i]) == key && history[i].id == id
    ensures Release(history, key, id, from).Some?
    decreases |history| - from
  {
    hide EntryKey;
    if from < i {
      ReleaseIsFound(history, key, id, from + 1, i);
    }
  }

  /**
   A rollback is refused exactly for a blank name, id, actor or reason, for a release that its app does
   not have, and for the release that is active already.
   */
  lemma RollbackExactly(s: Snapshot, request: Rollback, auditID: string)
    ensures RolledBack(s, request, auditID).Some? <==>
              && Text.TrimSpace(request.app) != "" && Text.TrimSpace(request.releaseID) != ""
              && Text.TrimSpace(request.actor) != "" && Text.TrimSpace(request.reason) != ""
              && (exists i :: Asked(s.history, request, i))
              && Lookup(s.active, Key(NormalizeWorkspace(request.workspace), Text.TrimSpace(request.app))) != Some(Text.TrimSpace(request.releaseID))
  {
    hide NormalizeWorkspace, Text.TrimSpace, SwitchedTo, Release, EntryKey;
    var key, id := Key(NormalizeWorkspace(request.workspace), Text.TrimSpace(request.app)), Text.TrimSpace(request.releaseID);
    if PreparedRollback(request).Some? {
      PreparedRollbackIsNormal(request);
    }
    if Release(s.history, key, id, 0).Some? {
      var i := ReleaseIsFirst(s.history, key, id, 0);
      assert Asked(s.history, request, i);
    }
    if i :| Asked(s.history, request, i) {
      ReleaseIsFound(s.history, key, id, 0, i);
    }
  }

  /** A successful rollback records who asked for it, and marks the commit it went back to. */
  lemma RollbackRecords(s: Snapshot, request: Rollback, auditID: string)
    requires RolledBack(s, request, auditID).Some?
    ensures exists i, source :: Asked(s.history, request, i) &&
              var t, m, workspace := s.history[i], RolledBack(s, request, auditID).value, NormalizeWorkspace(request.workspace);
              && source == (if Text.TrimSpace(t.gitSourceID) != "" then Text.TrimSpace(t.gitSourceID)
                            else Text.TrimSpace(GitSourceOf(t.deployment.gitSourceID, t.deployment.app)))
              && m.audit == s.audit + [Audit(auditID, workspace, source, Text.TrimSpace(request.app), "release_rolled_back", Text.TrimSpace(request.actor), request.at)]
              && m.markers == s.markers[Key(workspace, source) := Marker(workspace, source, t.commit, request.at)]
  {
    hide NormalizeWorkspace, Text.TrimSpace, Release, EntryKey, GitSourceOf, Applied;
    PreparedRollbackIsNormal(request);
    var key, id := Key(NormalizeWorkspace(request.workspace), Text.TrimSpace(request.app)), Text.TrimSpace(request.releaseID);
    var i := ReleaseIsFirst(s.history, key, id, 0);
    assert Asked(s.history, request, i);
    var t := s.history[i];
    var source := if Text.TrimSpace(t.gitSourceID) != "" then Text.TrimSpace(t.gitSourceID)
                  else Text.TrimSpace(GitSourceOf(t.deployment.gitSourceID, t.deployment.app));
    assert RolledBack(s, request, auditID) == Some(SwitchedTo(s, t, PreparedRollback(request).value, auditID));
    assert Key(NormalizeWorkspace(request.workspace), source) == Key(NormalizeWorkspace(PreparedRollback(request).value.workspace), source);
  }

  /** Placement is refused exactly for an app or an action that is not deployed, and is audited under its actor. */
  lemma PlacementExactly(s: Snapshot, workspace: string, app: string, action: string, patch: Patch, now: Time, auditID: string)
    ensures var key := Key(NormalizeWorkspace(workspace), app);
            && (PlacedApp(s, workspace, app, patch, now, auditID).Some? <==> key in s.deployments)
            && (PlacedAction(s, workspace, app, action, patch, now, auditID).Some? <==> key in s.deployments && action in s.deployments[key].actions)
            && (key in s.deployments ==>
                  var d := s.deployments[key];
                  PlacedApp(s, workspace, app, patch, now, auditID).value.audit ==
                  s.audit + [Audit(auditID, NormalizeWorkspace(d.workspace), GitSourceOf(d.gitSourceID, d.app), d.app, "execution_placement_updated", Text.TrimSpace(patch.actor), now)])
  {
    hide NormalizeWorkspace, Text.TrimSpace, GitSourceOf, Patched, BasePolicy;
  }

  // ----- One operation on the loaded snapshot, before it is written

  ghost function Changed(lib: Library, s: Snapshot, e: Event): Option<Snapshot>
    requires !e.Import? && NoCollision(s.deployments)
  {
    match e
    case Publish(d, at, id) => PublishedRelease(lib, s, d, at, id)
    case Revert(request, auditID) => RolledBack(Normalized(lib, s), request, auditID)
    case PlaceInitially(workspace, app, patch, now) => Some(Placed(s, workspace, app, "", patch, now))
    case PlaceApp(workspace, app, patch, now, auditID) => PlacedApp(s, workspace, app, patch, now, auditID)
    case PlaceAction(workspace, app, action, patch, now, auditID) => PlacedAction(s, workspace, app, action, patch, now, auditID)
    case Import(_) => None
  }

  /** History entries carry deployments of their own key. */
  ghost predicate Filed(history: seq<Entry>) {
    forall i | 0 <= i < |history| :: EntryKey(history[i]) == KeyOf(history[i].deployment)
  }

  ghost predicate Sane(file: Option<Snapshot>) {
    file.Some? ==> NoCollision(file.value.deployments) && Filed(file.value.history)
  }

  lemma PreparedIsBare(lib: Library, d: Deployment, at: Time)
    requires lib.Valid() && Prepared(lib, d, at).Some?
    ensures var p := Prepared(lib, d, at).value; BareAt(lib, KeyOf(p), p) && NormalizeInterfaces(lib, p).Some?
  {
    var n := NormalizeInterfaces(lib, d).value;
    InterfacesTwice(lib, d);
    InterfacesIgnoreDefaults(lib, n);
    InterfacesIgnoreOverrides(lib, Defaults(n));
    var q := Stripped(Defaults(n));
    StrippedTwice(Defaults(n));
    assert NormalizeInterfaces(lib, q) == Some(q);
    InterfacesIgnoreDates(lib, q, at);
    hide NormalizeInterfaces;
    var p := Dated(q, at);
    assert Stripped(p) == p;
    assert Defaults(p) == p;
  }

  lemma InterfacesIgnoreDates(lib: Library, d: Deployment, at: Time)
    requires NormalizeInterfaces(lib, d) == Some(d)
    ensures NormalizeInterfaces(lib, Dated(d, at)) == Some(Dated(d, at))
  {
    var p := Dated(d, at);
    if d.apiVersion != "" {
      forall k | k in d.actions
        ensures CanonicalAction(lib, p.actions[k]) == Some(p.actions[k])
      {
        var n := NormalizeInterfaces(lib, d).value;
        assert CanonicalAction(lib, d.actions[k]) == Some(n.actions[k]);
        CanonicalIgnoresDate(lib, d.actions[k], p.actions[k]);
      }
      hide CanonicalAction;
      assert (map k | k in p.actions :: CanonicalAction(lib, p.actions[k]).value) == p.actions;
    }
  }

  lemma CanonicalIgnoresDate(lib: Library, a: Action, b: Action)
    requires CanonicalAction(lib, a) == Some(a) && b == a.(updatedAt := b.updatedAt)
    ensures CanonicalAction(lib, b) == Some(b)
  {
  }

  lemma AppliedZero(d: Deployment)
    ensures Applied(d, ZERO_POLICY) == Stripped(d)
  {
    assert TrimActions(map[]) == map[];
  }

  lemma BareWith(lib: Library, m: map<Key, Deployment>, k: Key, d: Deployment)
    requires Bare(lib, m) && BareAt(lib, k, d)
    ensures Bare(lib, m[k := d]) && NoCollision(m[k := d])
  {
    hide BareAt;
    BareIsRefiled(lib, m[k := d]);
  }

  lemma RestoredIsBare(lib: Library, e: Entry)
    requires lib.Valid() && Stored(lib, e.deployment) == e.deployment && EntryKey(e) == KeyOf(e.deployment)
    ensures BareAt(lib, EntryKey(e), Applied(e.deployment, ZERO_POLICY))
  {
    AppliedZero(e.deployment);
    StrippedStoredIsBare(lib, EntryKey(e), e.deployment);
    hide Stored, Stripped, Applied;
  }

  lemma PublishIsBare(lib: Library, s: Snapshot, d: Deployment, at: Time, id: string)
    requires lib.Valid() && Bare(lib, s.deployments) && PublishedRelease(lib, s, d, at, id).Some?
    ensures var m := PublishedRelease(lib, s, d, at, id).value.deployments; Bare(lib, m) && NoCollision(m)
  {
    hide Bare, BareAt, Prepared, NoCollision, NewEntry, KeyOf;
    PreparedIsBare(lib, d, at);
    var p := Prepared(lib, d, at).value;
    BareWith(lib, s.deployments, KeyOf(p), p);
  }

  lemma RevertIsBare(lib: Library, s: Snapshot, request: Rollback, auditID: string)
    requires lib.Valid() && Bare(lib, s.deployments) && AllStored(lib, s) && Filed(s.history)
    requires RolledBack(s, request, auditID).Some?
    ensures var m := RolledBack(s, request, auditID).value.deployments; Bare(lib, m) && NoCollision(m)
  {
    hide Bare, BareAt, NoCollision, RolledBack, Stored, EntryKey, KeyOf, Applied;
    var i := RevertTarget(s, request, auditID);
    RestoredIsBare(lib, s.history[i]);
    BareWith(lib, s.deployments, EntryKey(s.history[i]), Applied(s.history[i].deployment, ZERO_POLICY));
  }

  lemma ChangedIsBare(lib: Library, s: Snapshot, e: Event)
    requires lib.Valid() && !e.Import? && Bare(lib, s.deployments) && AllStored(lib, s) && Filed(s.history)
    requires NoCollision(s.deployments) && Changed(lib, s, e).Some?
    ensures var m := Changed(lib, s, e).value; Bare(lib, m.deployments) && NoCollision(m.deployments)
  {
    hide Bare, PublishedRelease, RolledBack, Placed, PlacedApp, PlacedAction, NoCollision, Filed, AllStored, Normalized;
    if e.Publish? {
      PublishIsBare(lib, s, e.deployment, e.at, e.id);
    } else if e.Revert? {
      NormalizedIsBare(lib, s);
      NormalizedIsStored(lib, s);
      NormalizedIsFiled(lib, s);
      RevertIsBare(lib, Normalized(lib, s), e.request, e.auditID);
    } else {
      PlacementOnly(lib, s, e);
    }
  }

  /** Placement changes at most one policy and the audit trail. */
  lemma PlacementOnly(lib: Library, s: Snapshot, e: Event)
    requires !e.Import? && !e.Publish? && !e.Revert? && NoCollision(s.deployments) && Changed(lib, s, e).Some?
    ensures var m := Changed(lib, s, e).value;
            var key := Key(NormalizeWorkspace(e.workspace), e.app);
            && m == s.(policies := m.policies, audit := m.audit) && s.audit <= m.audit
            && m.policies == s.policies[key := Patched(BasePolicy(s, e.workspace, e.app), if e.PlaceAction? then e.action else "", e.patch, e.now)]
  {
    hide Patched, BasePolicy, PlacementAudit, NormalizeWorkspace;
  }

  lemma PreparedRollbackIsNormal(request: Rollback)
    requires PreparedRollback(request).Some?
    ensures var r := PreparedRollback(request).value;
            && NormalizeWorkspace(r.workspace) == r.workspace == NormalizeWorkspace(request.workspace)
            && Text.TrimSpace(r.app) == r.app == Text.TrimSpace(request.app)
            && Text.TrimSpace(r.releaseID) == r.releaseID == Text.TrimSpace(request.releaseID)
  {
    NormalizeWorkspaceTwice(request.workspace);
    Text.TrimTwice(request.app);
    Text.TrimTwice(request.releaseID);
    hide NormalizeWorkspace, Text.TrimSpace;
  }

  /** What a successful rollback found and switched to. */
  lemma RevertSteps(s: Snapshot, request: Rollback, auditID: string) returns (i: nat)
    requires RolledBack(s, request, auditID).Some?
    ensures PreparedRollback(request).Some? && i < |s.history|
    ensures RolledBack(s, request, auditID) == Some(SwitchedTo(s, s.history[i], PreparedRollback(request).value, auditID))
    ensures var r := PreparedRollback(request).value;
            EntryKey(s.history[i]) == Key(r.workspace, r.app) && s.history[i].id == r.releaseID
  {
    hide PreparedRollback, NormalizeWorkspace, Text.TrimSpace, Release, SwitchedTo, EntryKey;
    var r := PreparedRollback(request).value;
    PreparedRollbackIsNormal(request);
    i := ReleaseIsEntry(s.history, Key(NormalizeWorkspace(r.workspace), Text.TrimSpace(r.app)), Text.TrimSpace(r.releaseID), 0);
  }

  /** A successful rollback switches one key to a released entry of that key, and nothing else. */
  lemma RevertTarget(s: Snapshot, request: Rollback, auditID: string) returns (i: nat)
    requires RolledBack(s, request, auditID).Some?
    ensures i < |s.history|
    ensures var t := s.history[i];
            var m := RolledBack(s, request, auditID).value;
            && m.deployments == s.deployments[EntryKey(t) := Applied(t.deployment, ZERO_POLICY)]
            && m.active == s.active[EntryKey(t) := t.id]
            && m.history == s.history && m.policies == s.policies && m.candidates == s.candidates
            && t.id == Text.TrimSpace(request.releaseID)
            && EntryKey(t) == Key(NormalizeWorkspace(request.workspace), Text.TrimSpace(request.app))
  {
    hide PreparedRollback, NormalizeWorkspace, Text.TrimSpace, Applied, EntryKey, GitSourceOf, RolledBack;
    i := RevertSteps(s, request, auditID);
    PreparedRollbackIsNormal(request);
  }

  lemma LoadedIsSane(lib: Library, file: Option<Snapshot>)
    requires lib.Valid() && Sane(file) && Loaded(lib, file).Some?
    ensures var s := Loaded(lib, file).value; Bare(lib, s.deployments) && AllStored(lib, s) && Filed(s.history)
  {
    hide Normalized, Checked, BareAt, Stored, Bare;
    LoadedIsBare(lib, file);
    LoadedIsStored(lib, file);
    if file.Some? {
      WritingIsNormalized(lib, file.value);
      NormalizedIsFiled(lib, file.value);
    }
  }

  lemma NormalizedIsFiled(lib: Library, s: Snapshot)
    requires NoCollision(s.deployments) && Filed(s.history)
    ensures Filed(Normalized(lib, s).history)
  {
    var n := Normalized(lib, s);
    hide Stored, Refiled, MigratedPolicies, Backfilled, StrippedAll, NormalizeWorkspace;
    forall i | 0 <= i < |n.history|
      ensures EntryKey(n.history[i]) == KeyOf(n.history[i].deployment)
    {
      StoredKeepsKey(lib, s.history[i].deployment);
    }
  }

  /** What the file holds after an event; None when it fails and the file is left alone. */
  ghost function Outcome(lib: Library, file: Option<Snapshot>, e: Event): Option<Snapshot>
    requires lib.Valid() && Sane(file) && (e.Import? ==> Sane(Some(e.snapshot)))
  {
    if e.Import? then Imported(lib, file, e.snapshot)
    else
      match Loaded(lib, file)
      case None => None
      case Some(s) =>
        LoadedIsSane(lib, file);
        BareIsRefiled(lib, s.deployments);
        if Changed(lib, s, e).None? then None
        else
          ChangedIsBare(lib, s, e);
          Writing(lib, Changed(lib, s, e).value)
  }

  // ----- Consistency

  ghost predicate EntryOk(lib: Library, e: Entry) {
    && Stored(lib, e.deployment) == e.deployment && NormalizeInterfaces(lib, e.deployment).Some?
    && EntryKey(e) == KeyOf(e.deployment)
    && e.id != "" && Text.TrimSpace(e.id) == e.id
  }

  ghost predicate CandidateOk(lib: Library, c: Candidate) {
    Stored(lib, c.deployment) == c.deployment && NormalizeInterfaces(lib, c.deployment).Some?
  }

  /** The active deployment of the key is that of history entry i, without overrides. */
  ghost predicate LiveAt(s: Snapshot, k: Key, i: int)
    requires k in s.deployments && k in s.active
  {
    && 0 <= i < |s.history|
    && s.history[i].id == s.active[k] && EntryKey(s.history[i]) == k && Stripped(s.history[i].deployment) == s.deployments[k]
  }

  ghost predicate Live(s: Snapshot, k: Key)
    requires k in s.deployments
  {
    k in s.active && exists i :: LiveAt(s, k, i)
  }

  ghost predicate UniqueIds(history: seq<Entry>) {
    forall i, j | 0 <= i < j < |history| :: history[i].id != history[j].id
  }

  /** A policy belongs to the key it is stored under. */
  ghost predicate Keyed(k: Key, p: Policy) {
    && Text.TrimSpace(p.workspace) != "" && NormalizeWorkspace(p.workspace) == k.workspace
    && Text.TrimSpace(p.app) == Text.TrimSpace(k.app)
  }

  ghost predicate DeploymentOk(lib: Library, k: Key, d: Deployment) {
    BareAt(lib, k, d) && NormalizeInterfaces(lib, d).Some?
  }

  ghost predicate Consistent(lib: Library, s: Snapshot) {
    && (forall k | k in s.deployments :: DeploymentOk(lib, k, s.deployments[k]))
    && (forall k | k in s.candidates :: CandidateOk(lib, s.candidates[k]))
    && (forall i | 0 <= i < |s.history| :: EntryOk(lib, s.history[i]))
    && UniqueIds(s.history)
    && s.active.Keys == s.deployments.Keys
    && (forall k | k in s.deployments :: Live(s, k))
    && (forall k | k in s.policies :: Keyed(k, s.policies[k]))
  }

  /** GetRoutingPolicy */
  function View(s: Snapshot, k: Key): Policy {
    Normalize(if k in s.policies then s.policies[k] else NewPolicy(k.workspace, k.app))
  }

  ghost predicate SameViews(s: Snapshot, w: Snapshot) {
    forall k: Key :: View(s, k) == View(w, k)
  }

  // ----- Normalizing and writing a consistent snapshot

  lemma ConsistentIsBare(lib: Library, s: Snapshot)
    requires Consistent(lib, s)
    ensures Bare(lib, s.deployments) && NoCollision(s.deployments)
  {
    hide BareAt, NormalizeInterfaces, Live, UniqueIds, Keyed, EntryOk, CandidateOk, NoCollision;
    BareIsRefiled(lib, s.deployments);
  }

  lemma ConsistentIsStored(lib: Library, s: Snapshot)
    requires Consistent(lib, s)
    ensures AllStored(lib, s)
  {
    hide Stored, Stripped, NormalKey, NormalizeInterfaces, Live, UniqueIds, Keyed, EntryKey, KeyOf, Text.TrimSpace;
  }

  lemma ConsistentIsValid(lib: Library, s: Snapshot)
    requires Consistent(lib, s)
    ensures AllValid(lib, s) && Filed(s.history)
  {
    hide BareAt, Stored, NormalizeInterfaces, Live, UniqueIds, Keyed, EntryKey, KeyOf, Text.TrimSpace;
  }

  lemma ConsistentIsSane(lib: Library, s: Snapshot)
    requires Consistent(lib, s)
    ensures Bare(lib, s.deployments) && NoCollision(s.deployments) && AllStored(lib, s) && AllValid(lib, s) && Filed(s.history)
  {
    ConsistentIsBare(lib, s);
    ConsistentIsStored(lib, s);
    ConsistentIsValid(lib, s);
    hide *;
  }

  lemma LiveIsNotBlank(lib: Library, s: Snapshot, k: Key)
    requires Consistent(lib, s) && k in s.deployments
    ensures k in s.active && !BlankAt(s.active, k)
  {
    hide Stored, Stripped, NormalKey, NormalizeInterfaces, UniqueIds, Keyed, EntryKey, KeyOf, Text.TrimSpace;
    assert Live(s, k);
    var i :| LiveAt(s, k, i);
    assert EntryOk(lib, s.history[i]);
  }

  lemma ActiveStays(lib: Library, s: Snapshot)
    requires Consistent(lib, s)
    ensures Backfilled(s.deployments, s.active, s.history) == s.active
  {
    forall k
      ensures Lookup(Backfilled(s.deployments, s.active, s.history), k) == Lookup(s.active, k)
    {
      if k in s.deployments {
        LiveIsNotBlank(lib, s, k);
      }
      BackfilledAt(s.deployments, s.active, s.history, k);
      hide Backfilled, BlankAt, Newest, Consistent;
    }
    hide Backfilled, Consistent;
    SameMaps(Backfilled(s.deployments, s.active, s.history), s.active);
  }

  /** A consistent snapshot is normal up to the form of its policies. */
  lemma ConsistentNormalizes(lib: Library, s: Snapshot)
    requires lib.Valid() && Consistent(lib, s)
    ensures NoCollision(s.deployments)
    ensures Normalized(lib, s) == s.(policies := MigratedPolicies(s.deployments, s.policies))
  {
    hide Consistent, Bare, AllStored, Refiled, MigratedPolicies, Backfilled, StrippedAll, StoredHistory, StoredCandidates;
    ConsistentIsSane(lib, s);
    BareIsRefiled(lib, s.deployments);
    HistoryStored(lib, s);
    ActiveStays(lib, s);
  }

  lemma IdentifiedSame(k: Key, d: Deployment, p: Policy)
    requires Keyed(k, p) && NormalKey(k, d) == k
    ensures var i := Identified(d, p);
            i == p.(app := i.app) && Text.TrimSpace(i.app) == Text.TrimSpace(p.app)
  {
    Text.TrimSpaceKeeps("");
    hide NormalizeWorkspace, Text.TrimSpace;
    assert d.app == "" || d.app == k.app;
  }

  lemma NormalizeSame(i: Policy, p: Policy)
    requires i == p.(app := i.app) && Text.TrimSpace(i.app) == Text.TrimSpace(p.app)
    ensures Normalize(i) == Normalize(p)
  {
    hide NormalizeWorkspace, Text.TrimSpace, TrimOverrides, TrimActions, NormalizeOperation;
  }

  lemma NormalIsKeyed(k: Key, p: Policy)
    requires Keyed(k, p)
    ensures Keyed(k, Normalize(p))
  {
    NormalizeWorkspaceTwice(p.workspace);
    WorkspaceIsNotBlank(p.workspace);
    Text.TrimTwice(p.app);
    hide NormalizeWorkspace, Text.TrimSpace, TrimOverrides, TrimActions, NormalizeOperation;
  }

  lemma KeyedStays(k: Key, d: Deployment, p: Policy)
    requires Keyed(k, p) && NormalKey(k, d) == k
    ensures var q := Normalize(Identified(d, p)); Keyed(k, q) && Normalize(q) == Normalize(p)
  {
    hide Keyed, NormalKey, Identified, Normalize;
    IdentifiedSame(k, d, p);
    NormalizeSame(Identified(d, p), p);
    NormalIsKeyed(k, p);
    NormalizeTwice(p);
  }

  /** Migrating the policies of a consistent snapshot rewrites them, but changes nothing they say. */
  lemma MigratedKeepsView(lib: Library, s: Snapshot, k: Key)
    requires Consistent(lib, s)
    ensures var w := s.(policies := MigratedPolicies(s.deployments, s.policies));
            View(w, k) == View(s, k) && (k in w.policies ==> Keyed(k, w.policies[k]))
  {
    hide MigratedPolicies, Keyed, Normalize, Identified, Extracted, Stored, Stripped, NormalKey, NormalizeInterfaces, Live, UniqueIds, Empty, EntryOk, CandidateOk;
    MigratedAt(s.deployments, s.policies, k);
    if k in s.deployments {
      assert DeploymentOk(lib, k, s.deployments[k]);
      ExtractedBare(s.deployments[k], PolicyAt(s.policies, k));
      if k in s.policies {
        KeyedStays(k, s.deployments[k], s.policies[k]);
      } else {
        NothingToMigrate(s.deployments[k]);
      }
    }
  }

  lemma NothingToMigrate(d: Deployment)
    ensures Empty(Normalize(Identified(d, ZERO_POLICY)))
  {
    hide NormalizeWorkspace, Text.TrimSpace;
  }

  lemma SamePartsConsistent(lib: Library, s: Snapshot, w: Snapshot)
    requires Consistent(lib, s) && w == s.(policies := w.policies, audit := w.audit, markers := w.markers)
    requires forall k | k in w.policies :: Keyed(k, w.policies[k])
    ensures Consistent(lib, w)
  {
    hide DeploymentOk, CandidateOk, EntryOk, UniqueIds, Keyed, EntryKey, Stripped;
    forall k | k in w.deployments
      ensures Live(w, k)
    {
      assert Live(s, k);
      var i :| LiveAt(s, k, i);
      assert LiveAt(w, k, i);
    }
  }

  /** Writing a consistent snapshot succeeds and keeps it consistent; every policy reads as before. */
  lemma ConsistentWrites(lib: Library, s: Snapshot)
    requires lib.Valid() && Consistent(lib, s)
    ensures NoCollision(s.deployments) && Writing(lib, s).Some?
    ensures var w := Writing(lib, s).value;
            Consistent(lib, w) && SameViews(s, w) && w == s.(policies := w.policies)
  {
    hide Consistent, Normalized, Checked, Bare, AllStored, AllValid, MigratedPolicies, View, Keyed;
    ConsistentIsSane(lib, s);
    ConsistentNormalizes(lib, s);
    WritingIsNormalized(lib, s);
    var w := Normalized(lib, s);
    forall k: Key
      ensures View(w, k) == View(s, k) && (k in w.policies ==> Keyed(k, w.policies[k]))
    {
      MigratedKeepsView(lib, s, k);
    }
    SamePartsConsistent(lib, s, w);
    ConsistentIsSane(lib, w);
  }

  ghost function Contents(file: Option<Snapshot>): Snapshot { match file case None => EMPTY case Some(s) => s }

  lemma EmptyIsConsistent(lib: Library)
    ensures Consistent(lib, EMPTY)
  {
  }

  lemma ConsistentLoads(lib: Library, file: Option<Snapshot>)
    requires lib.Valid() && Consistent(lib, Contents(file))
    ensures Sane(file) && Loaded(lib, file).Some?
    ensures var s := Loaded(lib, file).value;
            Consistent(lib, s) && SameViews(Contents(file), s) && s == Contents(file).(policies := s.policies)
  {
    hide Consistent, Normalized, Checked, View;
    ConsistentIsSane(lib, Contents(file));
    if file.Some? {
      ConsistentWrites(lib, file.value);
    }
  }

  // ----- What each event keeps

  /** The identity a publication mints is new; an import is consistent and means the same releases. */
  ghost predicate Fresh(lib: Library, s: Snapshot, e: Event) {
    match e
    case Publish(_, _, id) => id != "" && Text.TrimSpace(id) == id && !HasId(ENTRY_ID, s.history, id)
    case Import(i) => Consistent(lib, i) && Agree(s.history, i.history)
    case _ => true
  }

  /** Entries with one id are one entry. */
  ghost predicate Agree(a: seq<Entry>, b: seq<Entry>) {
    forall i, j | 0 <= i < |a| && 0 <= j < |b| && a[i].id == b[j].id :: a[i] == b[j]
  }

  lemma LiveElsewhere(s: Snapshot, m: Snapshot, k: Key)
    requires k in s.deployments && Live(s, k) && s.history <= m.history
    requires k in m.deployments && k in m.active && m.deployments[k] == s.deployments[k] && m.active[k] == s.active[k]
    ensures Live(m, k)
  {
    hide Stripped, EntryKey;
    var i :| LiveAt(s, k, i);
    assert m.history[i] == s.history[i];
    assert LiveAt(m, k, i);
  }

  lemma UniqueWith(history: seq<Entry>, e: Entry)
    requires UniqueIds(history) && !HasId(ENTRY_ID, history, e.id)
    ensures UniqueIds(history + [e])
  {
    forall i | 0 <= i < |history|
      ensures history[i].id != e.id
    {
      assert ENTRY_ID(history[i]) == history[i].id;
    }
  }

  /** Putting one released entry live at its key keeps a snapshot consistent. */
  lemma ConsistentWith(lib: Library, s: Snapshot, m: Snapshot, key: Key, i: nat)
    requires Consistent(lib, s) && s.history <= m.history && i < |m.history|
    requires m.active == s.active[key := m.history[i].id]
    requires m.deployments == s.deployments[key := Stripped(m.history[i].deployment)]
    requires EntryKey(m.history[i]) == key
    requires m.policies == s.policies && m.candidates == s.candidates
    requires DeploymentOk(lib, key, Stripped(m.history[i].deployment))
    requires (forall j | 0 <= j < |m.history| :: EntryOk(lib, m.history[j])) && UniqueIds(m.history)
    ensures Consistent(lib, m)
  {
    hide DeploymentOk, CandidateOk, EntryOk, UniqueIds, Keyed, EntryKey, Stripped, Live;
    assert LiveAt(m, key, i);
    forall k | k in m.deployments
      ensures Live(m, k)
    {
      if k == key {
        LiveFrom(m, key, i);
      } else {
        LiveElsewhere(s, m, k);
      }
    }
  }

  lemma EntriesAreOk(lib: Library, s: Snapshot)
    requires Consistent(lib, s)
    ensures UniqueIds(s.history) && forall j | 0 <= j < |s.history| :: EntryOk(lib, s.history[j])
  {
    hide Keyed, DeploymentOk, CandidateOk, EntryOk, UniqueIds, Live;
  }

  lemma NewEntryIsOk(lib: Library, d: Deployment, at: Time, id: string)
    requires lib.Valid() && Prepared(lib, d, at).Some? && id != "" && Text.TrimSpace(id) == id
    ensures var p := Prepared(lib, d, at).value;
            && EntryOk(lib, NewEntry(p, at, id)) && EntryKey(NewEntry(p, at, id)) == KeyOf(p)
            && DeploymentOk(lib, KeyOf(p), p) && Stripped(p) == p
  {
    PreparedIsBare(lib, d, at);
    var p := Prepared(lib, d, at).value;
    NormalizeWorkspaceTwice(p.workspace);
    hide Prepared, Stored, NormalKey, NormalizeInterfaces, Text.TrimSpace, Stripped, NormalizeWorkspace, GitSourceOf;
  }

  lemma PublishedIsConsistent(lib: Library, s: Snapshot, d: Deployment, at: Time, id: string)
    requires lib.Valid() && Consistent(lib, s) && PublishedRelease(lib, s, d, at, id).Some?
    requires id != "" && Text.TrimSpace(id) == id && !HasId(ENTRY_ID, s.history, id)
    ensures Consistent(lib, PublishedRelease(lib, s, d, at, id).value)
  {
    hide Consistent, Prepared, Text.TrimSpace, Stripped, NormalizeWorkspace, UniqueIds, GitSourceOf, HasId, EntryOk, EntryKey, KeyOf, DeploymentOk;
    NewEntryIsOk(lib, d, at, id);
    EntriesAreOk(lib, s);
    var p := Prepared(lib, d, at).value;
    UniqueWith(s.history, NewEntry(p, at, id));
    var m := Published(s, p, at, id);
    assert m.history[|s.history|] == NewEntry(p, at, id);
    ConsistentWith(lib, s, m, KeyOf(p), |s.history|);
  }

  lemma LiveFrom(s: Snapshot, k: Key, i: int)
    requires k in s.deployments && k in s.active && LiveAt(s, k, i)
    ensures Live(s, k)
  {
    hide Stripped, EntryKey;
  }

  lemma RestoredIsOk(lib: Library, e: Entry)
    requires lib.Valid() && EntryOk(lib, e)
    ensures DeploymentOk(lib, EntryKey(e), Stripped(e.deployment)) && Applied(e.deployment, ZERO_POLICY) == Stripped(e.deployment)
  {
    RestoredIsBare(lib, e);
    AppliedZero(e.deployment);
    RestoredIsValid(lib, e.deployment);
    hide Stored, NormalizeInterfaces, Stripped, Applied, EntryKey, KeyOf, Text.TrimSpace, BareAt;
  }

  lemma RevertedIsConsistent(lib: Library, s: Snapshot, request: Rollback, auditID: string)
    requires lib.Valid() && Consistent(lib, s) && RolledBack(s, request, auditID).Some?
    ensures Consistent(lib, RolledBack(s, request, auditID).value)
  {
    hide Consistent, RolledBack, Text.TrimSpace, Stripped, NormalizeWorkspace, UniqueIds, EntryOk, EntryKey, DeploymentOk, Applied;
    var i := RevertTarget(s, request, auditID);
    EntriesAreOk(lib, s);
    RestoredIsOk(lib, s.history[i]);
    ConsistentWith(lib, s, RolledBack(s, request, auditID).value, EntryKey(s.history[i]), i);
  }

  lemma RestoredIsValid(lib: Library, d: Deployment)
    requires NormalizeInterfaces(lib, d).Some?
    ensures NormalizeInterfaces(lib, Stripped(d)).Some?
  {
    InterfacesIgnoreOverrides(lib, d);
    hide NormalizeInterfaces, Stripped;
  }

  lemma PatchedIsKeyed(k: Key, p: Policy, action: string, patch: Patch, now: Time)
    requires Keyed(k, p)
    ensures Keyed(k, Patched(p, action, patch, now))
  {
    NormalizeWorkspaceTwice(p.workspace);
    WorkspaceIsNotBlank(p.workspace);
    Text.TrimTwice(p.app);
    hide NormalizeWorkspace, Text.TrimSpace, TrimOverrides, TrimActions, NormalizeOperation, PatchOverrides;
  }

  lemma NewIsKeyed(workspace: string, app: string)
    ensures Keyed(Key(NormalizeWorkspace(workspace), app), NewPolicy(workspace, app))
  {
    NormalizeWorkspaceTwice(workspace);
    WorkspaceIsNotBlank(workspace);
    hide NormalizeWorkspace, Text.TrimSpace;
  }

  lemma PlacedIsConsistent(lib: Library, s: Snapshot, e: Event)
    requires lib.Valid() && Consistent(lib, s) && !e.Import? && !e.Publish? && !e.Revert? && NoCollision(s.deployments) && Changed(lib, s, e).Some?
    ensures Consistent(lib, Changed(lib, s, e).value)
  {
    hide Changed, Keyed, Patched, NormalizeWorkspace, NewPolicy;
    PlacementOnly(lib, s, e);
    var key := Key(NormalizeWorkspace(e.workspace), e.app);
    NewIsKeyed(e.workspace, e.app);
    BaseIsKeyed(lib, s, e.workspace, e.app);
    PatchedIsKeyed(key, BasePolicy(s, e.workspace, e.app), if e.PlaceAction? then e.action else "", e.patch, e.now);
    hide BasePolicy;
    PoliciesAreKeyed(lib, s);
    hide Consistent;
    SamePartsConsistent(lib, s, Changed(lib, s, e).value);
  }

  lemma PoliciesAreKeyed(lib: Library, s: Snapshot)
    requires Consistent(lib, s)
    ensures forall k | k in s.policies :: Keyed(k, s.policies[k])
  {
    hide Keyed, DeploymentOk, CandidateOk, EntryOk, UniqueIds, Live;
  }

  lemma BaseIsKeyed(lib: Library, s: Snapshot, workspace: string, app: string)
    requires Consistent(lib, s)
    ensures Keyed(Key(NormalizeWorkspace(workspace), app), BasePolicy(s, workspace, app))
  {
    NewIsKeyed(workspace, app);
    PoliciesAreKeyed(lib, s);
    hide Consistent, Keyed, NormalizeWorkspace, NewPolicy;
  }

  // ----- Import of a consistent snapshot

  lemma {:induction false} MergeByIdUnique(have: seq<Entry>, more: seq<Entry>)
    requires UniqueIds(have)
    ensures UniqueIds(MergeById(ENTRY_ID, have, more))
    decreases |more|
  {
    if more != [] {
      if HasId(ENTRY_ID, have, more[0].id) {
        MergeByIdUnique(have, more[1..]);
      } else {
        UniqueWith(have, more[0]);
        MergeByIdUnique(have + [more[0]], more[1..]);
      }
    }
  }

  /** Where ids agree, an imported entry is in the merged history under its own id. */
  lemma ImportedEntryStays(t: seq<Entry>, i: seq<Entry>, b: nat) returns (j: nat)
    requires UniqueIds(i) && Agree(t, i) && b < |i|
    ensures var r := MergeById(ENTRY_ID, t, i); j < |r| && r[j] == i[b]
  {
    var r := MergeById(ENTRY_ID, t, i);
    assert ENTRY_ID(i[b]) == i[b].id && HasId(ENTRY_ID, i, i[b].id);
    MergeByIdKeeps(ENTRY_ID, t, i);
    hide MergeById;
    j :| 0 <= j < |r| && ENTRY_ID(r[j]) == i[b].id;
    MergeByIdFrom(ENTRY_ID, t, i, r[j]);
    if r[j] in t {
      var a :| 0 <= a < |t| && t[a] == r[j];
      assert t[a].id == i[b].id;
    } else {
      var c :| 0 <= c < |i| && i[c] == r[j];
      assert i[c].id == i[b].id;
    }
  }

  lemma JoinedIsLive(lib: Library, t: Snapshot, i: Snapshot, k: Key)
    requires Consistent(lib, t) && Consistent(lib, i) && Agree(t.history, i.history)
    requires k in Joined(t, i).deployments
    ensures Live(Joined(t, i), k)
  {
    hide DeploymentOk, CandidateOk, EntryOk, Keyed, EntryKey, Stripped, MergeById, NormalizedPolicies, Agree, UniqueIds;
    var m := Joined(t, i);
    MergeByIdKeeps(ENTRY_ID, t.history, i.history);
    if k in t.deployments {
      LiveElsewhere(t, m, k);
    } else {
      assert Live(i, k);
      var b :| LiveAt(i, k, b);
      var j := ImportedEntryStays(t.history, i.history, b);
      LiveFrom(m, k, j);
    }
  }

  lemma JoinedEntries(lib: Library, t: Snapshot, i: Snapshot)
    requires Consistent(lib, t) && Consistent(lib, i)
    ensures var h := Joined(t, i).history; UniqueIds(h) && forall j | 0 <= j < |h| :: EntryOk(lib, h[j])
  {
    hide Consistent, EntryOk, MergeById, NormalizedPolicies, UniqueIds;
    EntriesAreOk(lib, t);
    EntriesAreOk(lib, i);
    MergeByIdUnique(t.history, i.history);
    var h := Joined(t, i).history;
    forall j | 0 <= j < |h|
      ensures EntryOk(lib, h[j])
    {
      assert h[j] in h;
      MergeByIdFrom(ENTRY_ID, t.history, i.history, h[j]);
    }
  }

  ghost predicate AllKeyed(policies: map<Key, Policy>) { forall k | k in policies :: Keyed(k, policies[k]) }

  lemma NormalizedAreKeyed(policies: map<Key, Policy>)
    requires AllKeyed(policies)
    ensures AllKeyed(NormalizedPolicies(policies))
  {
    hide Keyed, Normalize;
    forall k | k in policies
      ensures Keyed(k, Normalize(policies[k]))
    {
      NormalIsKeyed(k, policies[k]);
    }
  }

  lemma MergedAreKeyed(a: map<Key, Policy>, b: map<Key, Policy>)
    requires AllKeyed(a) && AllKeyed(b)
    ensures AllKeyed(a + b)
  {
    hide Keyed;
  }

  lemma JoinedPolicies(lib: Library, t: Snapshot, i: Snapshot)
    requires Consistent(lib, t) && Consistent(lib, i)
    ensures forall k | k in Joined(t, i).policies :: Keyed(k, Joined(t, i).policies[k])
  {
    PoliciesAreKeyed(lib, t);
    PoliciesAreKeyed(lib, i);
    hide Consistent, Keyed, NormalizedPolicies, MergeById;
    NormalizedAreKeyed(i.policies);
    MergedAreKeyed(NormalizedPolicies(i.policies), t.policies);
    assert Joined(t, i).policies == NormalizedPolicies(i.policies) + t.policies;
    hide Joined;
  }

  lemma JoinedMaps(lib: Library, t: Snapshot, i: Snapshot)
    requires Consistent(lib, t) && Consistent(lib, i)
    ensures var m := Joined(t, i);
            && (forall k | k in m.deployments :: DeploymentOk(lib, k, m.deployments[k]))
            && (forall k | k in m.candidates :: CandidateOk(lib, m.candidates[k]))
            && m.active.Keys == m.deployments.Keys
  {
    hide DeploymentOk, CandidateOk, EntryOk, Keyed, MergeById, NormalizedPolicies, UniqueIds, Live;
  }

  /** Joining two consistent snapshots that agree on releases gives a consistent one. */
  lemma JoinedIsConsistent(lib: Library, t: Snapshot, i: Snapshot)
    requires Consistent(lib, t) && Consistent(lib, i) && Agree(t.history, i.history)
    ensures Consistent(lib, Joined(t, i))
  {
    forall k | k in Joined(t, i).deployments
      ensures Live(Joined(t, i), k)
    {
      JoinedIsLive(lib, t, i, k);
    }
    JoinedEntries(lib, t, i);
    JoinedPolicies(lib, t, i);
    JoinedMaps(lib, t, i);
    hide Joined, DeploymentOk, CandidateOk, EntryOk, Keyed, UniqueIds, Live;
  }

  lemma ImportIsConsistent(lib: Library, file: Option<Snapshot>, imported: Snapshot)
    requires lib.Valid() && Consistent(lib, Contents(file)) && Consistent(lib, imported)
    requires Agree(Contents(file).history, imported.history)
    ensures Sane(file) && Sane(Some(imported)) && Imported(lib, file, imported).Some?
    ensures Consistent(lib, Imported(lib, file, imported).value)
    ensures Contents(file).history <= Imported(lib, file, imported).value.history
  {
    hide Consistent, Normalized, Checked, Joined, Agree, Keeps, MigratedPolicies, SameViews, Bare, AllStored, AllValid;
    ConsistentLoads(lib, file);
    ConsistentWrites(lib, imported);
    ConsistentIsSane(lib, imported);
    var target, i := Loaded(lib, file).value, Writing(lib, imported).value;
    NormalizedStays(lib, target);
    NormalizedStays(lib, i);
    var t, u := Normalized(lib, target), Normalized(lib, i);
    JoinedIsConsistent(lib, t, u);
    ConsistentWrites(lib, Joined(t, u));
    JoinedHistory(t, u);
  }

  lemma JoinedHistory(t: Snapshot, i: Snapshot)
    ensures t.history <= Joined(t, i).history
  {
    MergeByIdKeeps(ENTRY_ID, t.history, i.history);
    hide MergeById, NormalizedPolicies;
  }

  lemma NormalizedStays(lib: Library, s: Snapshot)
    requires lib.Valid() && Consistent(lib, s)
    ensures NoCollision(s.deployments)
    ensures var n := Normalized(lib, s); Consistent(lib, n) && n == s.(policies := n.policies) && SameViews(s, n)
  {
    hide Consistent, Normalized, Checked, SameViews, AllValid, Bare;
    ConsistentWrites(lib, s);
    WritingIsNormalized(lib, s);
  }

  // ----- The theorems

  /**
   Every event that succeeds keeps the catalog consistent and only appends to its history; publishing
   and rolling back leave every routing policy as it reads.
   */
  lemma EventKeepsConsistent(lib: Library, file: Option<Snapshot>, e: Event)
    requires lib.Valid() && Consistent(lib, Contents(file)) && Fresh(lib, Contents(file), e)
    ensures Sane(file) && (e.Import? ==> Sane(Some(e.snapshot)))
    ensures var r := Outcome(lib, file, e);
            r.Some? ==>
              && Consistent(lib, r.value)
              && Contents(file).history <= r.value.history
              && (e.Publish? || e.Revert? ==> SameViews(Contents(file), r.value))
              && (!e.Publish? && !e.Import? ==> r.value.history == Contents(file).history)
  {
    hide Consistent, Writing, Loaded, Imported, SameViews, HasId, Agree, PublishedRelease, RolledBack, Placed, PlacedApp, PlacedAction;
    ConsistentLoads(lib, file);
    var s := Loaded(lib, file).value;
    if e.Import? {
      ImportIsConsistent(lib, file, e.snapshot);
    } else if Changed(lib, s, e).Some? {
      ChangedIsConsistent(lib, s, e);
      var m := Changed(lib, s, e).value;
      ConsistentWrites(lib, m);
      if e.Publish? || e.Revert? {
        ViewsChain(Contents(file), s, m, Writing(lib, m).value);
      }
    }
  }

  lemma ViewsChain(a: Snapshot, s: Snapshot, m: Snapshot, w: Snapshot)
    requires SameViews(a, s) && SameViews(s, m) && SameViews(m, w)
    ensures SameViews(a, w)
  {
    hide View;
    forall k: Key
      ensures View(a, k) == View(w, k)
    {
      assert View(a, k) == View(s, k) && View(s, k) == View(m, k) && View(m, k) == View(w, k);
    }
  }

  lemma SamePoliciesSameViews(s: Snapshot, m: Snapshot)
    requires s.policies == m.policies
    ensures SameViews(s, m)
  {
    hide Normalize, NewPolicy;
  }

  lemma PublishedAppends(lib: Library, s: Snapshot, d: Deployment, at: Time, id: string)
    requires PublishedRelease(lib, s, d, at, id).Some?
    ensures var m := PublishedRelease(lib, s, d, at, id).value; s.history <= m.history && SameViews(s, m)
  {
    hide Prepared, NewEntry, KeyOf, SameViews;
    SamePoliciesSameViews(s, PublishedRelease(lib, s, d, at, id).value);
  }

  lemma RevertedKeeps(lib: Library, s: Snapshot, request: Rollback, auditID: string)
    requires lib.Valid() && Consistent(lib, s) && NoCollision(s.deployments)
    requires RolledBack(Normalized(lib, s), request, auditID).Some?
    ensures var m := RolledBack(Normalized(lib, s), request, auditID).value;
            Consistent(lib, m) && m.history == s.history && SameViews(s, m)
  {
    hide Consistent, RolledBack, Normalized, SameViews;
    NormalizedStays(lib, s);
    var n := Normalized(lib, s);
    RevertedIsConsistent(lib, n, request, auditID);
    var i := RevertTarget(n, request, auditID);
    var m := RolledBack(n, request, auditID).value;
    SamePoliciesSameViews(n, m);
    SamePoliciesSameViews(m, m);
    ViewsChain(s, n, m, m);
  }

  lemma ChangedIsConsistent(lib: Library, s: Snapshot, e: Event)
    requires lib.Valid() && Consistent(lib, s) && !e.Import? && Fresh(lib, s, e) && NoCollision(s.deployments) && Changed(lib, s, e).Some?
    ensures var m := Changed(lib, s, e).value;
            && Consistent(lib, m) && s.history <= m.history
            && (e.Publish? || e.Revert? ==> SameViews(s, m))
            && (!e.Publish? ==> m.history == s.history)
  {
    hide Consistent, HasId, Agree, RolledBack, Placed, PlacedApp, PlacedAction, PublishedRelease, Normalized, SameViews;
    if e.Publish? {
      PublishedIsConsistent(lib, s, e.deployment, e.at, e.id);
      PublishedAppends(lib, s, e.deployment, e.at, e.id);
    } else if e.Revert? {
      RevertedKeeps(lib, s, e.request, e.auditID);
    } else {
      PlacedIsConsistent(lib, s, e);
      PlacementOnly(lib, s, e);
    }
  }

  /** One event, failed or not: a failed one leaves the file alone. */
  ghost function After(lib: Library, file: Option<Snapshot>, e: Event): Option<Snapshot>
    requires lib.Valid() && Sane(file) && (e.Import? ==> Sane(Some(e.snapshot)))
  {
    match Outcome(lib, file, e) case None => file case Some(r) => Some(r)
  }

  /** A run in which every publication mints a new id and every import is consistent. */
  ghost predicate IsRun(lib: Library, file: Option<Snapshot>, events: seq<Event>, last: Option<Snapshot>)
    decreases |events|
  {
    if events == [] then last == file
    else
      && lib.Valid() && Sane(file) && (events[0].Import? ==> Sane(Some(events[0].snapshot)))
      && Fresh(lib, Contents(file), events[0])
      && IsRun(lib, After(lib, file, events[0]), events[1..], last)
  }

  /** Every run from a consistent catalog stays consistent, and its history only grows. */
  lemma {:induction false} RunKeepsConsistent(lib: Library, file: Option<Snapshot>, events: seq<Event>, last: Option<Snapshot>)
    requires lib.Valid() && Consistent(lib, Contents(file)) && IsRun(lib, file, events, last)
    ensures Consistent(lib, Contents(last)) && Contents(file).history <= Contents(last).history
    decreases |events|
  {
    hide Consistent, Outcome, Fresh, Sane;
    if events != [] {
      EventKeepsConsistent(lib, file, events[0]);
      RunKeepsConsistent(lib, After(lib, file, events[0]), events[1..], last);
    }
  }

  /**
   After every run from the empty catalog each app's active id names one history entry of its
   workspace and app, and its active deployment is that entry's deployment without overrides.
   */
  lemma ActiveIsReleased(lib: Library, events: seq<Event>, last: Option<Snapshot>, k: Key)
    requires lib.Valid() && IsRun(lib, None, events, last) && k in Contents(last).deployments
    ensures var s := Contents(last);
            && k in s.active
            && exists i :: LiveAt(s, k, i) && forall j | 0 <= j < |s.history| && s.history[j].id == s.active[k] :: j == i
  {
    EmptyIsConsistent(lib);
    hide IsRun, DeploymentOk, EntryOk, CandidateOk, Keyed;
    RunKeepsConsistent(lib, None, events, last);
    var s := Contents(last);
    assert Live(s, k);
    var i :| LiveAt(s, k, i);
    assert forall j | 0 <= j < |s.history| && s.history[j].id == s.active[k] :: j == i;
  }

  /** Operator placement survives publications and rollbacks: what runs has the overrides that the policy read before. */
  lemma PlacementSurvives(lib: Library, file: Option<Snapshot>, e: Event, k: Key)
    requires lib.Valid() && Consistent(lib, Contents(file)) && Fresh(lib, Contents(file), e) && (e.Publish? || e.Revert?)
    requires Sane(file) && Outcome(lib, file, e).Some? && k in Outcome(lib, file, e).value.deployments
    ensures var r := Outcome(lib, file, e).value;
            var runs := Applied(r.deployments[k], PolicyAt(r.policies, k));
            && runs.overrides == View(Contents(file), k).overrides
            && forall a | a in runs.actions :: runs.actions[a].overrides == OverridesOf(View(Contents(file), k).actions, a)
  {
    hide Consistent, Outcome, Fresh, Normalize;
    EventKeepsConsistent(lib, file, e);
    var r := Outcome(lib, file, e).value;
    assert View(Contents(file), k) == View(r, k);
    ViewApplies(r, k, r.deployments[k]);
  }

  lemma ViewApplies(s: Snapshot, k: Key, d: Deployment)
    ensures var runs := Applied(d, PolicyAt(s.policies, k));
            && runs.overrides == View(s, k).overrides
            && forall a | a in runs.actions :: runs.actions[a].overrides == OverridesOf(View(s, k).actions, a)
  {
    if k !in s.policies {
      assert TrimActions(map[]) == map[];
    }
    hide TrimActions, NormalizeWorkspace, Text.TrimSpace;
  }

  /** A rollback makes a release active again exactly as it was published. */
  lemma RollbackRestores(lib: Library, file: Option<Snapshot>, request: Rollback, auditID: string) returns (i: nat)
    requires lib.Valid() && Consistent(lib, Contents(file)) && Sane(file)
    requires Outcome(lib, file, Revert(request, auditID)).Some?
    ensures var before, after := Contents(file), Outcome(lib, file, Revert(request, auditID)).value;
            var key := Key(NormalizeWorkspace(request.workspace), Text.TrimSpace(request.app));
            && i < |before.history| && before.history[i].id == Text.TrimSpace(request.releaseID) && EntryKey(before.history[i]) == key
            && after.deployments == before.deployments[key := Stripped(before.history[i].deployment)]
            && after.active == before.active[key := before.history[i].id]
            && after.history == before.history
  {
    hide Consistent, Loaded, Writing, RolledBack, Applied, Stripped, NormalizeWorkspace, Text.TrimSpace, EntryKey, SameViews, Normalized;
    ConsistentLoads(lib, file);
    var s := Loaded(lib, file).value;
    NormalizedStays(lib, s);
    var n := Normalized(lib, s);
    i := RevertTarget(n, request, auditID);
    RevertedIsConsistent(lib, n, request, auditID);
    ConsistentWrites(lib, RolledBack(n, request, auditID).value);
    AppliedZero(n.history[i].deployment);
  }
}
