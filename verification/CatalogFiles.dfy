/** The file catalog: each operation loads the snapshot, changes it and writes it back. */
module CatalogFiles {
  import opened Options
  import Text
  import opened Workspaces
  import opened RoutingPolicies
  import opened Snapshots
  import opened CatalogMigration
  import opened CatalogImports
  import opened CatalogRuns

  lemma FiledWith(history: seq<Entry>, e: Entry)
    requires Filed(history) && EntryKey(e) == KeyOf(e.deployment)
    ensures Filed(history + [e])
  {
    hide EntryKey, KeyOf;
  }

  lemma NewEntryIsFiled(d: Deployment, at: Time, id: string)
    ensures EntryKey(NewEntry(d, at, id)) == KeyOf(d)
  {
    NormalizeWorkspaceTwice(d.workspace);
    hide NormalizeWorkspace, GitSourceOf;
  }

  lemma JoinedIsFiled(t: Snapshot, i: Snapshot)
    requires Filed(t.history) && Filed(i.history)
    ensures Filed(Joined(t, i).history)
  {
    hide EntryKey, KeyOf, MergeById, NormalizedPolicies;
    var h := Joined(t, i).history;
    forall j | 0 <= j < |h|
      ensures EntryKey(h[j]) == KeyOf(h[j].deployment)
    {
      assert h[j] in h;
      MergeByIdFrom(ENTRY_ID, t.history, i.history, h[j]);
    }
  }

  lemma WritingIsSane(lib: Library, s: Snapshot)
    requires lib.Valid() && NoCollision(s.deployments) && Filed(s.history) && Writing(lib, s).Some?
    ensures Sane(Writing(lib, s))
  {
    hide Normalized, Checked, AllValid, Filed, Bare;
    WritingIsNormalized(lib, s);
    NormalizedIsFiled(lib, s);
  }

  lemma ChangedIsFiled(lib: Library, s: Snapshot, e: Event)
    requires lib.Valid() && !e.Import? && NoCollision(s.deployments) && Filed(s.history) && Changed(lib, s, e).Some?
    ensures Filed(Changed(lib, s, e).value.history)
  {
    hide Filed, Normalized, PublishedRelease, RolledBack, Placed, PlacedApp, PlacedAction;
    if e.Publish? {
      PublishedIsFiled(lib, s, e.deployment, e.at, e.id);
    } else if e.Revert? {
      NormalizedIsFiled(lib, s);
      var i := RevertTarget(Normalized(lib, s), e.request, e.auditID);
    } else {
      PlacementOnly(lib, s, e);
    }
  }

  lemma PublishedIsFiled(lib: Library, s: Snapshot, d: Deployment, at: Time, id: string)
    requires Filed(s.history) && PublishedRelease(lib, s, d, at, id).Some?
    ensures Filed(PublishedRelease(lib, s, d, at, id).value.history)
  {
    hide Filed, Prepared, NewEntry, KeyOf, EntryKey;
    var p := Prepared(lib, d, at).value;
    NewEntryIsFiled(p, at, id);
    EntryDeployment(p, at, id);
    FiledWith(s.history, NewEntry(p, at, id));
  }

  lemma EntryDeployment(d: Deployment, at: Time, id: string)
    ensures NewEntry(d, at, id).deployment == d
  {
  }

  lemma NormalizedHistoryStays(lib: Library, s: Snapshot)
    requires AllStored(lib, s) && NoCollision(s.deployments)
    ensures Normalized(lib, s).history == s.history
  {
    HistoryStored(lib, s);
    hide StoredHistory, AllStored, NoCollision;
  }

  class FileCatalog {
    const lib: Library
    var file: Option<Snapshot>

    constructor (lib: Library)
      requires lib.Valid()
      ensures Valid() && this.lib == lib && file == None
    {
      this.lib := lib;
      file := None;
    }

    ghost predicate Valid()
      reads this
    {
      lib.Valid() && Sane(file)
    }

    method Load() returns (s: Option<Snapshot>)
      requires Valid()
      ensures s == Loaded(lib, file)
      ensures s.Some? ==> Bare(lib, s.value.deployments) && AllStored(lib, s.value) && NoCollision(s.value.deployments) && Filed(s.value.history)
    {
      hide Normalized, Checked, NoCollision, Filed, Bare, AllStored;
      if Loaded(lib, file).Some? {
        LoadedIsSane(lib, file);
        BareIsRefiled(lib, Loaded(lib, file).value.deployments);
      }
      if file.None? {
        return Some(EMPTY);
      }
      var n := NormalizeSnapshot(lib, file.value);
      return Checked(lib, n);
    }

    method Write(s: Snapshot) returns (ok: bool)
      requires Valid() && NoCollision(s.deployments) && Filed(s.history)
      modifies this
      ensures Valid() && ok == Writing(lib, s).Some?
      ensures file == if ok then Writing(lib, s) else old(file)
    {
      hide Normalized, Checked, NoCollision, Filed;
      var n := NormalizeSnapshot(lib, s);
      var checked := Checked(lib, n);
      if checked.None? {
        return false;
      }
      WritingIsSane(lib, s);
      file := checked;
      return true;
    }

    /** Writes the snapshot that one event made of the loaded one. */
    method Store(s: Snapshot, ghost e: Event, m: Snapshot) returns (ok: bool)
      requires Valid() && !e.Import? && Loaded(lib, file) == Some(s)
      requires NoCollision(s.deployments) && Changed(lib, s, e) == Some(m)
      modifies this
      ensures Valid() && ok == Outcome(lib, old(file), e).Some?
      ensures file == After(lib, old(file), e)
    {
      hide Changed, Loaded, Writing, NoCollision, Filed, Bare, AllStored;
      LoadedIsSane(lib, file);
      ChangedIsBare(lib, s, e);
      ChangedIsFiled(lib, s, e);
      ok := Write(m);
    }

    method PublishRelease(deployment: Deployment, at: Time, id: string) returns (published: Option<Deployment>)
      requires Valid()
      modifies this
      ensures Valid() && file == After(lib, old(file), Publish(deployment, at, id))
      ensures published == if Outcome(lib, old(file), Publish(deployment, at, id)).Some? then Prepared(lib, deployment, at) else None
    {
      hide Loaded, Writing, NoCollision, Filed, Bare, AllStored, Prepared, KeyOf;
      ghost var e := Publish(deployment, at, id);
      var snapshot := Load();
      if snapshot.None? {
        return None;
      }
      var s := snapshot.value;
      var prepared := Prepared(lib, deployment, at);
      if prepared.None? {
        return None;
      }
      var d := prepared.value;
      var key := KeyOf(d);
      var history := NewEntry(d, at, id);
      var m := s.(deployments := s.deployments[key := d], active := s.active[key := id], history := s.history + [history]);
      m := m.(audit := m.audit + [Audit(id, history.workspace, history.gitSourceID, history.app, "release_published", "system", at)]);
      m := m.(markers := m.markers[Key(history.workspace, history.gitSourceID) := Marker(history.workspace, history.gitSourceID, d.commit, at)]);
      var ok := Store(s, e, m);
      return if ok then Some(d) else None;
    }

    method RollbackRelease(request: Rollback, auditID: string) returns (target: Option<Entry>)
      requires Valid()
      modifies this
      ensures Valid() && file == After(lib, old(file), Revert(request, auditID))
      ensures target.Some? == Outcome(lib, old(file), Revert(request, auditID)).Some?
      ensures target.Some? ==> target == Requested(Loaded(lib, old(file)).value.history, request)
    {
      hide Loaded, Writing, NoCollision, Filed, Bare, AllStored, Normalized, RolledBack, Requested;
      ghost var e := Revert(request, auditID);
      var snapshot := Load();
      if snapshot.None? {
        return None;
      }
      var s := snapshot.value;
      NormalizedHistoryStays(lib, s);
      var n := NormalizeSnapshot(lib, s);
      var m;
      m, target := ApplyReleaseRollback(n, request, auditID);
      if m.None? {
        return None;
      }
      var ok := Store(s, e, m.value);
      if !ok {
        return None;
      }
    }

    /** SetInitialAppRoutingPolicy */
    method SetInitialAppRoutingPolicy(workspace: string, app: string, patch: Patch, now: Time) returns (policy: Option<Policy>)
      requires Valid()
      modifies this
      ensures Valid() && file == After(lib, old(file), PlaceInitially(workspace, app, patch, now))
      ensures policy.Some? == Outcome(lib, old(file), PlaceInitially(workspace, app, patch, now)).Some?
      ensures policy.Some? ==> policy.value == Patched(BasePolicy(Loaded(lib, old(file)).value, workspace, app), "", patch, now)
    {
      hide Loaded, Writing, NoCollision, Filed, Bare, AllStored, NormalizeWorkspace, Patched, BasePolicy;
      ghost var e := PlaceInitially(workspace, app, patch, now);
      var snapshot := Load();
      if snapshot.None? {
        return None;
      }
      var s := snapshot.value;
      var patched := ApplyRoutingPolicyPatch(BasePolicy(s, workspace, app), "", patch, now);
      var ok := Store(s, e, s.(policies := s.policies[Key(NormalizeWorkspace(workspace), app) := patched]));
      return if ok then Some(patched) else None;
    }

    method SetAppRoutingPolicy(workspace: string, app: string, patch: Patch, now: Time, auditID: string) returns (placed: Option<Deployment>)
      requires Valid()
      modifies this
      ensures Valid() && file == After(lib, old(file), PlaceApp(workspace, app, patch, now, auditID))
      ensures placed.Some? == Outcome(lib, old(file), PlaceApp(workspace, app, patch, now, auditID)).Some?
      ensures placed.Some? ==>
                var s := Loaded(lib, old(file)).value;
                var key := Key(NormalizeWorkspace(workspace), app);
                key in s.deployments && placed.value == Applied(s.deployments[key], Patched(BasePolicy(s, workspace, app), "", patch, now))
    {
      hide Loaded, Writing, NoCollision, Filed, Bare, AllStored, NormalizeWorkspace, Patched, BasePolicy, Applied, PlacementAudit;
      ghost var e := PlaceApp(workspace, app, patch, now, auditID);
      var snapshot := Load();
      if snapshot.None? {
        return None;
      }
      var s := snapshot.value;
      var key := Key(NormalizeWorkspace(workspace), app);
      if key !in s.deployments {
        return None;
      }
      var deployment := s.deployments[key];
      var policy := ApplyRoutingPolicyPatch(BasePolicy(s, workspace, app), "", patch, now);
      var ok := Store(s, e, s.(policies := s.policies[key := policy], audit := s.audit + [PlacementAudit(deployment, patch, now, auditID)]));
      if !ok {
        return None;
      }
      var applied := ApplyRoutingPolicy(deployment, policy);
      return Some(applied);
    }

    method SetActionRoutingPolicy(workspace: string, app: string, action: string, patch: Patch, now: Time, auditID: string) returns (placed: Option<Action>)
      requires Valid()
      modifies this
      ensures Valid() && file == After(lib, old(file), PlaceAction(workspace, app, action, patch, now, auditID))
      ensures placed.Some? == Outcome(lib, old(file), PlaceAction(workspace, app, action, patch, now, auditID)).Some?
      ensures placed.Some? ==>
                var s := Loaded(lib, old(file)).value;
                var key := Key(NormalizeWorkspace(workspace), app);
                && key in s.deployments && action in s.deployments[key].actions
                && placed.value == Applied(s.deployments[key], Patched(BasePolicy(s, workspace, app), action, patch, now)).actions[action]
    {
      hide Loaded, Writing, NoCollision, Filed, Bare, AllStored, NormalizeWorkspace, Patched, BasePolicy, PlacementAudit, Normalize;
      ghost var e := PlaceAction(workspace, app, action, patch, now, auditID);
      var snapshot := Load();
      if snapshot.None? {
        return None;
      }
      var s := snapshot.value;
      var key := Key(NormalizeWorkspace(workspace), app);
      if key !in s.deployments || action !in s.deployments[key].actions {
        return None;
      }
      var deployment := s.deployments[key];
      var policy := ApplyRoutingPolicyPatch(BasePolicy(s, workspace, app), action, patch, now);
      var ok := Store(s, e, s.(policies := s.policies[key := policy], audit := s.audit + [PlacementAudit(deployment, patch, now, auditID)]));
      if !ok {
        return None;
      }
      var applied := ApplyRoutingPolicy(deployment, policy);
      return Some(applied.actions[action]);
    }

    method GetRoutingPolicy(workspace: string, app: string) returns (policy: Option<Policy>)
      requires Valid()
      ensures policy == match Loaded(lib, file)
                        case None => None
                        case Some(s) => Some(View(s, Key(NormalizeWorkspace(workspace), app)))
    {
      hide Loaded, NoCollision, Filed, Bare, AllStored, Normalize, NewPolicy;
      var snapshot := Load();
      if snapshot.None? {
        return None;
      }
      var key := Key(NormalizeWorkspace(workspace), app);
      NewPolicyNormalizes(workspace, app);
      var stored := if key in snapshot.value.policies then snapshot.value.policies[key] else NewPolicy(workspace, app);
      var r := NormalizeRoutingPolicy(stored);
      return Some(r);
    }

    method ImportCatalog(imported: Snapshot) returns (ok: bool)
      requires Valid() && Sane(Some(imported))
      modifies this
      ensures Valid() && ok == Imported(lib, old(file), imported).Some?
      ensures file == After(lib, old(file), Import(imported))
    {
      hide Writing, NoCollision, Filed, Bare, AllStored, Normalized, Checked, Joined, Loaded, AllValid;
      var n := NormalizeSnapshot(lib, imported);
      var checked := Checked(lib, n);
      if checked.None? {
        return false;
      }
      var snapshot := Load();
      if snapshot.None? {
        return false;
      }
      CheckedIsFiled(lib, imported);
      MergedIsWritable(lib, snapshot.value, checked.value);
      var m := MergeSnapshot(lib, snapshot.value, checked.value);
      ok := Write(m);
    }
  }

  lemma NewPolicyNormalizes(workspace: string, app: string)
    ensures NewPolicy(workspace, app) == NewPolicy(NormalizeWorkspace(workspace), app)
  {
    NormalizeWorkspaceTwice(workspace);
    hide NormalizeWorkspace;
  }

  lemma CheckedIsFiled(lib: Library, s: Snapshot)
    requires lib.Valid() && NoCollision(s.deployments) && Filed(s.history) && Checked(lib, Normalized(lib, s)).Some?
    ensures var i := Checked(lib, Normalized(lib, s)).value; Bare(lib, i.deployments) && NoCollision(i.deployments) && Filed(i.history)
  {
    hide Normalized, Checked, AllValid, Filed, Bare;
    WritingIsNormalized(lib, s);
    NormalizedIsFiled(lib, s);
  }

  lemma MergedIsWritable(lib: Library, t: Snapshot, i: Snapshot)
    requires lib.Valid() && NoCollision(t.deployments) && NoCollision(i.deployments) && Filed(t.history) && Filed(i.history)
    ensures NoCollision(Merged(lib, t, i).deployments) && Filed(Merged(lib, t, i).history)
  {
    hide Normalized, Filed, Bare, Joined;
    NormalizedIsBare(lib, t);
    NormalizedIsBare(lib, i);
    JoinedIsBare(lib, Normalized(lib, t), Normalized(lib, i));
    NormalizedIsFiled(lib, t);
    NormalizedIsFiled(lib, i);
    JoinedIsFiled(Normalized(lib, t), Normalized(lib, i));
  }

  /** The release that a rollback asks for: the first entry of its workspace and app with its id. */
  ghost function Requested(history: seq<Entry>, request: Rollback): Option<Entry> {
    Release(history, Key(NormalizeWorkspace(request.workspace), Text.TrimSpace(request.app)), Text.TrimSpace(request.releaseID), 0)
  }

  /** The rollback of a snapshot that has just been normalized. */
  method ApplyReleaseRollback(n: Snapshot, request: Rollback, auditID: string) returns (m: Option<Snapshot>, target: Option<Entry>)
    ensures m == RolledBack(n, request, auditID) && (target.Some? <==> m.Some?)
    ensures target.Some? ==>
              && target.value in n.history && target.value.id == Text.TrimSpace(request.releaseID)
              && target == Requested(n.history, request)
  {
    hide NormalizeWorkspace, Text.TrimSpace, Release, PreparedRollback, SwitchedTo;
    target := None;
    var prepared := PreparedRollback(request);
    if prepared.None? {
      return None, None;
    }
    var r := prepared.value;
    var found := FindRelease(n.history, r.workspace, r.app, r.releaseID);
    if found.None? {
      return None, None;
    }
    if Lookup(n.active, Key(NormalizeWorkspace(r.workspace), r.app)) == Some(found.value.id) {
      return None, None;
    }
    ghost var i := ReleaseIsEntry(n.history, Key(NormalizeWorkspace(r.workspace), Text.TrimSpace(r.app)), Text.TrimSpace(r.releaseID), 0);
    PreparedRollbackIsNormal(request);
    return Some(SwitchedTo(n, found.value, r, auditID)), found;
  }
}
