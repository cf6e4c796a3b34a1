/**
 Loading, writing and importing catalogs: everything that can be activated is checked at the
 boundary, existing entries win, and importing twice persists what importing once does.
 */
module CatalogImports {
  import opened Options
  import opened RoutingPolicies
  import opened Snapshots
  import opened CatalogMigration
  import Text

  // ----- Checking interfaces at the boundary

  function Canonical(lib: Library, d: Deployment): Deployment {
    match NormalizeInterfaces(lib, d) case Some(n) => n case None => d
  }

  /** Every deployment that may be activated, rolled back to or published has valid interfaces. */
  predicate AllValid(lib: Library, s: Snapshot) {
    && (forall k | k in s.deployments :: NormalizeInterfaces(lib, s.deployments[k]).Some?)
    && (forall k | k in s.candidates :: NormalizeInterfaces(lib, s.candidates[k].deployment).Some?)
    && (forall i | 0 <= i < |s.history| :: NormalizeInterfaces(lib, s.history[i].deployment).Some?)
  }

  /** NormalizeSnapshotPublicInterfaces */
  function Checked(lib: Library, s: Snapshot): Option<Snapshot> {
    if !AllValid(lib, s) then None
    else
      Some(s.(deployments := map k | k in s.deployments :: Canonical(lib, s.deployments[k]),
              candidates := map k | k in s.candidates :: s.candidates[k].(deployment := Canonical(lib, s.candidates[k].deployment)),
              history := seq(|s.history|, i requires 0 <= i < |s.history| => s.history[i].(deployment := Canonical(lib, s.history[i].deployment)))))
  }

  /** Every deployment in the snapshot is stored. */
  ghost predicate AllStored(lib: Library, s: Snapshot) {
    && (forall k | k in s.deployments :: Stored(lib, s.deployments[k]) == s.deployments[k])
    && (forall k | k in s.candidates :: Stored(lib, s.candidates[k].deployment) == s.candidates[k].deployment)
    && (forall i | 0 <= i < |s.history| :: Stored(lib, s.history[i].deployment) == s.history[i].deployment)
  }

  lemma CanonicalStored(lib: Library, d: Deployment)
    requires lib.Valid() && Stored(lib, d) == d
    ensures Canonical(lib, d) == d
  {
    hide Stored;
    if NormalizeInterfaces(lib, d).Some? {
      StoredIsCanonical(lib, d);
    }
  }

  /** On stored deployments the check passes or fails, but rewrites nothing. */
  lemma CheckedStored(lib: Library, s: Snapshot)
    requires lib.Valid() && AllStored(lib, s)
    ensures Checked(lib, s) == if AllValid(lib, s) then Some(s) else None
  {
    forall k | k in s.deployments
      ensures Canonical(lib, s.deployments[k]) == s.deployments[k]
    {
      CanonicalStored(lib, s.deployments[k]);
    }
    forall k | k in s.candidates
      ensures Canonical(lib, s.candidates[k].deployment) == s.candidates[k].deployment
    {
      CanonicalStored(lib, s.candidates[k].deployment);
    }
    forall i | 0 <= i < |s.history|
      ensures Canonical(lib, s.history[i].deployment) == s.history[i].deployment
    {
      CanonicalStored(lib, s.history[i].deployment);
    }
    hide Canonical, Stored, NormalizeInterfaces;
    if AllValid(lib, s) {
      var r := Checked(lib, s).value;
      assert r.deployments == s.deployments && r.candidates == s.candidates && r.history == s.history;
    }
  }

  lemma NormalizedIsStored(lib: Library, s: Snapshot)
    requires lib.Valid() && NoCollision(s.deployments)
    ensures AllStored(lib, Normalized(lib, s))
  {
    NormalizedIsBare(lib, s);
    hide Stored, Stripped, NormalKey, Refiled, MigratedPolicies, Backfilled, StrippedAll;
    var n := Normalized(lib, s);
    forall k | k in n.deployments
      ensures Stored(lib, n.deployments[k]) == n.deployments[k]
    {
      assert BareAt(lib, k, n.deployments[k]);
    }
    forall k | k in n.candidates
      ensures Stored(lib, n.candidates[k].deployment) == n.candidates[k].deployment
    {
      StoredTwice(lib, s.candidates[k].deployment);
    }
    forall i | 0 <= i < |n.history|
      ensures Stored(lib, n.history[i].deployment) == n.history[i].deployment
    {
      StoredTwice(lib, s.history[i].deployment);
    }
  }

  // ----- The file

  ghost predicate Readable(file: Option<Snapshot>) { file.Some? ==> NoCollision(file.value.deployments) }

  /** Load: a missing file is an empty catalog. */
  ghost function Loaded(lib: Library, file: Option<Snapshot>): Option<Snapshot>
    requires Readable(file)
  {
    match file
    case None => Some(EMPTY)
    case Some(s) => Checked(lib, Normalized(lib, s))
  }

  /** write: what the file holds afterwards, if it is written. */
  ghost function Writing(lib: Library, s: Snapshot): Option<Snapshot>
    requires NoCollision(s.deployments)
  {
    Checked(lib, Normalized(lib, s))
  }

  // ----- Merging

  ghost predicate HasId<T>(id: T -> string, s: seq<T>, x: string) { exists i | 0 <= i < |s| :: id(s[i]) == x }

  ghost function MergeById<T>(id: T -> string, have: seq<T>, more: seq<T>): seq<T>
    decreases |more|
  {
    if more == [] then have
    else MergeById(id, if HasId(id, have, id(more[0])) then have else have + [more[0]], more[1..])
  }

  method MergeRecords<T>(id: T -> string, have: seq<T>, more: seq<T>) returns (r: seq<T>)
    ensures r == MergeById(id, have, more)
  {
    r := have;
    var ids := {};
    for i := 0 to |have|
      invariant forall x :: x in ids <==> HasId(id, have[..i], x)
    {
      ids := ids + {id(have[i])};
      HasIdSnoc(id, have[..i], have[i]);
      assert have[..i + 1] == have[..i] + [have[i]];
    }
    assert have[..|have|] == have;
    assert more[0..] == more;
    for i := 0 to |more|
      invariant forall x :: x in ids <==> HasId(id, r, x)
      invariant MergeById(id, r, more[i..]) == MergeById(id, have, more)
    {
      assert more[i..][0] == more[i] && more[i..][1..] == more[i + 1..];
      if id(more[i]) !in ids {
        HasIdSnoc(id, r, more[i]);
        r := r + [more[i]];
        ids := ids + {id(more[i])};
      }
    }
  }

  lemma HasIdSnoc<T>(id: T -> string, s: seq<T>, t: T)
    ensures forall x :: HasId(id, s + [t], x) <==> HasId(id, s, x) || x == id(t)
  {
    var r := s + [t];
    assert r[|s|] == t;
    forall x
      ensures HasId(id, r, x) <==> HasId(id, s, x) || x == id(t)
    {
      if HasId(id, s, x) {
        var i :| 0 <= i < |s| && id(s[i]) == x;
        assert r[i] == s[i];
      }
    }
  }

  /** Merging keeps what was there as a prefix and covers every imported id. */
  lemma {:induction false} MergeByIdKeeps<T>(id: T -> string, have: seq<T>, more: seq<T>)
    ensures have <= MergeById(id, have, more)
    ensures forall x | HasId(id, more, x) :: HasId(id, MergeById(id, have, more), x)
    decreases |more|
  {
    if more != [] {
      var next := if HasId(id, have, id(more[0])) then have else have + [more[0]];
      MergeByIdKeeps(id, next, more[1..]);
      HasIdSnoc(id, have, more[0]);
      var r := MergeById(id, have, more);
      forall x | HasId(id, more, x)
        ensures HasId(id, r, x)
      {
        if x == id(more[0]) {
          PrefixHasId(id, next, r, x);
        } else {
          var i :| 0 <= i < |more| && id(more[i]) == x;
          assert more[1..][i - 1] == more[i];
          assert HasId(id, more[1..], x);
        }
      }
    }
  }

  lemma PrefixHasId<T>(id: T -> string, s: seq<T>, t: seq<T>, x: string)
    requires s <= t && HasId(id, s, x)
    ensures HasId(id, t, x)
  {
    var i :| 0 <= i < |s| && id(s[i]) == x;
    assert t[i] == s[i];
  }

  /** When every id is known already, nothing is merged. */
  lemma {:induction false} MergeByIdNothing<T>(id: T -> string, have: seq<T>, more: seq<T>)
    requires forall x | HasId(id, more, x) :: HasId(id, have, x)
    ensures MergeById(id, have, more) == have
    decreases |more|
  {
    if more != [] {
      assert id(more[0]) == id(more[0]) && HasId(id, more, id(more[0]));
      forall x | HasId(id, more[1..], x)
        ensures HasId(id, have, x)
      {
        var i :| 0 <= i < |more[1..]| && id(more[1..][i]) == x;
        assert more[i + 1] == more[1..][i];
        assert HasId(id, more, x);
      }
      MergeByIdNothing(id, have, more[1..]);
    }
  }

  const ENTRY_ID: Entry -> string := (e: Entry) => e.id
  const AUDIT_ID: Audit -> string := (a: Audit) => a.id

  ghost function NormalizedPolicies(policies: map<Key, Policy>): map<Key, Policy> {
    map k | k in policies :: Normalize(policies[k])
  }

  /** Two normalized snapshots in one: existing entries win. */
  ghost function Joined(t: Snapshot, i: Snapshot): Snapshot {
    Snapshot(i.deployments + t.deployments,
             NormalizedPolicies(i.policies) + t.policies,
             i.active + t.active,
             i.candidates + t.candidates,
             MergeById(ENTRY_ID, t.history, i.history),
             MergeById(AUDIT_ID, t.audit, i.audit),
             i.markers + t.markers)
  }

  ghost function Merged(lib: Library, target: Snapshot, imported: Snapshot): Snapshot
    requires NoCollision(target.deployments) && NoCollision(imported.deployments)
  {
    Joined(Normalized(lib, target), Normalized(lib, imported))
  }

  method MergeMap<K, V>(target: map<K, V>, imported: map<K, V>) returns (r: map<K, V>)
    ensures r == imported + target
  {
    r := target;
    var keys := imported.Keys;
    while keys != {}
      invariant keys <= imported.Keys
      invariant r.Keys == target.Keys + (imported.Keys - keys)
      invariant forall k | k in r :: r[k] == if k in target then target[k] else imported[k]
      decreases |keys|
    {
      var k :| k in keys;
      keys := keys - {k};
      if k !in r {
        r := r[k := imported[k]];
      }
    }
  }

  method NormalizePolicies(imported: map<Key, Policy>) returns (r: map<Key, Policy>)
    ensures r == NormalizedPolicies(imported)
  {
    hide Normalize;
    r := map[];
    var keys := imported.Keys;
    while keys != {}
      invariant keys <= imported.Keys && r.Keys == imported.Keys - keys
      invariant forall k | k in r :: r[k] == Normalize(imported[k])
      decreases |keys|
    {
      var k :| k in keys;
      keys := keys - {k};
      var policy := NormalizeRoutingPolicy(imported[k]);
      r := r[k := policy];
    }
  }

  method MergeSnapshot(lib: Library, target: Snapshot, imported: Snapshot) returns (r: Snapshot)
    requires NoCollision(target.deployments) && NoCollision(imported.deployments)
    ensures r == Merged(lib, target, imported)
  {
    hide Normalized, MergeById, NormalizedPolicies;
    var t := NormalizeSnapshot(lib, target);
    var i := NormalizeSnapshot(lib, imported);
    var deployments := MergeMap(t.deployments, i.deployments);
    var normalized := NormalizePolicies(i.policies);
    var policies := MergeMap(t.policies, normalized);
    var active := MergeMap(t.active, i.active);
    var candidates := MergeMap(t.candidates, i.candidates);
    var history := MergeRecords(ENTRY_ID, t.history, i.history);
    var audit := MergeRecords(AUDIT_ID, t.audit, i.audit);
    var markers := MergeMap(t.markers, i.markers);
    return Snapshot(deployments, policies, active, candidates, history, audit, markers);
  }

  // ----- Import

  lemma NormalizedHasNoCollision(lib: Library, s: Snapshot)
    requires lib.Valid() && NoCollision(s.deployments)
    ensures NoCollision(Normalized(lib, s).deployments)
  {
    hide Normalized;
    NormalizedIsBare(lib, s);
    BareIsRefiled(lib, Normalized(lib, s).deployments);
  }

  /** A loaded, written or checked snapshot is a normalized one that passed the check. */
  lemma WritingIsNormalized(lib: Library, s: Snapshot)
    requires lib.Valid() && NoCollision(s.deployments)
    ensures Writing(lib, s) == if AllValid(lib, Normalized(lib, s)) then Some(Normalized(lib, s)) else None
    ensures NoCollision(Normalized(lib, s).deployments) && Bare(lib, Normalized(lib, s).deployments)
  {
    hide Normalized, Checked, AllValid, AllStored;
    NormalizedHasNoCollision(lib, s);
    NormalizedIsBare(lib, s);
    NormalizedIsStored(lib, s);
    CheckedStored(lib, Normalized(lib, s));
  }

  lemma JoinedIsBare(lib: Library, t: Snapshot, i: Snapshot)
    requires Bare(lib, t.deployments) && Bare(lib, i.deployments)
    ensures Bare(lib, Joined(t, i).deployments) && NoCollision(Joined(t, i).deployments)
  {
    hide BareAt, MergeById, NormalizedPolicies;
    BareIsRefiled(lib, Joined(t, i).deployments);
  }

  lemma LoadedIsBare(lib: Library, file: Option<Snapshot>)
    requires lib.Valid() && Readable(file) && Loaded(lib, file).Some?
    ensures Bare(lib, Loaded(lib, file).value.deployments) && NoCollision(Loaded(lib, file).value.deployments)
  {
    hide Normalized, Checked, BareAt;
    if file.Some? {
      WritingIsNormalized(lib, file.value);
    } else {
      BareIsRefiled(lib, EMPTY.deployments);
    }
  }

  /** What the file holds after an import; None when the import fails and the file is left alone. */
  ghost function Imported(lib: Library, file: Option<Snapshot>, imported: Snapshot): Option<Snapshot>
    requires lib.Valid() && Readable(file) && NoCollision(imported.deployments)
  {
    match Checked(lib, Normalized(lib, imported))
    case None => None
    case Some(i) =>
      match Loaded(lib, file)
      case None => None
      case Some(target) =>
        WritingIsNormalized(lib, imported);
        LoadedIsBare(lib, file);
        NormalizedIsBare(lib, target);
        NormalizedIsBare(lib, i);
        JoinedIsBare(lib, Normalized(lib, target), Normalized(lib, i));
        Writing(lib, Merged(lib, target, i))
  }

  lemma MapAbsorbs<K, V>(t: map<K, V>, i: map<K, V>)
    requires i.Keys <= t.Keys
    ensures i + t == t
  {
  }

  /** Everything the second snapshot would add is in the first. */
  ghost predicate Holds(t: Snapshot, i: Snapshot) {
    && i.deployments.Keys <= t.deployments.Keys && i.policies.Keys <= t.policies.Keys && i.active.Keys <= t.active.Keys
    && i.candidates.Keys <= t.candidates.Keys && i.markers.Keys <= t.markers.Keys
    && (forall x | HasId(ENTRY_ID, i.history, x) :: HasId(ENTRY_ID, t.history, x))
    && (forall x | HasId(AUDIT_ID, i.audit, x) :: HasId(AUDIT_ID, t.audit, x))
  }

  lemma JoinedHolds(t: Snapshot, i: Snapshot)
    ensures Holds(Joined(t, i), i)
  {
    hide MergeById, HasId, NormalizedPolicies;
    MergeByIdKeeps(ENTRY_ID, t.history, i.history);
    MergeByIdKeeps(AUDIT_ID, t.audit, i.audit);
    assert NormalizedPolicies(i.policies).Keys == i.policies.Keys by { NormalizedPoliciesKeys(i.policies); }
  }

  ghost predicate Prefers<K, V>(joined: map<K, V>, target: map<K, V>, imported: map<K, V>) {
    && joined.Keys == target.Keys + imported.Keys
    && (forall k | k in target :: joined[k] == target[k])
    && (forall k | k in imported && k !in target :: joined[k] == imported[k])
  }

  /** Of the records to add, the i-th is the first with its id. */
  ghost predicate NewAt<T>(id: T -> string, have: seq<T>, more: seq<T>, i: int) {
    0 <= i < |more| && !HasId(id, have, id(more[i])) && !HasId(id, more[..i], id(more[i]))
  }

  /** What one more record at the front makes of the ones behind it. */
  lemma NewBehind<T>(id: T -> string, have: seq<T>, more: seq<T>, i: int)
    requires more != [] && 1 <= i < |more|
    ensures var next := if HasId(id, have, id(more[0])) then have else have + [more[0]];
            NewAt(id, have, more, i) <==> NewAt(id, next, more[1..], i - 1)
  {
    var x, rest := id(more[i]), more[1..];
    assert rest[i - 1] == more[i] && more[..i] == [more[0]] + rest[..i - 1];
    HasIdSnoc(id, have, more[0]);
    if HasId(id, more[..i], x) {
      var j :| 0 <= j < i && id(more[..i][j]) == x;
      if j > 0 {
        assert rest[..i - 1][j - 1] == more[..i][j];
      }
    }
    if HasId(id, rest[..i - 1], x) {
      var j :| 0 <= j < i - 1 && id(rest[..i - 1][j]) == x;
      assert more[..i][j + 1] == rest[..i - 1][j];
    }
    if id(more[0]) == x {
      assert more[..i][0] == more[0];
    }
  }

  ghost function NewOnes<T>(id: T -> string, have: seq<T>, more: seq<T>, n: nat): seq<T>
    requires n <= |more|
  {
    if n == 0 then [] else NewOnes(id, have, more, n - 1) + if NewAt(id, have, more, n - 1) then [more[n - 1]] else []
  }

  lemma {:induction false} NewOnesBehind<T>(id: T -> string, have: seq<T>, more: seq<T>, n: nat)
    requires 1 <= n <= |more|
    ensures var next := if HasId(id, have, id(more[0])) then have else have + [more[0]];
            have + NewOnes(id, have, more, n) == next + NewOnes(id, next, more[1..], n - 1)
    decreases n
  {
    hide HasId;
    if n == 1 {
      NothingBefore(id, more);
      assert NewOnes(id, have, more, 0) == [];
    } else {
      NewOnesBehind(id, have, more, n - 1);
      NewBehind(id, have, more, n - 1);
      hide NewAt;
      var next := if HasId(id, have, id(more[0])) then have else have + [more[0]];
      var last := if NewAt(id, have, more, n - 1) then [more[n - 1]] else [];
      assert NewOnes(id, next, more[1..], n - 1) == NewOnes(id, next, more[1..], n - 2) + last;
      Regrouped(have, NewOnes(id, have, more, n - 1), last);
      Regrouped(next, NewOnes(id, next, more[1..], n - 2), last);
    }
  }

  lemma Regrouped<T>(a: seq<T>, b: seq<T>, c: seq<T>)
    ensures (a + b) + c == a + (b + c)
  {
  }

  lemma NothingBefore<T>(id: T -> string, more: seq<T>)
    ensures forall x :: !HasId(id, more[..0], x)
  {
  }

  /** Merging appends, in their order, exactly the records whose id is new, of several the first. */
  lemma {:induction false} MergeByIdExactly<T>(id: T -> string, have: seq<T>, more: seq<T>)
    ensures MergeById(id, have, more) == have + NewOnes(id, have, more, |more|)
    decreases |more|
  {
    hide HasId, NewAt;
    if more == [] {
      assert have + NewOnes(id, have, more, 0) == have;
    } else {
      NewOnesBehind(id, have, more, |more|);
      MergeByIdExactly(id, if HasId(id, have, id(more[0])) then have else have + [more[0]], more[1..]);
    }
  }

  /** What joining means: the target's entries where it has some, and everything else that the import has. */
  lemma JoinedMeans(t: Snapshot, i: Snapshot)
    ensures var j := Joined(t, i);
            && Prefers(j.deployments, t.deployments, i.deployments) && Prefers(j.policies, t.policies, NormalizedPolicies(i.policies))
            && Prefers(j.active, t.active, i.active) && Prefers(j.candidates, t.candidates, i.candidates) && Prefers(j.markers, t.markers, i.markers)
            && j.history == t.history + NewOnes(ENTRY_ID, t.history, i.history, |i.history|)
            && j.audit == t.audit + NewOnes(AUDIT_ID, t.audit, i.audit, |i.audit|)
  {
    hide MergeById, NewOnes, NormalizedPolicies;
    MergeByIdExactly(ENTRY_ID, t.history, i.history);
    MergeByIdExactly(AUDIT_ID, t.audit, i.audit);
  }

  lemma NormalizedPoliciesKeys(policies: map<Key, Policy>)
    ensures NormalizedPolicies(policies).Keys == policies.Keys
    ensures forall k | k in policies :: NormalizedPolicies(policies)[k] == Normalize(policies[k])
  {
    hide Normalize;
  }

  lemma JoinedAbsorbs(t: Snapshot, i: Snapshot)
    requires Holds(t, i)
    ensures Joined(t, i) == t
  {
    hide MergeById, HasId, NormalizedPolicies;
    NormalizedPoliciesKeys(i.policies);
    MapAbsorbs(t.deployments, i.deployments);
    MapAbsorbs(t.policies, NormalizedPolicies(i.policies));
    MapAbsorbs(t.active, i.active);
    MapAbsorbs(t.candidates, i.candidates);
    MapAbsorbs(t.markers, i.markers);
    MergeByIdNothing(ENTRY_ID, t.history, i.history);
    MergeByIdNothing(AUDIT_ID, t.audit, i.audit);
  }

  lemma PolicyKeysStay(m: map<Key, Deployment>, policies: map<Key, Policy>)
    ensures policies.Keys <= MigratedPolicies(m, policies).Keys
  {
    hide MigratedPolicies, Extracted, Empty;
    forall k | k in policies
      ensures k in MigratedPolicies(m, policies)
    {
      MigratedAt(m, policies, k);
    }
  }

  lemma ActiveKeysStay(m: map<Key, Deployment>, active: map<Key, string>, history: seq<Entry>)
    ensures active.Keys <= Backfilled(m, active, history).Keys
  {
    hide Backfilled, Newest, BlankAt;
    forall k | k in active
      ensures k in Backfilled(m, active, history)
    {
      BackfilledAt(m, active, history, k);
    }
  }

  lemma NormalizedKeys(lib: Library, s: Snapshot)
    requires Bare(lib, s.deployments)
    ensures NoCollision(s.deployments)
    ensures var n := Normalized(lib, s);
            && n.deployments == s.deployments && n.candidates.Keys == s.candidates.Keys
            && s.policies.Keys <= n.policies.Keys && s.active.Keys <= n.active.Keys
            && n.history == StoredHistory(lib, s.history) && n.audit == s.audit && n.markers == s.markers
  {
    hide MigratedPolicies, Backfilled, Refiled, StrippedAll, StoredHistory, StoredCandidates, Bare;
    BareIsRefiled(lib, s.deployments);
    PolicyKeysStay(s.deployments, s.policies);
    ActiveKeysStay(s.deployments, s.active, StoredHistory(lib, s.history));
    CandidateKeysStay(lib, s.candidates);
  }

  lemma CandidateKeysStay(lib: Library, candidates: map<string, Candidate>)
    ensures StoredCandidates(lib, candidates).Keys == candidates.Keys
  {
    hide Stored;
  }

  /** Normalization loses no key and no id. */
  lemma NormalizedHolds(lib: Library, s: Snapshot, i: Snapshot)
    requires Bare(lib, s.deployments) && Holds(s, i)
    ensures NoCollision(s.deployments) && Holds(Normalized(lib, s), i)
  {
    hide Normalized, Bare, HasId, StoredHistory;
    NormalizedKeys(lib, s);
    SameIds(lib, s.history);
  }

  lemma SameIds(lib: Library, history: seq<Entry>)
    ensures forall x | HasId(ENTRY_ID, history, x) :: HasId(ENTRY_ID, StoredHistory(lib, history), x)
  {
    hide Stored;
    forall x | HasId(ENTRY_ID, history, x)
      ensures HasId(ENTRY_ID, StoredHistory(lib, history), x)
    {
      var i :| 0 <= i < |history| && ENTRY_ID(history[i]) == x;
      assert ENTRY_ID(StoredHistory(lib, history)[i]) == x;
    }
  }

  /** Importing a catalog a second time changes nothing. */
  lemma ImportTwice(lib: Library, file: Option<Snapshot>, imported: Snapshot)
    requires lib.Valid() && Readable(file) && NoCollision(imported.deployments)
    requires Imported(lib, file, imported).Some?
    ensures Readable(Imported(lib, file, imported))
    ensures Imported(lib, Imported(lib, file, imported), imported) == Imported(lib, file, imported)
  {
    hide Normalized, Checked, AllValid, Joined, Holds, BareAt;
    WritingIsNormalized(lib, imported);
    LoadedIsBare(lib, file);
    var i, target := Normalized(lib, imported), Loaded(lib, file).value;
    NormalizedIsBare(lib, target);
    NormalizedIsBare(lib, i);
    var second := Normalized(lib, i);
    JoinedIsBare(lib, Normalized(lib, target), second);
    JoinedHolds(Normalized(lib, target), second);
    var m := Merged(lib, target, i);
    WritingIsNormalized(lib, m);
    NormalizeBareTwice(lib, m);
    NormalizedHolds(lib, m, second);
    var written := Normalized(lib, m);
    WritingIsNormalized(lib, written);
    JoinedAbsorbs(written, second);
  }

  // ----- Existing entries win

  ghost predicate Within<K, V>(a: map<K, V>, b: map<K, V>) { forall k | k in a :: k in b && b[k] == a[k] }

  /** Existing policies keep what they make effective. */
  ghost predicate SameEffect(a: Snapshot, b: Snapshot, k: Key)
    requires k in a.deployments && k in b.deployments
  {
    k in b.policies && Applied(b.deployments[k], PolicyAt(b.policies, k)) == Applied(a.deployments[k], PolicyAt(a.policies, k))
  }

  /** The later snapshot keeps every entry of the earlier one and may have more. */
  ghost predicate Keeps(a: Snapshot, b: Snapshot) {
    && Within(a.deployments, b.deployments) && Within(a.candidates, b.candidates) && Within(a.markers, b.markers)
    && (forall k | k in a.active && !BlankAt(a.active, k) :: k in b.active && b.active[k] == a.active[k])
    && a.history <= b.history && a.audit <= b.audit
    && forall k | k in a.deployments && k in a.policies :: SameEffect(a, b, k)
  }

  lemma KeepsOn(a: Snapshot, b: Snapshot, c: Snapshot)
    requires Keeps(a, b) && Keeps(b, c)
    ensures Keeps(a, c)
  {
    hide Applied, Text.TrimSpace;
    forall k | k in a.deployments && k in a.policies
      ensures SameEffect(a, c, k)
    {
      assert SameEffect(a, b, k);
      assert SameEffect(b, c, k);
    }
  }

  lemma JoinedKeeps(t: Snapshot, i: Snapshot)
    ensures Keeps(t, Joined(t, i))
  {
    hide Applied, MergeById, NormalizedPolicies, BlankAt;
    MergeByIdKeeps(ENTRY_ID, t.history, i.history);
    MergeByIdKeeps(AUDIT_ID, t.audit, i.audit);
  }

  lemma HistoryStored(lib: Library, s: Snapshot)
    requires AllStored(lib, s)
    ensures StoredHistory(lib, s.history) == s.history && StoredCandidates(lib, s.candidates) == s.candidates
  {
    hide Stored;
  }

  lemma NormalizedKeeps(lib: Library, s: Snapshot)
    requires lib.Valid() && Bare(lib, s.deployments) && AllStored(lib, s)
    ensures NoCollision(s.deployments) && Keeps(s, Normalized(lib, s))
  {
    hide Stored, Stripped, NormalKey, Applied, Refiled, StrippedAll, MigratedPolicies, Backfilled, Newest, Extracted, Empty, StoredHistory, StoredCandidates;
    BareIsRefiled(lib, s.deployments);
    HistoryStored(lib, s);
    var m, n := s.deployments, Normalized(lib, s);
    forall k | k in m && k in s.policies
      ensures SameEffect(s, n, k)
    {
      assert BareAt(lib, k, m[k]);
      MigrationIsIneffective(m, s.policies, k);
      MigratedAt(m, s.policies, k);
    }
    forall k | k in s.active && !BlankAt(s.active, k)
      ensures k in n.active && n.active[k] == s.active[k]
    {
      BackfilledAt(m, s.active, n.history, k);
      hide BlankAt;
    }
  }

  lemma {:induction false} MergeByIdFrom<T>(id: T -> string, have: seq<T>, more: seq<T>, t: T)
    requires t in MergeById(id, have, more)
    ensures t in have || t in more
    decreases |more|
  {
    hide HasId;
    if more != [] {
      MergeByIdFrom(id, if HasId(id, have, id(more[0])) then have else have + [more[0]], more[1..], t);
    }
  }

  lemma JoinedIsStored(lib: Library, t: Snapshot, i: Snapshot)
    requires AllStored(lib, t) && AllStored(lib, i)
    ensures AllStored(lib, Joined(t, i))
  {
    hide Stored, MergeById, NormalizedPolicies;
    var h := Joined(t, i).history;
    forall j | 0 <= j < |h|
      ensures Stored(lib, h[j].deployment) == h[j].deployment
    {
      assert h[j] in h;
      MergeByIdFrom(ENTRY_ID, t.history, i.history, h[j]);
    }
  }

  lemma LoadedIsStored(lib: Library, file: Option<Snapshot>)
    requires lib.Valid() && Readable(file) && Loaded(lib, file).Some?
    ensures AllStored(lib, Loaded(lib, file).value)
  {
    hide Normalized, Checked, BareAt, Stored;
    if file.Some? {
      WritingIsNormalized(lib, file.value);
      NormalizedIsStored(lib, file.value);
    }
  }

  /** Existing entries win over imported ones. */
  lemma ImportKeeps(lib: Library, file: Option<Snapshot>, imported: Snapshot)
    requires lib.Valid() && Readable(file) && NoCollision(imported.deployments)
    requires Imported(lib, file, imported).Some?
    ensures Keeps(Loaded(lib, file).value, Imported(lib, file, imported).value)
  {
    hide Normalized, Checked, AllValid, Joined, BareAt, Stored, Loaded, AllStored, Keeps;
    WritingIsNormalized(lib, imported);
    LoadedIsBare(lib, file);
    LoadedIsStored(lib, file);
    var i, target := Normalized(lib, imported), Loaded(lib, file).value;
    NormalizedIsBare(lib, target);
    NormalizedIsBare(lib, i);
    var first, second := Normalized(lib, target), Normalized(lib, i);
    JoinedIsBare(lib, first, second);
    NormalizedIsStored(lib, target);
    NormalizedIsStored(lib, i);
    JoinedIsStored(lib, first, second);
    var m := Merged(lib, target, i);
    WritingIsNormalized(lib, m);
    NormalizedKeeps(lib, target);
    JoinedKeeps(first, second);
    NormalizedKeeps(lib, m);
    KeepsOn(target, first, m);
    KeepsOn(target, m, Normalized(lib, m));
  }
}
