/**
 What normalizing, applying and importing snapshots preserve: the effective deployments survive any
 number of passes, two passes are stable, and importing twice is importing once.
 */
module CatalogMigration {
  import opened Options
  import opened RoutingPolicies
  import opened Snapshots
  import Text
  import opened Workspaces

  // ----- Stability of normalization

  ghost predicate BareAt(lib: Library, k: Key, d: Deployment) {
    NormalKey(k, d) == k && Stored(lib, d) == d && Stripped(d) == d
  }

  /** Deployments as normalization leaves them: refiled, stored and stripped. */
  ghost predicate Bare(lib: Library, m: map<Key, Deployment>) {
    forall k | k in m :: BareAt(lib, k, m[k])
  }

  lemma StrippedStoredIsBare(lib: Library, k: Key, d: Deployment)
    requires lib.Valid()
    ensures BareAt(lib, NormalKey(k, d), Stripped(Stored(lib, d)))
  {
    var s := Stored(lib, d);
    StoredKeepsKey(lib, d);
    StoredKeepsKey(lib, s);
    StoredTwice(lib, d);
    StoredStripped(lib, s);
    StrippedTwice(s);
    hide Stored, Stripped, KeyOf;
    assert KeyOf(Stripped(s)) == KeyOf(d);
  }

  lemma NormalizedIsBare(lib: Library, s: Snapshot)
    requires lib.Valid() && NoCollision(s.deployments)
    ensures Bare(lib, Normalized(lib, s).deployments)
  {
    hide NormalKey, Stored, Stripped, BareAt, Refiled, MigratedPolicies, Backfilled, StoredHistory, StoredCandidates;
    var m, refiled := s.deployments, Refiled(lib, s.deployments);
    forall k | k in refiled
      ensures BareAt(lib, k, Stripped(refiled[k]))
    {
      var j :| j in m && NormalKey(j, m[j]) == k;
      StrippedStoredIsBare(lib, j, m[j]);
    }
  }

  lemma BareIsRefiled(lib: Library, m: map<Key, Deployment>)
    requires Bare(lib, m)
    ensures NoCollision(m) && Refiled(lib, m) == m && StrippedAll(m) == m
  {
    hide NormalKey, Stored, Stripped, Refiled;
    assert forall k | k in m :: BareAt(lib, k, m[k]);
    forall a, b
      ensures !Collide(m, a, b)
    {
    }
    assert (set k | k in m :: NormalKey(k, m[k])) == m.Keys by {
      assert forall k | k in m :: NormalKey(k, m[k]) == k;
    }
    assert IsRefiled(lib, m, m);
    RefiledOnce(lib, m, Refiled(lib, m), m);
    assert StrippedAll(m) == m;
  }

  lemma FillNothing(o: Overrides)
    ensures Fill(o, NO_OVERRIDES) == o
  {
  }

  /** From a stripped deployment nothing is extracted. */
  lemma ExtractedBare(d: Deployment, p: Policy)
    requires Stripped(d) == d
    ensures Extracted(d, p) == Normalize(Identified(d, p))
  {
    var n := Normalize(Identified(d, p));
    hide Normalize, Identified, Fill;
    FillNothing(n.overrides);
    assert d.overrides == NO_OVERRIDES;
    assert d.actions == SetActions(d, map[]);
    forall k
      ensures Lookup(FillActions(d, n.actions), k) == Lookup(n.actions, k)
    {
      FillActionsAt(d, n.actions, k);
      if k in d.actions {
        assert d.actions[k].overrides == NO_OVERRIDES;
        FillNothing(OverridesOf(n.actions, k));
      }
    }
    hide FillActions, SetActions;
    SameMaps(FillActions(d, n.actions), n.actions);
  }

  lemma IdentifiedTwice(d: Deployment, p: Policy)
    ensures Normalize(Identified(d, Normalize(Identified(d, p)))) == Normalize(Identified(d, p))
  {
    var i := Identified(d, p);
    var q := Normalize(i);
    NormalizeWorkspaceTwice(i.workspace);
    NormalizeWorkspaceTwice(d.workspace);
    Text.TrimSpaceTrims(i.workspace);
    Text.TrimTwice(i.app);
    Text.TrimTwice(i.workspace);
    NormalizeTwice(i);
    WorkspaceIsNotBlank(i.workspace);
    hide TrimOverrides, TrimActions, NormalizeOperation, NormalizeWorkspace, Text.TrimSpace;
    assert Identified(d, q) == q.(app := if Text.TrimSpace(q.app) == "" then d.app else q.app);
  }

  lemma WorkspaceIsNotBlank(w: string)
    ensures Text.TrimSpace(NormalizeWorkspace(w)) != ""
  {
    Text.TrimTwice(w);
    DefaultWorkspaceIsTrimmed();
  }

  lemma MigratedPolicyAt(m: map<Key, Deployment>, policies: map<Key, Policy>, k: Key)
    requires k in m
    ensures var e := Extracted(m[k], PolicyAt(policies, k));
            PolicyAt(MigratedPolicies(m, policies), k) == if Empty(e) then PolicyAt(policies, k) else e
  {
    hide MigratedPolicies, Extracted, Empty;
    MigratedAt(m, policies, k);
  }

  lemma MigratedTwice(m: map<Key, Deployment>, policies: map<Key, Policy>, k: Key)
    requires k in m ==> Stripped(m[k]) == m[k]
    ensures MigratedPolicy(m, MigratedPolicies(m, policies), k) == MigratedPolicy(m, policies, k)
  {
    hide MigratedPolicies, Extracted, Normalize, Identified, Empty, Stripped, PolicyAt;
    MigratedAt(m, policies, k);
    if k in m {
      MigratedPolicyAt(m, policies, k);
      ExtractedBare(m[k], PolicyAt(policies, k));
      ExtractedBare(m[k], Extracted(m[k], PolicyAt(policies, k)));
      IdentifiedTwice(m[k], PolicyAt(policies, k));
    }
  }

  lemma BackfilledTwice(m: map<Key, Deployment>, active: map<Key, string>, history: seq<Entry>)
    ensures Backfilled(m, Backfilled(m, active, history), history) == Backfilled(m, active, history)
  {
    hide Newest, Backfilled;
    var once := Backfilled(m, active, history);
    forall k
      ensures Lookup(Backfilled(m, once, history), k) == Lookup(once, k)
    {
      BackfilledAt(m, active, history, k);
      BackfilledAt(m, once, history, k);
    }
    SameMaps(Backfilled(m, once, history), once);
  }

  lemma StoredHistoryTwice(lib: Library, history: seq<Entry>)
    requires lib.Valid()
    ensures StoredHistory(lib, StoredHistory(lib, history)) == StoredHistory(lib, history)
  {
    forall i | 0 <= i < |history|
      ensures Stored(lib, Stored(lib, history[i].deployment)) == Stored(lib, history[i].deployment)
    {
      StoredTwice(lib, history[i].deployment);
    }
    hide Stored;
  }

  lemma StoredCandidatesTwice(lib: Library, candidates: map<string, Candidate>)
    requires lib.Valid()
    ensures StoredCandidates(lib, StoredCandidates(lib, candidates)) == StoredCandidates(lib, candidates)
  {
    forall k | k in candidates
      ensures Stored(lib, Stored(lib, candidates[k].deployment)) == Stored(lib, candidates[k].deployment)
    {
      StoredTwice(lib, candidates[k].deployment);
    }
    hide Stored;
  }

  /** Once its deployments are bare, normalizing a snapshot twice is normalizing it once. */
  lemma NormalizeBareTwice(lib: Library, s: Snapshot)
    requires lib.Valid() && Bare(lib, s.deployments)
    ensures NoCollision(s.deployments)
    ensures var n := Normalized(lib, s); n.deployments == s.deployments && Normalized(lib, n) == n
  {
    BareIsRefiled(lib, s.deployments);
    var m := s.deployments;
    forall k
      ensures Lookup(MigratedPolicies(m, MigratedPolicies(m, s.policies)), k) == Lookup(MigratedPolicies(m, s.policies), k)
    {
      assert k in m ==> BareAt(lib, k, m[k]);
      MigratedTwice(m, s.policies, k);
      MigratedAt(m, s.policies, k);
      MigratedAt(m, MigratedPolicies(m, s.policies), k);
    }
    hide MigratedPolicies, Backfilled, StoredHistory, StoredCandidates, Refiled, StrippedAll, Lookup;
    SameMaps(MigratedPolicies(m, MigratedPolicies(m, s.policies)), MigratedPolicies(m, s.policies));
    StoredHistoryTwice(lib, s.history);
    StoredCandidatesTwice(lib, s.candidates);
    BackfilledTwice(m, s.active, StoredHistory(lib, s.history));
  }

  /** From the second pass on, normalization changes nothing more. */
  lemma SecondPassIsStable(lib: Library, s: Snapshot)
    requires lib.Valid() && NoCollision(s.deployments)
    ensures var once := Normalized(lib, s);
            NoCollision(once.deployments) &&
            var twice := Normalized(lib, once);
            NoCollision(twice.deployments) && Normalized(lib, twice) == twice
  {
    hide Normalized;
    NormalizedIsBare(lib, s);
    NormalizeBareTwice(lib, Normalized(lib, s));
  }

  // ----- Effective deployments

  ghost function EffectiveOf(m: map<Key, Deployment>, policies: map<Key, Policy>): map<Key, Deployment> {
    map k | k in m :: Applied(m[k], PolicyAt(policies, k))
  }

  /** The deployments of SnapshotWithAppliedRoutingPolicies. */
  ghost function Effective(lib: Library, s: Snapshot): map<Key, Deployment>
    requires NoCollision(s.deployments)
  {
    var n := Normalized(lib, s);
    EffectiveOf(n.deployments, n.policies)
  }

  method SnapshotWithAppliedRoutingPolicies(lib: Library, s: Snapshot) returns (r: Snapshot)
    requires NoCollision(s.deployments)
    ensures r == Normalized(lib, s).(deployments := Effective(lib, s))
  {
    hide Normalized, Applied;
    var n := NormalizeSnapshot(lib, s);
    var deployments: map<Key, Deployment> := map[];
    var keys := n.deployments.Keys;
    while keys != {}
      invariant keys <= n.deployments.Keys && deployments.Keys == n.deployments.Keys - keys
      invariant forall k | k in deployments :: deployments[k] == Applied(n.deployments[k], PolicyAt(n.policies, k))
      decreases |keys|
    {
      var k :| k in keys;
      keys := keys - {k};
      var applied := ApplyRoutingPolicy(n.deployments[k], PolicyAt(n.policies, k));
      deployments := deployments[k := applied];
    }
    assert deployments == Effective(lib, s);
    return n.(deployments := deployments);
  }

  lemma AppliedNormalized(d: Deployment, p: Policy)
    ensures Applied(d, Normalize(Identified(d, p))) == Applied(d, p)
  {
    var i := Identified(d, p);
    NormalizeTwice(i);
    hide TrimOverrides, TrimActions, NormalizeOperation, NormalizeWorkspace, Text.TrimSpace, SetActions;
  }

  /** Migrating the policies of bare deployments does not change what is effective. */
  lemma MigrationIsIneffective(m: map<Key, Deployment>, policies: map<Key, Policy>, k: Key)
    requires k in m && Stripped(m[k]) == m[k]
    ensures Applied(m[k], PolicyAt(MigratedPolicies(m, policies), k)) == Applied(m[k], PolicyAt(policies, k))
  {
    hide MigratedPolicies, Extracted, Normalize, Identified, Empty, Stripped, Applied, PolicyAt;
    MigratedPolicyAt(m, policies, k);
    ExtractedBare(m[k], PolicyAt(policies, k));
    AppliedNormalized(m[k], PolicyAt(policies, k));
  }

  lemma NormalizedParts(lib: Library, s: Snapshot)
    requires NoCollision(s.deployments)
    ensures var n, refiled := Normalized(lib, s), Refiled(lib, s.deployments);
            n.deployments == StrippedAll(refiled) && n.policies == MigratedPolicies(refiled, s.policies)
  {
    hide Refiled, StrippedAll, MigratedPolicies, Backfilled, StoredHistory, StoredCandidates;
  }

  lemma EffectiveOfSame(m: map<Key, Deployment>, p: map<Key, Policy>, q: map<Key, Policy>)
    requires forall k | k in m :: Applied(m[k], PolicyAt(p, k)) == Applied(m[k], PolicyAt(q, k))
    ensures EffectiveOf(m, p) == EffectiveOf(m, q)
  {
    hide Applied, PolicyAt;
  }

  lemma EffectiveOfBare(lib: Library, s: Snapshot)
    requires lib.Valid() && Bare(lib, s.deployments)
    ensures NoCollision(s.deployments) && Effective(lib, s) == EffectiveOf(s.deployments, s.policies)
  {
    hide MigratedPolicies, Refiled, Normalized, StrippedAll, Applied, PolicyAt, EffectiveOf, Stripped, Stored, NormalKey;
    BareIsRefiled(lib, s.deployments);
    NormalizedParts(lib, s);
    var m := s.deployments;
    forall k | k in m
      ensures Applied(m[k], PolicyAt(MigratedPolicies(m, s.policies), k)) == Applied(m[k], PolicyAt(s.policies, k))
    {
      assert BareAt(lib, k, m[k]);
      MigrationIsIneffective(m, s.policies, k);
    }
    EffectiveOfSame(m, MigratedPolicies(m, s.policies), s.policies);
  }

  /** One pass of normalization leaves every effective deployment as it was. */
  lemma PassKeepsEffective(lib: Library, s: Snapshot)
    requires lib.Valid() && NoCollision(s.deployments)
    ensures var n := Normalized(lib, s); NoCollision(n.deployments) && Effective(lib, n) == Effective(lib, s)
  {
    hide Normalized, EffectiveOf;
    NormalizedIsBare(lib, s);
    EffectiveOfBare(lib, Normalized(lib, s));
  }

  ghost predicate Passes(lib: Library, s: Snapshot, n: nat, r: Snapshot)
    requires NoCollision(s.deployments)
    decreases n
  {
    if n == 0 then r == s
    else var once := Normalized(lib, s); NoCollision(once.deployments) && Passes(lib, once, n - 1, r)
  }

  /** However often a snapshot has been normalized before, the same deployments are effective. */
  lemma {:induction false} PassesKeepEffective(lib: Library, s: Snapshot, n: nat, r: Snapshot)
    requires lib.Valid() && NoCollision(s.deployments) && Passes(lib, s, n, r)
    ensures NoCollision(r.deployments) && Effective(lib, r) == Effective(lib, s)
    decreases n
  {
    hide Normalized, Effective;
    if n > 0 {
      PassKeepsEffective(lib, s);
      PassesKeepEffective(lib, Normalized(lib, s), n - 1, r);
    }
  }

  ghost predicate SameOverrides(a: Deployment, b: Deployment) {
    a.overrides == b.overrides && a.actions.Keys == b.actions.Keys && forall k | k in a.actions :: a.actions[k].overrides == b.actions[k].overrides
  }

  lemma StoredKeepsOverrides(lib: Library, d: Deployment)
    ensures SameOverrides(Stored(lib, d), d)
  {
  }

  lemma EffectiveIsMigrated(lib: Library, s: Snapshot, k: Key)
    requires NoCollision(s.deployments) && k in s.deployments
    ensures var d, key := Stored(lib, s.deployments[k]), NormalKey(k, s.deployments[k]);
            key in Effective(lib, s) && Effective(lib, s)[key] == Applied(Stripped(d), Extracted(d, PolicyAt(s.policies, key)))
  {
    hide NormalKey, Stored, Refiled, MigratedPolicies, Normalized, Applied, Extracted, Empty, PolicyAt;
    var refiled := Refiled(lib, s.deployments);
    var key := NormalKey(k, s.deployments[k]);
    assert key in refiled && refiled[key] == Stored(lib, s.deployments[k]);
    NormalizedParts(lib, s);
    MigratedPolicyAt(refiled, s.policies, key);
    MigratedApplies(refiled[key], PolicyAt(s.policies, key));
    hide Stripped;
  }

  /**
   What is effective: the deployment as stored, where storing keeps every embedded override, with the
   overrides of the policy under its key in force over the embedded ones.
   */
  lemma EffectiveMeans(lib: Library, s: Snapshot, k: Key)
    requires NoCollision(s.deployments) && k in s.deployments
    ensures var raw, key := s.deployments[k], NormalKey(k, s.deployments[k]);
            && key in Effective(lib, s)
            && InForce(Effective(lib, s)[key], Stored(lib, raw), if key in s.policies then s.policies[key] else ZERO_POLICY)
            && SameOverrides(Stored(lib, raw), raw)
  {
    hide Stored, InForce, SameOverrides, Applied, Stripped, Extracted, Effective, NormalKey;
    StoredKeepsOverrides(lib, s.deployments[k]);
    EffectiveIsMigrated(lib, s, k);
    MigrationMeans(Stored(lib, s.deployments[k]), PolicyAt(s.policies, NormalKey(k, s.deployments[k])));
  }

  lemma EmptyAction(d: Deployment, p: Policy, k: string)
    requires Empty(Extracted(d, p)) && k in d.actions
    ensures OverridesOf(TrimActions(p.actions), k) == NO_OVERRIDES
    ensures OverridesOf(TrimActions(Extracted(d, p).actions), k) == NO_OVERRIDES
  {
    hide FillActions, TrimActions, NormalizeOperation, NormalizeWorkspace, Text.TrimSpace, OverridesOf;
    var e := Extracted(d, p);
    FilledOverrides(d, TrimActions(p.actions), k);
    EmptyOverrides(e, k);
    TrimmedOverrides(e.actions, k);
  }

  /** Leaving an empty policy out is the same as storing it. */
  lemma MigratedApplies(d: Deployment, p: Policy)
    ensures Empty(Extracted(d, p)) ==> Applied(Stripped(d), p) == Applied(Stripped(d), Extracted(d, p))
  {
    if Empty(Extracted(d, p)) {
      hide TrimActions, NormalizeOperation, NormalizeWorkspace, Text.TrimSpace, OverridesOf, FillActions;
      var e := Extracted(d, p);
      forall k | k in d.actions
        ensures OverridesOf(TrimActions(p.actions), k) == OverridesOf(TrimActions(e.actions), k)
      {
        EmptyAction(d, p, k);
      }
      assert TrimOverrides(p.overrides) == NO_OVERRIDES == TrimOverrides(e.overrides);
      SetSame(Stripped(d), TrimActions(p.actions), TrimActions(e.actions));
    }
  }

  lemma SetSame(d: Deployment, a: map<string, ActionPolicy>, b: map<string, ActionPolicy>)
    requires forall k | k in d.actions :: OverridesOf(a, k) == OverridesOf(b, k)
    ensures SetActions(d, a) == SetActions(d, b)
  {
    hide OverridesOf;
  }

  lemma EmptyOverrides(p: Policy, k: string)
    requires Empty(p)
    ensures OverridesOf(p.actions, k) == NO_OVERRIDES
  {
  }
}
