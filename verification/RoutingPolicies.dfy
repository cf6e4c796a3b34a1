/**
 Routing policies: operator overrides kept outside releases, their migration out of legacy
 deployments, patches, and the route tag that results.
 */
module RoutingPolicies {
  import opened Options
  import opened Text
  import opened Workspaces

  type Time = int

  const DEFAULT_ROUTE_TAG := "default"

  // ----- Data

  /** A route tag and a label set, each of which may override the released value. */
  datatype Overrides = Overrides(tag: Option<string>, labels: Option<seq<string>>)

  const NO_OVERRIDES := Overrides(None, None)

  /** Of an action, its overrides; `rest` stands for everything that a release pins. */
  datatype Action = Action(tag: Option<string>, declarations: Option<seq<string>>, overrides: Overrides, updatedAt: Option<Time>, rest: string)

  datatype Deployment = Deployment(
    workspace: string, gitSourceID: string, apiVersion: string, app: string, tag: string, scriptLang: string, timeoutS: int,
    commit: string, source: string, deploymentID: Option<string>, bundleDigest: string,
    overrides: Overrides, actions: map<string, Action>, updatedAt: Option<Time>, rest: string)

  datatype ActionPolicy = ActionPolicy(overrides: Overrides, updatedBy: string, updatedAt: Time)

  datatype Operation = Operation(id: string, fingerprint: string, result: Option<string>)

  const NO_OPERATION := Operation("", "", None)

  datatype Policy = Policy(
    workspace: string, app: string, revision: int, overrides: Overrides, actions: map<string, ActionPolicy>,
    operation: Operation, updatedBy: string, updatedAt: Time)

  /** The zero value, which a missing policy reads as. */
  const ZERO_TIME: Time := 0
  const NO_ACTION_POLICY := ActionPolicy(NO_OVERRIDES, "", ZERO_TIME)
  const ZERO_POLICY := Policy("", "", 0, NO_OVERRIDES, map[], NO_OPERATION, "", ZERO_TIME)

  function NewPolicy(workspace: string, app: string): Policy {
    ZERO_POLICY.(workspace := NormalizeWorkspace(workspace), app := app)
  }

  datatype Patch = Patch(setsTag: bool, tag: Option<string>, setsLabels: bool, labels: Option<seq<string>>, actor: string)

  // ----- Normalization

  function TrimOverrides(o: Overrides): Overrides {
    match o.tag
    case None => o
    case Some(tag) => o.(tag := Some(TrimSpace(tag)))
  }

  function NormalizeOperation(o: Operation): Operation {
    var id, fingerprint := TrimSpace(o.id), TrimSpace(o.fingerprint);
    if id == "" || fingerprint == "" || o.result.None? then NO_OPERATION else Operation(id, fingerprint, o.result)
  }

  function TrimActions(actions: map<string, ActionPolicy>): map<string, ActionPolicy> {
    map k | k in actions :: actions[k].(overrides := TrimOverrides(actions[k].overrides))
  }

  function Normalize(p: Policy): Policy {
    p.(workspace := NormalizeWorkspace(p.workspace),
       app := TrimSpace(p.app),
       revision := if p.revision < 0 then 0 else p.revision,
       overrides := TrimOverrides(p.overrides),
       actions := TrimActions(p.actions),
       operation := NormalizeOperation(p.operation))
  }

  ghost predicate TagTrimmed(after: Option<string>, before: Option<string>) {
    (before.None? ==> after.None?) && (before.Some? ==> after == Some(TrimSpace(before.value)))
  }

  /**
   What normalization means: names and tags lose their white space, a negative revision counts as none,
   and a recorded operation stays only if it is complete; labels, authors and times stay.
   */
  lemma NormalizeMeans(p: Policy)
    ensures var n := Normalize(p);
            && n.workspace == (if TrimSpace(p.workspace) == "" then "default" else TrimSpace(p.workspace)) && n.app == TrimSpace(p.app)
            && n.revision >= 0 && (p.revision >= 0 ==> n.revision == p.revision) && (p.revision < 0 ==> n.revision == 0)
            && TagTrimmed(n.overrides.tag, p.overrides.tag) && n.overrides.labels == p.overrides.labels
            && n.updatedBy == p.updatedBy && n.updatedAt == p.updatedAt
    ensures var o, before := Normalize(p).operation, p.operation;
            if TrimSpace(before.id) != "" && TrimSpace(before.fingerprint) != "" && before.result.Some?
            then o.id == TrimSpace(before.id) && o.fingerprint == TrimSpace(before.fingerprint) && o.result == before.result
            else o.id == "" && o.fingerprint == "" && o.result.None?
    ensures Normalize(p).actions.Keys == p.actions.Keys
    ensures forall k | k in p.actions ::
              var a, before := Normalize(p).actions[k], p.actions[k];
              && TagTrimmed(a.overrides.tag, before.overrides.tag) && a.overrides.labels == before.overrides.labels
              && a.updatedBy == before.updatedBy && a.updatedAt == before.updatedAt
  {
    hide TrimSpace;
  }

  method NormalizeRoutingPolicy(policy: Policy) returns (r: Policy)
    ensures r == Normalize(policy)
  {
    hide TrimOverrides, NormalizeOperation, TrimSpace;
    var actions := policy.actions;
    var keys := actions.Keys;
    while keys != {}
      invariant keys <= actions.Keys == policy.actions.Keys
      invariant forall k | k in actions :: actions[k] == if k in keys then policy.actions[k] else TrimActions(policy.actions)[k]
      decreases |keys|
    {
      var k :| k in keys;
      keys := keys - {k};
      actions := actions[k := actions[k].(overrides := TrimOverrides(actions[k].overrides))];
    }
    assert actions == TrimActions(policy.actions);
    r := policy.(workspace := NormalizeWorkspace(policy.workspace), app := TrimSpace(policy.app), overrides := TrimOverrides(policy.overrides), actions := actions);
    if policy.revision < 0 {
      r := r.(revision := 0);
    }
    r := r.(operation := NormalizeOperation(policy.operation));
  }

  lemma TrimOverridesTwice(o: Overrides)
    ensures TrimOverrides(TrimOverrides(o)) == TrimOverrides(o)
  {
    if o.tag.Some? {
      TrimTwice(o.tag.value);
    }
  }

  lemma NormalizeOperationTwice(o: Operation)
    ensures NormalizeOperation(NormalizeOperation(o)) == NormalizeOperation(o)
  {
    TrimTwice(o.id);
    TrimTwice(o.fingerprint);
    assert Trimmed("");
    TrimSpaceKeeps("");
    hide TrimSpace;
  }

  lemma NormalizeTwice(p: Policy)
    ensures Normalize(Normalize(p)) == Normalize(p)
  {
    NormalizeWorkspaceTwice(p.workspace);
    TrimTwice(p.app);
    TrimOverridesTwice(p.overrides);
    NormalizeOperationTwice(p.operation);
    TrimActionsTwice(p.actions);
    hide NormalizeWorkspace, TrimSpace, TrimOverrides, TrimActions, NormalizeOperation;
  }

  lemma TrimActionsTwice(actions: map<string, ActionPolicy>)
    ensures TrimActions(TrimActions(actions)) == TrimActions(actions)
  {
    forall k | k in actions
      ensures TrimOverrides(TrimOverrides(actions[k].overrides)) == TrimOverrides(actions[k].overrides)
    {
      TrimOverridesTwice(actions[k].overrides);
    }
    hide TrimOverrides;
  }

  // ----- Applying a policy

  function OverridesOf(actions: map<string, ActionPolicy>, key: string): Overrides {
    if key in actions then actions[key].overrides else NO_OVERRIDES
  }

  function SetActions(d: Deployment, actions: map<string, ActionPolicy>): map<string, Action> {
    map k | k in d.actions :: d.actions[k].(overrides := OverridesOf(actions, k))
  }

  /** The deployment as it runs: exactly the overrides of the policy, whatever was embedded. */
  function Applied(d: Deployment, p: Policy): Deployment {
    var n := Normalize(p);
    d.(overrides := n.overrides, actions := SetActions(d, n.actions))
  }

  method ApplyRoutingPolicy(deployment: Deployment, policy: Policy) returns (r: Deployment)
    ensures r == Applied(deployment, policy)
  {
    hide Normalize;
    var n := NormalizeRoutingPolicy(policy);
    var actions: map<string, Action> := map[];
    var keys := deployment.actions.Keys;
    while keys != {}
      invariant keys <= deployment.actions.Keys && actions.Keys == deployment.actions.Keys - keys
      invariant forall k | k in actions :: actions[k] == SetActions(deployment, n.actions)[k]
      decreases |keys|
    {
      var k :| k in keys;
      keys := keys - {k};
      var action := deployment.actions[k];
      if k in n.actions {
        action := action.(overrides := n.actions[k].overrides);
      } else {
        action := action.(overrides := NO_OVERRIDES);
      }
      actions := actions[k := action];
    }
    assert actions == SetActions(deployment, n.actions);
    return deployment.(overrides := n.overrides, actions := actions);
  }

  // ----- Migration of embedded overrides

  /** Existing policy values win over embedded ones. */
  function Fill(policy: Overrides, embedded: Overrides): Overrides {
    Overrides(if policy.tag.None? then embedded.tag else policy.tag, if policy.labels.None? then embedded.labels else policy.labels)
  }

  function FillAction(d: Deployment, actions: map<string, ActionPolicy>, key: string): ActionPolicy
    requires key in d.actions
  {
    var before := if key in actions then actions[key] else NO_ACTION_POLICY;
    before.(overrides := Fill(before.overrides, d.actions[key].overrides))
  }

  function Lookup<K(==), V>(m: map<K, V>, key: K): Option<V> {
    if key in m then Some(m[key]) else None
  }

  /** The policy of one action after migration: a filled one is stored only when it overrides something. */
  function FilledAction(d: Deployment, actions: map<string, ActionPolicy>, key: string): Option<ActionPolicy> {
    if key in d.actions && FillAction(d, actions, key).overrides != NO_OVERRIDES then Some(FillAction(d, actions, key))
    else Lookup(actions, key)
  }

  function FillActions(d: Deployment, actions: map<string, ActionPolicy>): map<string, ActionPolicy> {
    map k | k in actions.Keys + d.actions.Keys && FilledAction(d, actions, k).Some? :: FilledAction(d, actions, k).value
  }

  lemma FillActionsAt(d: Deployment, actions: map<string, ActionPolicy>, key: string)
    ensures Lookup(FillActions(d, actions), key) == FilledAction(d, actions, key)
  {
  }

  /** Blank identities are taken from the deployment before normalization. */
  function Identified(d: Deployment, p: Policy): Policy {
    p.(workspace := if TrimSpace(p.workspace) == "" then NormalizeWorkspace(d.workspace) else p.workspace,
       app := if TrimSpace(p.app) == "" then d.app else p.app)
  }

  function Extracted(d: Deployment, p: Policy): Policy {
    var n := Normalize(Identified(d, p));
    n.(overrides := Fill(n.overrides, d.overrides), actions := FillActions(d, n.actions))
  }

  function Stripped(d: Deployment): Deployment {
    d.(overrides := NO_OVERRIDES, actions := SetActions(d, map[]))
  }

  method ExtractEmbeddedRoutingPolicy(deployment: Deployment, policy: Policy) returns (stripped: Deployment, r: Policy)
    ensures stripped == Stripped(deployment) && r == Extracted(deployment, policy)
  {
    hide Normalize, TrimSpace, NormalizeWorkspace;
    r := policy;
    if TrimSpace(r.workspace) == "" {
      r := r.(workspace := NormalizeWorkspace(deployment.workspace));
    }
    if TrimSpace(r.app) == "" {
      r := r.(app := deployment.app);
    }
    assert r == Identified(deployment, policy);
    r := NormalizeRoutingPolicy(r);
    ghost var n := r;
    if r.overrides.tag.None? && deployment.overrides.tag.Some? {
      r := r.(overrides := r.overrides.(tag := deployment.overrides.tag));
    }
    if r.overrides.labels.None? && deployment.overrides.labels.Some? {
      r := r.(overrides := r.overrides.(labels := deployment.overrides.labels));
    }
    var actions := ExtractActions(deployment, r.actions);
    r := r.(actions := actions);
    var bare := StripActions(deployment);
    stripped := deployment.(overrides := NO_OVERRIDES, actions := bare);
  }

  method ExtractActions(deployment: Deployment, before: map<string, ActionPolicy>) returns (actions: map<string, ActionPolicy>)
    ensures actions == FillActions(deployment, before)
  {
    hide FilledAction;
    actions := before;
    var keys := deployment.actions.Keys;
    forall k | k !in keys
      ensures Lookup(before, k) == FilledAction(deployment, before, k)
    {
      OnlyReleasedAreFilled(deployment, before, k);
    }
    while keys != {}
      invariant keys <= deployment.actions.Keys
      invariant forall k :: Lookup(actions, k) == if k in keys then Lookup(before, k) else FilledAction(deployment, before, k)
      decreases |keys|
    {
      var k :| k in keys;
      keys := keys - {k};
      assert Lookup(actions, k) == Lookup(before, k);
      actions := ExtractAction(deployment, before, actions, k);
    }
    SameLookups(actions, FillActions(deployment, before), deployment, before);
  }

  lemma OnlyReleasedAreFilled(d: Deployment, actions: map<string, ActionPolicy>, key: string)
    requires key !in d.actions
    ensures FilledAction(d, actions, key) == Lookup(actions, key)
  {
  }

  lemma SameLookups(a: map<string, ActionPolicy>, b: map<string, ActionPolicy>, d: Deployment, before: map<string, ActionPolicy>)
    requires forall k :: Lookup(a, k) == FilledAction(d, before, k)
    requires b == FillActions(d, before)
    ensures a == b
  {
    forall k
      ensures Lookup(a, k) == Lookup(b, k)
    {
      FillActionsAt(d, before, k);
    }
    hide FilledAction, FillActions;
    assert forall k :: k in a <==> Lookup(a, k).Some?;
    assert forall k :: k in b <==> Lookup(b, k).Some?;
    assert a.Keys == b.Keys;
    assert forall k | k in a :: a[k] == Lookup(a, k).value == Lookup(b, k).value == b[k];
  }

  method ExtractAction(deployment: Deployment, ghost before: map<string, ActionPolicy>, actions: map<string, ActionPolicy>, key: string)
    returns (r: map<string, ActionPolicy>)
    requires key in deployment.actions && Lookup(actions, key) == Lookup(before, key)
    ensures Lookup(r, key) == FilledAction(deployment, before, key)
    ensures forall k | k != key :: Lookup(r, k) == Lookup(actions, k)
  {
    r := actions;
    var action := deployment.actions[key];
    var actionPolicy := if key in actions then actions[key] else NO_ACTION_POLICY;
    if actionPolicy.overrides.tag.None? && action.overrides.tag.Some? {
      actionPolicy := actionPolicy.(overrides := actionPolicy.overrides.(tag := action.overrides.tag));
    }
    if actionPolicy.overrides.labels.None? && action.overrides.labels.Some? {
      actionPolicy := actionPolicy.(overrides := actionPolicy.overrides.(labels := action.overrides.labels));
    }
    if actionPolicy.overrides.tag.Some? || actionPolicy.overrides.labels.Some? {
      r := r[key := actionPolicy];
    }
  }

  method StripActions(deployment: Deployment) returns (actions: map<string, Action>)
    ensures actions == SetActions(deployment, map[])
  {
    actions := deployment.actions;
    var keys := actions.Keys;
    while keys != {}
      invariant keys <= deployment.actions.Keys == actions.Keys
      invariant forall k | k in actions ::
                  actions[k] == if k in keys then deployment.actions[k] else SetActions(deployment, map[])[k]
      decreases |keys|
    {
      var k :| k in keys;
      keys := keys - {k};
      actions := actions[k := actions[k].(overrides := NO_OVERRIDES)];
    }
  }

  predicate Empty(p: Policy) {
    p.overrides == NO_OVERRIDES && forall k | k in p.actions :: p.actions[k].overrides == NO_OVERRIDES
  }

  lemma FilledOverrides(d: Deployment, actions: map<string, ActionPolicy>, key: string)
    requires key in d.actions
    ensures OverridesOf(FillActions(d, actions), key) == Fill(OverridesOf(actions, key), d.actions[key].overrides)
  {
    FillActionsAt(d, actions, key);
    hide FillActions;
    assert Fill(NO_OVERRIDES, NO_OVERRIDES) == NO_OVERRIDES;
  }

  lemma TrimmedOverrides(actions: map<string, ActionPolicy>, key: string)
    ensures OverridesOf(TrimActions(actions), key) == TrimOverrides(OverridesOf(actions, key))
  {
  }

  /** The policy's override is in force, trimmed, where it has one, else the embedded one. */
  ghost predicate Prevails(inForce: Overrides, policy: Overrides, embedded: Overrides) {
    && (policy.tag.Some? ==> inForce.tag == Some(TrimSpace(policy.tag.value)))
    && (policy.tag.None? && embedded.tag.Some? ==> inForce.tag == Some(TrimSpace(embedded.tag.value)))
    && (policy.tag.None? && embedded.tag.None? ==> inForce.tag == None)
    && (policy.labels.Some? ==> inForce.labels == policy.labels)
    && (policy.labels.None? ==> inForce.labels == embedded.labels)
  }

  lemma FillPrevails(policy: Overrides, embedded: Overrides)
    ensures Prevails(TrimOverrides(Fill(policy, embedded)), policy, embedded)
  {
    hide TrimSpace;
  }

  /** The deployment as it runs is the given one, except that the policy's overrides prevail over its own. */
  ghost predicate InForce(running: Deployment, d: Deployment, p: Policy) {
    && Prevails(running.overrides, p.overrides, d.overrides)
    && running == d.(overrides := running.overrides, actions := running.actions) && running.actions.Keys == d.actions.Keys
    && forall k | k in d.actions ::
         && running.actions[k] == d.actions[k].(overrides := running.actions[k].overrides)
         && Prevails(running.actions[k].overrides, if k in p.actions then p.actions[k].overrides else NO_OVERRIDES, d.actions[k].overrides)
  }

  /**
   What migration means: afterwards the deployment runs with the policy's overrides where the policy
   has one and with its own former overrides elsewhere, and nothing else about it has changed.
   */
  lemma MigrationMeans(d: Deployment, p: Policy)
    ensures InForce(Applied(Stripped(d), Extracted(d, p)), d, p)
  {
    MigrationFills(d, p);
    StillReleased(d, Extracted(d, p));
    hide Applied, Stripped, Extracted, Fill, TrimOverrides, InForce, OverridesOf;
    ComesIntoForce(Applied(Stripped(d), Extracted(d, p)), d, p);
  }

  /** A deployment to which a policy is applied runs with that policy only, whatever was embedded in it. */
  lemma AppliedMeans(d: Deployment, p: Policy)
    ensures InForce(Applied(d, p), Stripped(d), p)
  {
    FillPrevails(p.overrides, NO_OVERRIDES);
    var running := Applied(d, p);
    forall k | k in d.actions
      ensures running.actions[k].overrides == TrimOverrides(Fill(OverridesOf(p.actions, k), NO_OVERRIDES))
    {
      TrimmedOverrides(p.actions, k);
      FillNothing(OverridesOf(p.actions, k));
    }
    FillNothing(p.overrides);
    hide Fill, TrimOverrides, TrimActions, InForce, NormalizeOperation, NormalizeWorkspace, TrimSpace;
    ComesIntoForce(running, Stripped(d), p);
  }

  lemma FillNothing(policy: Overrides)
    ensures Fill(policy, NO_OVERRIDES) == policy
  {
  }

  lemma StillReleased(d: Deployment, p: Policy)
    ensures var after := Applied(Stripped(d), p); after == d.(overrides := after.overrides, actions := after.actions)
  {
    hide Normalize, SetActions;
  }

  lemma ComesIntoForce(running: Deployment, d: Deployment, p: Policy)
    requires running == d.(overrides := running.overrides, actions := running.actions) && running.actions.Keys == d.actions.Keys
    requires running.overrides == TrimOverrides(Fill(p.overrides, d.overrides))
    requires forall k | k in d.actions ::
               running.actions[k] == d.actions[k].(overrides := TrimOverrides(Fill(OverridesOf(p.actions, k), d.actions[k].overrides)))
    ensures InForce(running, d, p)
  {
    hide Prevails, Fill, TrimOverrides;
    FillPrevails(p.overrides, d.overrides);
    forall k | k in d.actions
      ensures Prevails(running.actions[k].overrides, if k in p.actions then p.actions[k].overrides else NO_OVERRIDES, d.actions[k].overrides)
    {
      FillPrevails(OverridesOf(p.actions, k), d.actions[k].overrides);
    }
  }

  /** The same in terms of the functions that migration is made of. */
  lemma MigrationFills(d: Deployment, p: Policy)
    ensures var after := Applied(Stripped(d), Extracted(d, p));
            && after.overrides == TrimOverrides(Fill(p.overrides, d.overrides))
            && after.actions.Keys == d.actions.Keys
            && forall k | k in d.actions ::
                 after.actions[k] == d.actions[k].(overrides := TrimOverrides(Fill(OverridesOf(p.actions, k), d.actions[k].overrides)))
  {
    hide TrimOverrides, TrimSpace, NormalizeWorkspace, NormalizeOperation, Fill, TrimActions, FillActions, OverridesOf;
    FillTrims(p.overrides, d.overrides);
    var trimmed := TrimActions(p.actions);
    forall k | k in d.actions
      ensures OverridesOf(TrimActions(FillActions(d, trimmed)), k) == TrimOverrides(Fill(OverridesOf(p.actions, k), d.actions[k].overrides))
    {
      TrimmedOverrides(FillActions(d, trimmed), k);
      FilledOverrides(d, trimmed, k);
      TrimmedOverrides(p.actions, k);
      FillTrims(OverridesOf(p.actions, k), d.actions[k].overrides);
    }
  }

  lemma FillTrims(policy: Overrides, embedded: Overrides)
    ensures TrimOverrides(Fill(TrimOverrides(policy), embedded)) == TrimOverrides(Fill(policy, embedded))
  {
    TrimOverridesTwice(policy);
  }

  // ----- Route tags

  function TagText(tag: Option<string>): string {
    match tag
    case None => ""
    case Some(text) => TrimSpace(text)
  }

  /** contract.EffectiveRouteTag: the most specific tag that is not blank. */
  function EffectiveRouteTag(appTag: string, appOverride: Option<string>, actionTag: Option<string>, actionOverride: Option<string>): string {
    if TagText(actionOverride) != "" then TagText(actionOverride)
    else if TagText(appOverride) != "" then TagText(appOverride)
    else if TagText(actionTag) != "" then TagText(actionTag)
    else if TrimSpace(appTag) != "" then TrimSpace(appTag)
    else DEFAULT_ROUTE_TAG
  }

  /** Overrides come before released tags, and among either the action's before the app's; a blank one does not count. */
  lemma RouteTagMeans(appTag: string, appOverride: Option<string>, actionTag: Option<string>, actionOverride: Option<string>)
    ensures var texts := [TagText(actionOverride), TagText(appOverride), TagText(actionTag), TagText(Some(appTag)), "default"];
            exists i :: 0 <= i < |texts| && texts[i] != "" && (forall j | 0 <= j < i :: texts[j] == "")
                        && EffectiveRouteTag(appTag, appOverride, actionTag, actionOverride) == texts[i]
  {
    hide TrimSpace;
    var texts := [TagText(actionOverride), TagText(appOverride), TagText(actionTag), TagText(Some(appTag)), "default"];
    var i := if texts[0] != "" then 0 else if texts[1] != "" then 1 else if texts[2] != "" then 2 else if texts[3] != "" then 3 else 4;
    assert texts[i] != "" && forall j | 0 <= j < i :: texts[j] == "";
  }

  function RouteOf(d: Deployment, key: string): string
    requires key in d.actions
  {
    EffectiveRouteTag(d.tag, d.overrides.tag, d.actions[key].tag, d.actions[key].overrides.tag)
  }

  lemma TagTextTrims(o: Overrides)
    ensures TagText(TrimOverrides(o).tag) == TagText(o.tag)
    ensures Fill(NO_OVERRIDES, o) == o
  {
    if o.tag.Some? {
      TrimTwice(o.tag.value);
    }
  }

  /** Without a policy, migrating a legacy deployment changes no action's route. */
  lemma MigrationKeepsRoutes(d: Deployment, key: string)
    requires key in d.actions
    ensures var after := Applied(Stripped(d), Extracted(d, ZERO_POLICY));
            key in after.actions && RouteOf(after, key) == RouteOf(d, key)
  {
    MigrationFills(d, ZERO_POLICY);
    TagTextTrims(d.overrides);
    TagTextTrims(d.actions[key].overrides);
    MigrationKeepsRelease(d, Extracted(d, ZERO_POLICY));
    hide TrimSpace, Applied, Stripped, Extracted, TagText, TrimOverrides, Fill, EffectiveRouteTag;
    SameRoute(Applied(Stripped(d), Extracted(d, ZERO_POLICY)), d, key);
  }

  lemma SameRoute(a: Deployment, b: Deployment, key: string)
    requires key in a.actions && key in b.actions && a.tag == b.tag && a.actions[key].tag == b.actions[key].tag
    requires TagText(a.overrides.tag) == TagText(b.overrides.tag)
    requires TagText(a.actions[key].overrides.tag) == TagText(b.actions[key].overrides.tag)
    ensures RouteOf(a, key) == RouteOf(b, key)
  {
    hide TagText;
  }

  /** Applying any policy changes nothing that the release pins. */
  lemma MigrationKeepsRelease(d: Deployment, p: Policy)
    ensures Applied(Stripped(d), p).tag == d.tag
    ensures Stripped(Applied(d, p)) == Stripped(d)
  {
    hide Normalize;
  }

  // ----- Patches

  function PatchOverrides(o: Overrides, patch: Patch): Overrides {
    Overrides(if patch.setsTag then patch.tag else o.tag, if patch.setsLabels then patch.labels else o.labels)
  }

  /** The policy after a patch to one action, or to the app when the key is empty. */
  function Patched(p: Policy, key: string, patch: Patch, now: Time): Policy {
    var n := Normalize(p);
    var actor := if TrimSpace(patch.actor) == "" then "system" else TrimSpace(patch.actor);
    var after := n.(revision := n.revision + 1, operation := NO_OPERATION, updatedBy := actor, updatedAt := now);
    if key == "" then after.(overrides := PatchOverrides(n.overrides, patch))
    else
      var changed := PatchOverrides(OverridesOf(n.actions, key), patch);
      if changed == NO_OVERRIDES then after.(actions := n.actions - {key})
      else after.(actions := n.actions[key := ActionPolicy(changed, actor, now)])
  }

  method ApplyRoutingPolicyPatch(policy: Policy, key: string, patch: Patch, now: Time) returns (r: Policy)
    ensures r == Patched(policy, key, patch, now)
  {
    hide Normalize, TrimSpace;
    r := NormalizeRoutingPolicy(policy);
    r := r.(revision := r.revision + 1, operation := NO_OPERATION);
    var actor := TrimSpace(patch.actor);
    if actor == "" {
      actor := "system";
    }
    if key == "" {
      if patch.setsTag {
        r := r.(overrides := r.overrides.(tag := patch.tag));
      }
      if patch.setsLabels {
        r := r.(overrides := r.overrides.(labels := patch.labels));
      }
      return r.(updatedBy := actor, updatedAt := now);
    }
    var action := if key in r.actions then r.actions[key] else NO_ACTION_POLICY;
    if patch.setsTag {
      action := action.(overrides := action.overrides.(tag := patch.tag));
    }
    if patch.setsLabels {
      action := action.(overrides := action.overrides.(labels := patch.labels));
    }
    action := action.(updatedBy := actor, updatedAt := now);
    if action.overrides.tag.None? && action.overrides.labels.None? {
      r := r.(actions := r.actions - {key});
    } else {
      r := r.(actions := r.actions[key := action]);
    }
    return r.(updatedBy := actor, updatedAt := now);
  }

  /** The addressed overrides are replaced, cleared ones included, and the others stay. */
  ghost predicate Changes(after: Overrides, before: Overrides, patch: Patch) {
    && (patch.setsTag ==> after.tag == patch.tag) && (!patch.setsTag ==> after.tag == before.tag)
    && (patch.setsLabels ==> after.labels == patch.labels) && (!patch.setsLabels ==> after.labels == before.labels)
  }

  /** A patch changes the addressed overrides as it says, bumps the revision, and touches no other override. */
  lemma PatchMeans(p: Policy, key: string, patch: Patch, now: Time)
    ensures var before, after := Normalize(p), Patched(p, key, patch, now);
            && after.revision == before.revision + 1 && after.operation == NO_OPERATION
            && (key == "" ==> Changes(after.overrides, before.overrides, patch) && after.actions == before.actions)
            && (key != "" ==>
                  && after.overrides == before.overrides
                  && Changes(OverridesOf(after.actions, key), OverridesOf(before.actions, key), patch)
                  && (key in after.actions <==> OverridesOf(after.actions, key) != NO_OVERRIDES)
                  && forall k | k != key :: (k in after.actions <==> k in before.actions) && OverridesOf(after.actions, k) == OverridesOf(before.actions, k))
  {
    hide Normalize, TrimSpace;
  }
}
