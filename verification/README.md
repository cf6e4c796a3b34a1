# windforce-core: a verified model

This project models the parts of windforce-core, a control plane that admits, runs and logs
workspace actions, whose correctness is hardest to see from one function at a time, and proves
what they keep over whole runs. `dafny verify dfyconfig.toml` checks all of it.

- **Secret masking.** An Aho-Corasick automaton in flat arrays, a registry of patterns that grows
  while logs are written, and a streaming masker that withholds a few bytes and counts marks in a
  difference array. Main results: streaming equals batch masking for every split into chunks, and
  with registrations in between every occurrence that is not yet emitted is hidden.
- **Secret-candidate collection.** The bounded paged sweep against an adversarial backend, and the
  protocol of publishers and collectors around it. Main result: the protocol is safe in every
  interleaving exactly when it keeps its three rules.
- **Runtime configuration.** The closure of an access list computed at admission and the resolution
  against it at execution. Main results: admission pins the least closed list, whatever the visiting
  order; every error has its cause in what was reached; resolution is pure substitution, sees pinned
  targets only, and succeeds exactly under a stated condition.
- **Release catalog.** Normalization and migration of legacy snapshots, import, publication,
  rollback and placement as a state machine over one file. Main results: effective deployments
  survive any number of passes, importing twice is importing once, every active deployment is a
  release of its own app, and operator placement survives publication and rollback.
- **Idempotent admission.** Create, probe and abort as interleaved steps over the atomic store. Main
  results: one run per identity, replies that agree, retries that get their run again, and aborts
  that are final, all with retention taking settled runs at any time.
- **Encodings.** Limit fingerprints, key material, tree digests and canonical escaped paths, each
  with its exact condition for injectivity or acceptance.

The model keeps the shape of the code: objects whose methods update fields are classes, loops are
loops with invariants, and each method is proved against a specification function or property about
which the lemmas then speak. Where a map is traversed the order is left open, so every result holds
for each order. Where a documented promise holds only under a condition, the condition and a
concrete counterexample are both stated.

## Model

| member | source | states |
|---|---|---|
| `MaskText.LongestBounds` | internal/secretmask/matcher.go:61-94 | The recorded longest match is attained by a pattern and bounds every pattern that is a suffix of the text. |
| `Trie.ShapeGrows` | internal/secretmask/matcher.go:24-47 | Appending a node whose edge becomes the head of its parent's list keeps the flat node and edge arrays a trie: distinct words, acyclic lists, one edge per node. |
| `Trie.Land` | internal/secretmask/matcher.go:96-117 | Where a transition succeeds after failure links were followed, its target spells the longest suffix of the longer text that the trie contains. |
| `Trie.MatchOfState` | internal/secretmask/matcher.go:96-117 | The longest pattern that ends a text is the longest one that ends the word of its state, so the state alone decides what is marked. |
| `Trie.Queued` | internal/secretmask/matcher.go:61-94 | In the breadth-first loop every node no deeper than the head of the queue has been queued already, so links only point to finished nodes. |
| `Matching.Matcher.constructor` | internal/secretmask/matcher.go:24-47 | For patterns in any map order the result is a finished automaton for exactly the non-empty patterns. |
| `Matching.Matcher.Insert` | internal/secretmask/matcher.go:28-43 | Inserting one pattern adds exactly that pattern to the contents and keeps the trie well formed. |
| `Matching.Matcher.Transition` | internal/secretmask/matcher.go:49-59 | The walk over a node's edge list finds the child exactly when the trie holds the extended word, and says -1 otherwise. |
| `Matching.Matcher.BuildFailureLinks` | internal/secretmask/matcher.go:61-94 | Afterwards each node's failure link spells its longest proper suffix in the trie and its longest match is the longest pattern that is a suffix of its word. |
| `Matching.Matcher.FinishChild` | internal/secretmask/matcher.go:76-92 | Following the parent's failure links gives one child its link and longest match without disturbing finished nodes. |
| `Matching.Matcher.Advance` | internal/secretmask/matcher.go:96-109 | One byte leads to the state that spells the longest suffix of the text in the trie; the failure hops are paid for by the depth lost. |
| `Matching.Matcher.Scan` | internal/secretmask/matcher.go:96-117 | Scanning any text from any state ends in the state of the longest suffix, raises each level by the number of ends whose longest match covers it, and follows at most text length plus start depth failure links. |
| `Matching.HitsAreOccurrences` | internal/secretmask/matcher.go:111-115 | A position is hit by some longest match exactly when some occurrence of some pattern covers it: marking the longest match per end loses nothing. |
| `Marks.MarkRange` | internal/secretmask/mask.go:132-144 | A clipped range mark raises the level of exactly the positions inside the range by one and keeps the sum of all cells. |
| `Marks.ApplyRangeMarks` | internal/secretmask/mask.go:146-157 | Exactly the bytes with a positive level become '*', and the returned count is the sum of the cells passed. |
| `Marks.LevelShift` | internal/secretmask/mask.go:110-130 | Dropping a prefix of cells and folding its sum into the first kept cell leaves the level of every kept byte unchanged. |
| `SecretRegistry.CollectLeaves` | internal/secretmask/registry.go:112-145 | The non-empty string leaves are collected in traversal order, and collection fails exactly when the leaf limit would be exceeded. |
| `SecretRegistry.RequiredSecretValues` | internal/secretmask/registry.go:101-145 | The values required of a secret, computed by the loop, are those of the specification; RegisteredExactly says what they mean. |
| `SecretRegistry.Normalize` | internal/secretmask/mask.go:11-31 | The candidates are exactly both spellings, raw and JSON-escaped, of each non-empty value, without repetition and longest first. |
| `SecretRegistry.Registry.constructor` | internal/secretmask/registry.go:40-47 | A new registry recognises both spellings of every initial secret at generation one. |
| `SecretRegistry.Registry.AddPattern` | internal/secretmask/registry.go:169-183 | Adding a pattern keeps the byte total the sum of the pattern lengths and the maximum the longest length, at least one. |
| `SecretRegistry.Registry.RegisterSecret` | internal/secretmask/registry.go:49-99 | All or nothing: after success the patterns are the former ones and exactly those owed to the secret, namely itself when short enough and every non-empty string anywhere in the document it decodes to, each raw and JSON-escaped; an error leaves patterns, total, maximum, matcher and generation alone; the generation moves exactly when the set grew. |
| `SecretRegistry.RegisteredExactly` | internal/secretmask/registry.go:49-145 | A secret is registered exactly when the payload, its strings, each owed pattern and the grown set keep the five limits; then exactly the owed patterns are added, otherwise none. |
| `SecretRegistry.Registry.Bytes` | internal/secretmask/registry.go:147-154 | Batch masking is exact: byte i is '*' exactly when some occurrence of some pattern covers i, and unchanged otherwise. |
| `SecretRegistry.TotalLengthAdd` | internal/secretmask/registry.go:169-183 | The total length of a pattern set grows by exactly the new pattern, in whatever order the set is summed. |
| `MaskStream.Stream.constructor` | internal/secretmask/mask.go:54-64 | A new stream has seen nothing, holds nothing and has emitted nothing. |
| `MaskStream.Stream.Snapshot` | internal/secretmask/mask.go:78-85 | A newer generation restarts the scan at the first byte still held; patterns seen for the first time are recorded with the bytes emitted by then. |
| `MaskStream.Stream.ScanPending` | internal/secretmask/mask.go:78-91 | After a snapshot and a scan nothing is hidden needlessly, and every occurrence that is due, including one that straddles the restart, is hidden throughout. |
| `MaskStream.Stream.EmitPrefix` | internal/secretmask/mask.go:110-130 | Emitting a prefix moves exactly those bytes out, masked by level, and keeps the cells one longer than the buffer, their total zero and every remaining level. |
| `MaskStream.Stream.Write` | internal/secretmask/mask.go:66-91 | A write appends to the input, emits an extension of the output, and withholds exactly the longest pattern's length minus one byte, or everything when less is buffered. |
| `MaskStream.Stream.Flush` | internal/secretmask/mask.go:93-108 | A flush empties the buffer; on a stream never flushed before, the whole output is then the reference output for the first sightings. |
| `MaskLog.ScanIsSound` | internal/secretmask/matcher.go:96-117 | A scan hides a position only if an occurrence of a known pattern covers it. |
| `MaskLog.ScanIsComplete` | internal/secretmask/mask.go:78-91 | Occurrences of older patterns that begin before the restart are not lost when the scan state is dropped. |
| `MaskLog.FromTheStart` | internal/secretmask/mask.go:66-108 | With every pattern seen from the first byte, the stream's reference output is the batch masking of the whole input. |
| `MaskRuns.MaskRun` | internal/secretmask/mask.go:66-108 | For every run of writes with registrations in between and one final flush, the output is the reference output for the run's first sightings: covered bytes and only those are hidden. |
| `MaskRuns.StreamEqualsBatch` | internal/secretmask/mask.go:66-130 | For every split of an input into chunks, a fixed registry and one final flush emit exactly the batch masking of the whole input. |
| `MaskRuns.RegisteredIsHidden` | internal/secretmask/mask.go:78-91 | Once a pattern is registered, every occurrence that starts in bytes not yet emitted is hidden completely, however the chunks are cut. |
| `MaskRuns.SecretIsHidden` | internal/secretmask/mask.go:78-91 | After a registration within the limits, every occurrence of the secret, or of a string in the document it decodes to, raw or JSON-escaped, that starts in bytes not yet emitted is hidden completely. |
| `CandidateSweep.Sweep` | internal/secretbackend/candidate_gc.go:85-192 | Against any backend the sweep ends, scans at most its limit and never repeats a cursor; each request follows the page before and the last one is last for a reason; exactly the valid, old and unreferenced candidates of the accepted pages are handed to delete, and the counters add up to the candidates scanned plus a page-level fault. |
| `CandidateSweep.SweepPages` | internal/secretbackend/candidate_gc.go:117-190 | The paging loop accounts for the candidates of exactly the accepted pages; it asks for the next page within the page size and what is left of the limit, and ends at the limit, at the last page, or at a fault: a failed or overfull page or a cursor seen before. |
| `CandidateSweep.SweepPage` | internal/secretbackend/candidate_gc.go:146-180 | Each candidate of a page is counted once: invalid, recent, live, or handed to the backend, in order. |
| `CandidateSweep.EveryCandidateCounted` | internal/secretbackend/candidate_gc.go:66-83 | Conservation: scanned plus fault equals reclaimed, skipped, deferred and failed together. |
| `CandidateSweep.CallsReclaimable` | internal/secretbackend/candidate_gc.go:158-168 | Every candidate handed to delete passed the validity check, was last touched by the cutoff and is not among the live keys. |
| `CandidateSweep.ReclaimableAreCalled` | internal/secretbackend/candidate_gc.go:146-180 | No valid, old and unreferenced candidate of an accepted page is passed over. |
| `CandidateSweep.JudgeExactly` | internal/secretbackend/candidate_gc.go:146-180 | The four verdicts, each by its own condition: validity first, then age, where the cutoff itself is old enough, then the live references. |
| `CandidateSweep.KeysAgree` | internal/secretbackend/candidate_gc.go:230-236 | References to one secret, however spelled, have one key, so a live reference protects every candidate of its secret; a key is shared with another secret only if a workspace or kind holds a zero character. |
| `CandidateSweep.ValidExactly` | internal/secretbackend/candidate_gc.go:238-253 | A candidate is valid exactly when it has a hexadecimal identifier of 16 bytes, an app variable whose path ends in that identifier below some parent, a time and a version. |
| `CandidateProtocol.StepKeepsInvariant` | internal/secretbackend/candidate_gc.go:45-59 | Every step of publishers, clock and collectors keeps: what may still be committed is stored, and what a collector would delete cannot have become live. |
| `CandidateProtocol.NoLiveCandidateDeleted` | internal/secretbackend/candidate_gc.go:105-168 | In every interleaving in which publishers commit strictly within the grace period, the clock is read before the live snapshot and deletes are versioned, every committed reference keeps its candidate. |
| `CandidateProtocol.SafeExactlyWhenStrict` | internal/secretbackend/candidate_gc.go:45-59 | The protocol is safe in every run if and only if it keeps all three rules. |
| `CandidateProtocol.LateCommitUnsafe` | internal/secretbackend/candidate_gc.go:45-59 | A commit exactly at the deadline already allows a run that deletes a live candidate. |
| `CandidateProtocol.MarkBeforeClockUnsafe` | internal/secretbackend/candidate_gc.go:105-116 | A live snapshot taken before the clock is read allows a run that deletes a live candidate. |
| `CandidateProtocol.UnversionedDeleteUnsafe` | internal/secretbackend/candidate_gc.go:45-59 | A delete that ignores the version allows a run that deletes a candidate stored again. |
| `CandidateProtocol.GarbageIsReclaimed` | internal/secretbackend/candidate_gc.go:105-168 | Safety is not bought by never deleting: from any run, an old uncommitted candidate can be reclaimed. |
| `RuntimeReferences.KeysAreTargets` | internal/runtimeconfig/resolver.go:602-604 | The map key of a target determines its scope and path. |
| `RuntimeReferences.NormalizedPathIsNormal` | internal/contract/contract.go:577-597 | Path normalization is a projection: what it returns it accepts unchanged. |
| `RuntimeReferences.PathExactly` | internal/contract/contract.go:577-597 | A path is accepted exactly when, trimmed, it is one to 32 good parts joined by slashes in at most 512 characters, and is then that trimmed text. |
| `RuntimeReferences.WrittenParses` | internal/contract/contract.go:341-369 | Each of the six spellings of a reference parses back to it: no prefix shadows another. |
| `RuntimeReferences.ParsedIsWritable` | internal/contract/contract.go:341-369 | A parsed reference has a normal path, never actor scope, and is workspace-scoped when legacy. |
| `RuntimeReferences.ParsesExactly` | internal/contract/contract.go:341-369 | A text that begins like none of the six spellings is ordinary; one that does is a reference to the trimmed path that follows, or malformed if that is no path. |
| `RuntimeReferences.NormalizesExactly` | internal/contract/contract.go:463-501 | An access list is accepted exactly when its paths and scopes are well formed, no write target is workspace-scoped, no variable is written in two storage classes, and it has at most 256 entries, each counted once. |
| `RuntimeReferences.NormalizeAccessTwice` | internal/contract/contract.go:463-501 | Normalizing an access list twice is normalizing it once. |
| `RuntimeReferences.NormalizeKeepsAllowed` | internal/contract/contract.go:562-575 | Dropping explicit targets that are also listed in the legacy form changes nothing that the list allows. |
| `RuntimeReferences.AllowedExactly` | internal/runtimeconfig/resolver.go:715-727 | A target may be read exactly when it is listed explicitly or, in the workspace, in the legacy form. |
| `RuntimeClosure.GrowTwice` | internal/runtimeconfig/resolver.go:626-683 | Collected references add up text by text, so the traversal order of a document does not matter. |
| `RuntimeClosure.References.Add` | internal/runtimeconfig/resolver.go:626-651 | One more reference: a legacy spelling displaces the explicit one and an explicit one yields to a legacy one; other entries stay. |
| `RuntimeClosure.References.Collect` | internal/runtimeconfig/resolver.go:653-683 | Collecting fails exactly when some string is a malformed reference; otherwise the maps grow by exactly the references of the document. |
| `RuntimeClosure.Search.VisitResource` | internal/runtimeconfig/resolver.go:109-188 | A successful visit finishes the target, leaves the ancestors as they were, and finishes every resource it got to know; what is known stays the least closed list over the seeds. |
| `RuntimeClosure.Search.Enter` | internal/runtimeconfig/resolver.go:149-177 | Entering a workspace resource adds exactly its references and goes on only if none of them is being visited; a refusal has its cause among what is reached: a malformed reference, more references than allowed, or a resource that something else names too. |
| `RuntimeClosure.Search.VisitKnown` | internal/runtimeconfig/resolver.go:178-193 | Visiting all known resources, in any order, leaves each of them finished or being visited. |
| `RuntimeClosure.BuildAccess` | internal/runtimeconfig/resolver.go:60-212 | A successful admission pins the least list that holds the declared targets, the input's references and everything its workspace resources refer to; that reference graph has a ranking, every variable so referenced exists, every resource on the list exists unless it was declared without being referenced by the input, and the reads stay within the limit. A declared list that is not acceptable is refused as such, and every other error names its cause in the input or among the targets reached from the seeds: an undecodable or faulty one, a malformed reference, a missing target that the input or a reached workspace resource names, a reached resource named by a seed or by another reached resource for a cycle, as many distinct reached resources as the depth limit for too deep, collected entries beyond the limit for too many, and a closed list of more than 256 entries for an invalid one. An input with none of these is admitted. |
| `RuntimeClosure.NothingToExplain` | internal/runtimeconfig/resolver.go:60-212 | Where everything reached is in order, no resource is named twice and every limit is kept, no error has a cause, so admission must succeed. |
| `RuntimeClosure.LimitsExactly` | internal/runtimeconfig/resolver.go:925-937 | A positive configured limit holds; the defaults are 16 levels and 256 references. |
| `RuntimeClosure.TooLargeIsOverfull` | internal/contract/contract.go:463-501 | A closed list, whose paths are normal, is rejected for nothing but its size: more than 256 targets, each counted once. |
| `RuntimeClosure.ClosureIsUnique` | internal/runtimeconfig/resolver.go:178-193 | The least closed list is unique, so the visiting order has no influence on what is allowed. |
| `RuntimeClosure.NoCycle` | internal/runtimeconfig/resolver.go:166-170 | In an admitted list no chain of references among workspace resources leads back to its start. |
| `RuntimeResolution.Resolution.Resolve` | internal/runtimeconfig/resolver.go:747-807 | The walk returns what the reference semantics of the walk gives, restores the resource stack even when it fails, and adds exactly the reported secrets to the secret set; ResolvedExactly and RefusalIsCaused say what that is. |
| `RuntimeResolution.Resolution.ResolveResource` | internal/runtimeconfig/resolver.go:809-832 | Resolving a resource pushes it for the time of its document only and refuses one already on the stack. |
| `RuntimeResolution.ResolveInput` | internal/runtimeconfig/resolver.go:214-258 | The resolved input and its secrets are those of the walk from depth zero with an empty stack under the configured or default depth; a result longer than the configured size, or 1 MiB, is refused. |
| `RuntimeResolution.ResolvedIsSubstituted` | internal/runtimeconfig/resolver.go:747-832 | Every successful resolution is the pure substitution of references, which knows no list, no depth and no stack. |
| `RuntimeResolution.MoreFuel` | internal/runtimeconfig/resolver.go:809-832 | The pure substitution does not depend on how deep it was allowed to go once it finishes. |
| `RuntimeMeaning.ResolvedExactly` | internal/runtimeconfig/resolver.go:747-832 | A document resolves exactly when no chain in it goes beyond the depth limit, everything it reaches is pinned, present and well spelled, and no reached resource reaches itself. |
| `RuntimeMeaning.DeepIsDeeper` | internal/runtimeconfig/resolver.go:747-751 | Resolution says too deep only if a chain of steps into items, members and referenced resources leads beyond the depth limit. |
| `RuntimeMeaning.ResolvedIsShallow` | internal/runtimeconfig/resolver.go:747-751 | A document that resolves has no chain beyond the depth limit. |
| `RuntimeMeaning.RefusalIsCaused` | internal/runtimeconfig/resolver.go:747-832 | Every refusal other than too deep is caused by a target the document reaches: unpinned, missing, faulty, sealed, undecodable, badly spelled or circular. The cause of too deep is DeepIsDeeper. |
| `RuntimeMeaning.SecretsExactly` | internal/runtimeconfig/resolver.go:777-780 | The reported secrets are exactly the non-empty plaintexts of the secret variables reached. |
| `RuntimeMeaning.PinnedTargetsDecide` | internal/runtimeconfig/resolver.go:505-545 | Non-interference: two stores that agree on the pinned targets resolve every document to the same outcome, value, secrets and error alike. |
| `RuntimeMeaning.AdmittedIsPinnedExactly` | internal/runtimeconfig/resolver.go:141-148 | On the store that admission saw, everything an admitted input reaches is pinned and well spelled if and only if every pinned app resource it reaches is well spelled and names pinned targets only. |
| `RuntimeMeaning.AdmittedIsNotForbidden` | internal/runtimeconfig/resolver.go:141-148 | On the store that admission saw, resolution of an admitted input is forbidden, or meets a malformed reference, only if the input reaches a pinned app resource that names an unpinned target or is badly spelled. |
| `RuntimeMeaning.AdmittedCirclesExactly` | internal/runtimeconfig/resolver.go:141-170 | An admitted input reaches a pinned resource that reaches itself if and only if it reaches a pinned app resource that does. |
| `RuntimeMeaning.AdmittedIsNotCircular` | internal/runtimeconfig/resolver.go:141-170 | On the store that admission saw, resolution of an admitted input meets a cycle only if the input reaches a pinned app resource that reaches itself. |
| `RuntimeMeaning.AdmittedResolvesExactly` | internal/runtimeconfig/resolver.go:214-258 | An admitted input resolves if and only if no chain in it goes beyond the depth limit, everything it reaches is present and the app resources it reaches name pinned targets only, are well spelled and do not reach themselves. |
| `RuntimeMeaning.AppResourceMayForbid` | internal/runtimeconfig/resolver.go:141-148 | The app resources do matter: an admitted input whose app resource refers to an unpinned variable is forbidden. |
| `RuntimeMeaning.AppResourceMayCycle` | internal/runtimeconfig/resolver.go:141-148 | The app resources do matter: an admitted input whose app resource refers to itself is circular. |
| `RoutingPolicies.NormalizeRoutingPolicy` | internal/catalog/routing_policy.go:78-105 | The loop yields the trimmed policy with a blank operation cleared, whatever the order of the actions. |
| `RoutingPolicies.NormalizeMeans` | internal/catalog/routing_policy.go:78-105 | Names and tags lose their white space, a negative revision counts as none, an incomplete recorded operation is cleared, and labels, authors and times stay. |
| `RoutingPolicies.NormalizeTwice` | internal/catalog/routing_policy.go:78-105 | Normalizing a policy twice is normalizing it once. |
| `RoutingPolicies.ApplyRoutingPolicy` | internal/catalog/routing_policy.go:107-124 | The deployment that runs has exactly the policy's overrides, and none where the policy is silent. |
| `RoutingPolicies.AppliedMeans` | internal/catalog/routing_policy.go:107-124 | App and actions run with the policy's overrides, tags trimmed, and with none where the policy is silent, whatever was embedded; nothing else changes. |
| `RoutingPolicies.ExtractEmbeddedRoutingPolicy` | internal/catalog/routing_policy.go:129-163 | The loops strip the deployment and build the specified policy; MigrationMeans says what is in force afterwards. |
| `RoutingPolicies.MigrationMeans` | internal/catalog/routing_policy.go:126-163 | After migration, app and each action alike: where the policy has a tag that one is in force, trimmed, else the formerly embedded one, trimmed, else none; the same for labels, untrimmed; nothing else about the deployment changes. |
| `RoutingPolicies.MigrationKeepsRoutes` | internal/contract/contract.go:757-771 | Without a policy, migrating a legacy deployment changes no action's effective route tag. |
| `RoutingPolicies.RouteTagMeans` | internal/contract/contract.go:757-771 | The effective route tag is the first that is not blank of action override, app override, action tag, app tag and the default. |
| `RoutingPolicies.ApplyRoutingPolicyPatch` | internal/catalog/routing_policy.go:177-215 | The patched policy is the specified one, for an app patch and for an action patch that may remove its entry. |
| `RoutingPolicies.PatchMeans` | internal/catalog/routing_policy.go:177-215 | The addressed tag or labels become those of the patch if it sets them and stay otherwise; an action without overrides has no entry; the revision rises by one, the recorded operation is cleared, and no other override is touched. |
| `Snapshots.StoredTwice` | internal/catalog/file_catalog.go:422-430 | Storing a deployment twice is storing it once, for any canonicalization that is idempotent. |
| `Snapshots.InterfacesIgnoreOverrides` | internal/contract/public_interfaces.go:72-95 | Canonical interfaces and overrides are independent: stripping commutes with canonicalization. |
| `Snapshots.InterfacesExactly` | internal/contract/public_interfaces.go:72-95 | Declarations are accepted exactly from manifests of the second version or none, and only if each is canonicalizable; then exactly they are rewritten. |
| `Snapshots.StoredMeans` | internal/catalog/file_catalog.go:396-430 | Storing makes the interfaces canonical if they can be, fills in the default tag, timeout and language where empty, and changes nothing else. |
| `Snapshots.NormalizeDeploymentMap` | internal/catalog/file_catalog.go:409-420 | When no two raw keys normalize to one, every deployment ends up stored under its own key. |
| `Snapshots.MigratePolicies` | internal/catalog/file_catalog.go:538-545 | Each deployment is stripped and its policy stored unless it is empty; other policies stay. |
| `Snapshots.BackfillActiveHistoryIDs` | internal/catalog/release_rollback.go:131-147 | A blank active id becomes that of the newest matching history entry of its key; all other ids stay. |
| `Snapshots.MatchesExactly` | internal/catalog/release_rollback.go:149-160 | A history entry matches by deployment identifier when both sides have one, else by commit and bundle digest. |
| `Snapshots.BackfillMeans` | internal/catalog/release_rollback.go:131-147 | A missing or blank active id becomes that of the last matching entry in the history; where none matches, and everywhere else, it stays. |
| `Snapshots.NormalizeSnapshot` | internal/catalog/file_catalog.go:530-569 | The five loops together yield the specified snapshot, in whatever order the maps are visited. |
| `CatalogMigration.PassKeepsEffective` | internal/catalog/routing_policy.go:129-163 | One pass of normalization leaves every effective deployment as it was. |
| `CatalogMigration.PassesKeepEffective` | internal/catalog/file_catalog.go:651-659 | However often a snapshot has been normalized before, the same deployments are effective. |
| `CatalogMigration.EffectiveMeans` | internal/catalog/file_catalog.go:651-659 | What is effective under a key is the deployment as stored, its embedded overrides kept by storing, with the stored policy's tag and labels in force over the embedded ones for app and each action. |
| `CatalogMigration.SecondPassIsStable` | internal/catalog/file_catalog.go:530-569 | From the second pass on, normalization changes nothing more. |
| `CatalogMigration.SnapshotWithAppliedRoutingPolicies` | internal/catalog/file_catalog.go:651-659 | The applied snapshot holds exactly the effective deployments and is otherwise the normalized one. |
| `CatalogImports.MergeRecords` | internal/catalog/file_catalog.go:624-643 | The id set kept by the loop is exact: a record is appended when its id is new, also among the imported ones. |
| `CatalogImports.MergeByIdExactly` | internal/catalog/file_catalog.go:624-643 | Merging appends, in order, exactly the records whose id neither the target nor an earlier imported record has. |
| `CatalogImports.MergeSnapshot` | internal/catalog/file_catalog.go:601-649 | Merging yields both normalized snapshots in one, with target entries preferred. |
| `CatalogImports.JoinedMeans` | internal/catalog/file_catalog.go:601-649 | In the merged snapshot every table has the target's entry where it has one and else the imported one; history and audit are the target's followed by the new imported records. |
| `CatalogImports.CheckedStored` | internal/catalog/file_catalog.go:571-599 | After normalization the interface check passes or fails but rewrites nothing. |
| `CatalogImports.ImportTwice` | internal/catalog/file_catalog.go:346-381 | Importing the same catalog twice persists the same snapshot as importing it once. |
| `CatalogImports.ImportKeeps` | internal/catalog/file_catalog.go:601-649 | Existing entries win: deployments, markers, candidates and active ids stay, history and audit are extended, and existing policies keep their effect. |
| `CatalogRuns.FindRelease` | internal/catalog/release_rollback.go:36-46 | The first history entry of the workspace and app with the id, or none. |
| `CatalogRuns.PreparedIsBare` | internal/catalog/file_catalog.go:444-460 | A prepared release is canonical, filed under its own key and free of overrides. |
| `CatalogRuns.PreparedKeeps` | internal/catalog/file_catalog.go:383-460 | Preparing keeps what identifies a release and all action tags, removes overrides, and dates what has no date. |
| `CatalogRuns.PublishMeans` | internal/catalog/file_catalog.go:105-133 | A publication is refused for its interfaces only; it sets deployment and active id of its own key, appends one history entry and one audit record, marks its source, and leaves the rest alone. |
| `CatalogRuns.PlacementMeans` | internal/catalog/file_catalog.go:214-302 | A placement changes the one policy it addresses, starting from the stored one or an empty one, as the patch says and one revision up; deployments, active ids, history and other policies stay. |
| `CatalogRuns.PlacementExactly` | internal/catalog/file_catalog.go:235-302 | Placement is refused exactly for an app or action that is not deployed, and is audited once under its trimmed actor. |
| `CatalogRuns.EventKeepsConsistent` | internal/catalog/file_catalog.go:105-133 | Every successful event keeps the catalog consistent and only appends to its history; publishing and rolling back leave every routing policy as it reads. |
| `CatalogRuns.RunKeepsConsistent` | internal/catalog/file_catalog.go:235-302 | Every run from a consistent catalog stays consistent, and no history entry is removed or changed. |
| `CatalogRuns.ActiveIsReleased` | internal/catalog/release_rollback.go:92-129 | After every run from the empty catalog each active id names exactly one history entry of that workspace and app, and the active deployment is that entry's without overrides. |
| `CatalogRuns.PlacementSurvives` | internal/catalog/release_rollback.go:114-117 | After a publication or rollback what runs has the overrides the policy read before it. |
| `CatalogRuns.RollbackRestores` | internal/catalog/release_rollback.go:92-129 | A rollback switches one key to the named release exactly as published and changes no other deployment, active id or history. |
| `CatalogRuns.RollbackExactly` | internal/catalog/release_rollback.go:36-129 | A rollback goes through exactly when app, release, actor and reason are not blank, the history has such a release of the app, and it is not the active one. |
| `CatalogRuns.RollbackRecords` | internal/catalog/release_rollback.go:85-129 | A rollback appends one audit record naming its actor and marks the source of the release with the commit it went back to. |
| `CatalogRuns.JoinedIsConsistent` | internal/catalog/file_catalog.go:601-649 | Joining two consistent catalogs that agree on shared release ids gives a consistent one. |
| `CatalogFiles.FileCatalog.PublishRelease` | internal/catalog/file_catalog.go:105-133 | The file afterwards is that of the publish event, or untouched on error; the prepared release is returned. |
| `CatalogFiles.FileCatalog.RollbackRelease` | internal/catalog/file_catalog.go:135-151 | The file afterwards is that of the rollback event, or untouched on error; the returned release is the first loaded history entry of the requested workspace, app and id. |
| `CatalogFiles.FileCatalog.SetAppRoutingPolicy` | internal/catalog/file_catalog.go:235-264 | The file afterwards is that of the placement event; the returned deployment runs with the patched policy. |
| `CatalogFiles.FileCatalog.SetActionRoutingPolicy` | internal/catalog/file_catalog.go:270-302 | The file afterwards is that of the action placement event, refused for an unknown app or action; the returned action is the one that runs with the patched policy. |
| `CatalogFiles.FileCatalog.SetInitialAppRoutingPolicy` | internal/catalog/file_catalog.go:214-233 | The file afterwards is that of the initial placement event, which needs no deployment; the patched policy is returned. |
| `CatalogFiles.FileCatalog.GetRoutingPolicy` | internal/catalog/file_catalog.go:201-212 | The policy as it reads: the stored one, or a new one, normalized. |
| `CatalogFiles.FileCatalog.ImportCatalog` | internal/catalog/file_catalog.go:346-360 | The file afterwards is that of the import, or untouched when either side fails the check. |
| `CatalogFiles.FileCatalog.Load` | internal/catalog/file_catalog.go:304-324 | A missing file is an empty catalog; any other is normalized and checked. |
| `CatalogFiles.FileCatalog.Write` | internal/catalog/file_catalog.go:362-381 | What is written is normalized and checked, or nothing is written. |
| `CatalogFiles.ApplyReleaseRollback` | internal/catalog/release_rollback.go:92-129 | Blank requests, unknown releases and the release already active are refused; otherwise the named release is switched to. |
| `AdmissionStores.IdentityInjective` | internal/execution/service.go:703-706 | Identities whose workspace and scope hold no zero character have equal pre-images only when they are equal. |
| `AdmissionStores.PreimageIsUniqueExactly` | internal/execution/service.go:703-706 | A pre-image belongs to one identity only if and only if no component holds a zero character. |
| `AdmissionStores.MatchPinsRelease` | internal/execution/release_precondition.go:19-37 | Two releases that match one normalized precondition have the same non-blank commit and bundle digest. |
| `AdmissionStores.LocalStore.CreateRunAndEnqueue` | internal/state/local_store.go:153-196 | Insert or conflict: the outcome is bound first, an aborted identity is told apart, and a failure changes nothing. |
| `AdmissionStores.LocalStore.ResolveAdmissionOutcome` | internal/state/local_admission_outcome.go:39-85 | A settled outcome is returned for its own fingerprint only; an unsettled identity becomes admitted if it has a run and aborted if not. |
| `AdmissionStores.LocalStore.PruneSettledRuns` | internal/state/local_store.go:1593-1639 | Retention binds an outcome to every run that has a fingerprint and none yet, then removes exactly the settled ones of the expired runs; outcomes stay. |
| `AdmissionStores.CreateIsOk` | internal/state/local_admission_outcome.go:87-110 | Inserting keeps one run per identity and every outcome true of the runs. |
| `AdmissionStores.PruneIsOk` | internal/state/local_store.go:1593-1639 | Retention keeps one run per identity and every outcome true of the runs. |
| `AdmissionStores.PrunedExactly` | internal/state/local_store.go:1593-1639 | Retention removes a run exactly when it is expired and has succeeded, failed, been canceled or expired. |
| `AdmissionProtocol.StepKeepsInvariant` | internal/execution/service.go:362-383 | Every step of every call, abort, worker and retention keeps the invariant, remembers every run, keeps settled outcomes, and changes no reply already given. |
| `AdmissionProtocol.OneRunPerIdentity` | internal/execution/service.go:522-548 | In every interleaving, retention included, at most one run is stored per identity. |
| `AdmissionProtocol.OneCreation` | internal/execution/service.go:522-548 | At most one call per identity reports that it created the run, even when retention took that run in between. |
| `AdmissionProtocol.SettledIsNotCreated` | internal/state/local_store.go:1593-1639 | An identity whose outcome is admitted is never created again, whatever retention takes. |
| `AdmissionProtocol.RepliesAgree` | internal/execution/service.go:734-742 | All successful replies for one identity return the same run, stored or taken by retention, with equal fingerprints; only a run stored without a fingerprint is exempt. That retries do succeed is RetryIsAnswered. |
| `AdmissionProtocol.LegacyRunAcceptsBoth` | internal/execution/service.go:734-742 | The exemption is real: wherever a run without a fingerprint is stored, any two requests with its identity both succeed. |
| `AdmissionProtocol.LegacyRunMayBeForgotten` | internal/state/local_store.go:1593-1639 | It is real for retention too: wherever such a run is stored, it can be taken, and the identity is then answered with a second run. |
| `AdmissionProtocol.RepliesArePinned` | internal/execution/service.go:378-380 | A create with a release precondition that succeeds returns a run of a matching release, whether fresh, replayed or found after a conflict. |
| `AdmissionProtocol.AbortedStaysAborted` | internal/execution/service.go:251-265 | An identity once aborted has no run ever after and no call gets a run of it any more; none ever did, unless a run without a fingerprint was taken before. |
| `AdmissionProtocol.ProbesAreFinal` | internal/execution/service.go:234-266 | A probe that said aborted stays right for good, and one that said admitted names the run of every other success, unless a run without a fingerprint was taken. |
| `AdmissionReplies.CreateFindsRun` | internal/execution/service.go:362-383 | A create that finds the run of its identity, at once or after a collision, is answered with it, replayed, if the fingerprint is the same or none was stored and the release is the expected one, by trimmed commit, bundle digest and, when given, deployment id; else it is refused for the one or the other. |
| `AdmissionReplies.ProbeFindsRun` | internal/execution/service.go:234-266 | A probe that finds the run is answered with it when client and fingerprint fit and conflicts exactly when not. |
| `AdmissionReplies.ProbeFindsOutcome` | internal/execution/service.go:234-266 | A probe that finds no run is answered from the outcome: ready without one, aborted for its own fingerprint, a conflict for another. |
| `AdmissionReplies.InsertIsAnswered` | internal/execution/service.go:522-548 | An insertion succeeds where neither run nor outcome is known and stores both; an abort of the same request is told apart, and anything else rereads. |
| `AdmissionReplies.PinIsAnswered` | internal/execution/service.go:395-401 | A new run is prepared with a release exactly when that is the expected one. |
| `AdmissionReplies.AbortIsAnswered` | internal/state/local_admission_outcome.go:39-85 | An abort settles an identity without outcome as admitted if its run is stored and as aborted if not, and changes nothing where the fingerprint differs or an outcome exists. |
| `AdmissionReplies.RetryIsAnswered` | internal/execution/service.go:522-548 | In every interleaving, as long as retention spares the run, a create that begins, or has its own run prepared, while the run of its identity is stored ends with that run, replayed, or is refused for a differing fingerprint or release or a failure of its own. |
| `AdmissionReplies.ProbeIsAnswered` | internal/execution/service.go:234-266 | The same for probes: with the run stored and fitting, a probe never says ready or aborted. |
| `AdmissionReplies.RetryIsReplayed` | internal/execution/service.go:734-742 | Idempotency: from any state, sending the request of a stored run again, without a precondition or with one that names the run's release, returns that run as replayed and changes nothing in the store. |
| `Encoding.FramesSplit` | internal/executionlimit/fingerprint.go:133-138 | Lists of frames shorter than 4 GiB split off the front of a byte string in one way only. |
| `Encoding.HashStringSplits` | internal/executionbundle/store.go:337-342 | Decimal length, colon, value and zero byte split off in one way only, whatever the length. |
| `Encoding.DigitsRoundTrip` | internal/executionbundle/store.go:337-342 | Formatting a number and reading its digits back gives the number. |
| `Fingerprints.ValidatePointer` | internal/contract/contract.go:275-294 | The byte loop accepts exactly the pointers whose every token escapes '~' as '~0' or '~1', within the length limit. |
| `Fingerprints.PointerExactly` | internal/contract/contract.go:275-294 | A pointer is valid exactly when it starts with a slash, has at most 256 bytes of valid UTF-8 and escapes every '~' as '~0' or '~1'. |
| `Fingerprints.TrimBytesMeans` | internal/executionlimit/fingerprint.go:89-131 | Trimming removes white space at both ends, and all of it. |
| `Fingerprints.NormalizedFields` | internal/executionlimit/fingerprint.go:89-131 | Each field of the normalized shape is the trimmed field of that name; an app-wide shape names no action. |
| `Fingerprints.NormalizesExactly` | internal/executionlimit/fingerprint.go:89-131 | A shape is refused exactly for a blank name, an unknown scope or kind, a window that does not fit the kind, or its pointers. |
| `Fingerprints.Fingerprint` | internal/executionlimit/fingerprint.go:42-65 | What is fed to the hash is the pre-image of the normalized shape, and nothing when the shape is refused. |
| `Fingerprints.PreimageSpelled` | internal/executionlimit/fingerprint.go:42-65 | The pre-image spelled out: the order of the frames, the constants among them, and the window of rate limits alone. |
| `Fingerprints.NormalizedTwice` | internal/executionlimit/fingerprint.go:89-131 | Normalization of a shape is a projection: what it returns, it returns unchanged, white space of every encoded length trimmed. |
| `Fingerprints.FingerprintInjective` | internal/executionlimit/fingerprint.go:42-65 | With fields short enough for the frame's four length bytes, two accepted shapes feed the same bytes exactly when their normalized shapes are equal, despite the uncounted pointer list and the unframed window. |
| `Fingerprints.LongFieldsCollide` | internal/executionlimit/fingerprint.go:133-138 | Without that bound it fails: two different shapes with fields of 4 GiB or more feed the same bytes. |
| `KeyMaterial.QuoteInjective` | internal/execution/execution_limits.go:232-253 | The JSON quoting of strings loses nothing. |
| `KeyMaterial.RatStringCanonical` | internal/execution/execution_limits.go:242-247 | The spelling of a number depends on its rational value and determines it. |
| `KeyMaterial.RatStringMeans` | internal/execution/execution_limits.go:242-247 | A number is written in lowest terms, a whole one without a denominator. |
| `KeyMaterial.ComponentCanonical` | internal/execution/execution_limits.go:232-253 | Two scalars have the same component exactly when they have the same type and value. |
| `KeyMaterial.ComponentMeans` | internal/execution/execution_limits.go:232-253 | Exactly texts, booleans and readable numbers contribute, each its type and its spelling. |
| `KeyMaterial.PassesReadOnce` | internal/execution/execution_limits.go:206-208 | On validated tokens the two replacement passes agree with reading each escape once from left to right, as section 4 of RFC 6901 means it. |
| `KeyMaterial.ResolvePointer` | internal/execution/execution_limits.go:202-230 | The walk selects what the token-by-token definition selects, with the same error for a missing member, bad index, range or scalar. |
| `KeyMaterial.ChildOfItems` | internal/execution/execution_limits.go:202-230 | Of an array a token selects the item it is the index of, and nothing else. |
| `KeyMaterial.ResolveKeyMaterial` | internal/execution/execution_limits.go:182-200 | The buffer holds the frames of all components in pointer order, and the first failing pointer fails the whole. |
| `KeyMaterial.FailsExactly` | internal/execution/execution_limits.go:182-200 | Key material fails exactly when some pointer selects nothing, no scalar, or one whose component is longer than 4096 bytes. |
| `KeyMaterial.SameMaterialExactly` | internal/execution/execution_limits.go:182-253 | For one pointer list two inputs give equal key material exactly when every pointer holds values of the same type and value, numbers compared as rationals. |
| `TreeDigest.HashTree` | internal/executionbundle/store.go:274-335 | The walk feeds the bytes of every entry but the root marker and counts regular files and their bytes. |
| `TreeDigest.HashedExactly` | internal/executionbundle/store.go:274-335 | Exactly the entries under another name than the root marker's are hashed, in their order. |
| `TreeDigest.CountedExactly` | internal/executionbundle/store.go:274-335 | Files and links are counted, and the sizes of regular files added up. |
| `TreeDigest.TreeBytesInjective` | internal/executionbundle/store.go:274-342 | Equal digest pre-images mean equal entry sequences: path, mode, kind and content or target. |
| `TreeDigest.ExtractTar` | internal/remoteworker/client.go:366-443 | What extraction feeds its hash is the bytes of the entries it restores; the first refused header fails the whole. |
| `TreeDigest.ExtractedExactly` | internal/remoteworker/client.go:366-436 | Which headers are accepted, by a walk along the name that knows no cleaning of paths, and which entry each becomes: its path, the permission bits of its mode, its content or target. |
| `TreeDigest.LinkIsWalked` | internal/executionbundle/store.go:390-400 | A link is accepted exactly when it is relative and the walk along its target from its own directory ends in the tree. |
| `TreeDigest.LinkClimbsExactly` | internal/executionbundle/store.go:390-400 | A link that climbs some levels is accepted exactly when it does not climb above its own depth, or goes back down into the tree. |
| `TreeDigest.HeaderRestored` | internal/remoteworker/client.go:366-436 | Extraction accepts the archive's header of a walked entry exactly when the entry is extractable, and then restores it. |
| `TreeDigest.FetchAgreesWithPublish` | internal/remoteworker/client.go:366-443 | On an archive that lists a tree in walk order extraction feeds exactly the bytes publication fed. |
| `TreeDigest.DigestsAgreeExactly` | internal/remoteworker/client.go:366-443 | For every published tree, root marker included, the fetched digest pre-image is the published one if and only if what was fetched is the published tree without that marker. |
| `TreeDigest.DotDotNameIsRefused` | internal/remoteworker/client.go:376-379 | A tree with a file named '..data' can be published, but every fetch of it is refused. |
| `EscapedPath.CanonicalEscapedPath` | internal/opaquehttp/validation.go:313-326 | The builder loop writes each safe byte as itself and any other as an upper-case octet. |
| `EscapedPath.SafeIsPathCharacter` | internal/opaquehttp/validation.go:328-333 | The safe bytes are exactly the path characters of section 3.3 of RFC 3986, without the star. |
| `EscapedPath.UnescapeCanonical` | internal/opaquehttp/validation.go:313-326 | Percent-decoding undoes the canonical encoding of every byte string (sections 2.1 and 6.2.2 of RFC 3986). |
| `EscapedPath.ValidateCanonicalEscapedPath` | internal/opaquehttp/validation.go:267-311 | The index loop accepts exactly the paths that pass every check. |
| `EscapedPath.SplitCanonical` | internal/opaquehttp/validation.go:295-309 | Splitting at '/' commutes with the canonical encoding. |
| `EscapedPath.AcceptedSegments` | internal/opaquehttp/validation.go:295-309 | For every accepted path splitting at '/' commutes with decoding, and no decoded segment is '.' or '..' (section 3.3 of RFC 3986). |
| `EscapedPath.AcceptedExactly` | internal/opaquehttp/validation.go:267-311 | A path is accepted exactly when it is the canonical encoding of a clean absolute path without '\\', '%' or '*'. |

## Left out

- Telemetry, metrics, CLI, UI, HTTP servers, subprocesses and most of the server package: plumbing around the modelled logic.
- SHA-256 and AES-GCM: results are about the bytes that are hashed; identities stand for their digests.
- JSON text: decoding and encoding are parameters (`Codec`, `Library`) or documents are given decoded; an object keeps the order in which its members are visited, and a masking document's keys are not values.
- int32 and int64 counters in the masker, the sweep and policy revisions are unbounded integers.
- Locks: every method of the masker and its registry is one atomic step, as its mutex makes it.
- Masking across a flush in the middle of a stream: bytes of an unfinished secret are emitted there, so equality with batch masking is stated for one final flush; the per-call contracts cover every flush.
- UTF-8 validity of fingerprint pointers is a parameter.
- CandidateSweep.Sweep: lower-casing is modelled on ASCII letters; clock, metrics and the ticker loop around it are left out.
- Slices of access lists are modelled as sets: the sorted order of the stored lists and of the reported secrets is not stated. Resolution builds new containers where the code rewrites a freshly decoded one.
- RuntimeClosure.BuildAccess: the search visits every known resource below the one it is at, so a depth or cycle error need not mean a real chain; their causes and the sufficient condition for success are stated in terms of what is named twice and how much is reached, and no condition is claimed to be necessary for success. A resource that is only declared may be missing even if another resource refers to it, since one visited before it becomes required is not checked again.
- Actor-scoped SDK lookups, audit records and the redaction pass over pinned variables after resolution: each is one guarded lookup.
- Which of several defects of a document its resolution reports is stated by the walk itself only, since it depends on the order of the document; that it resolves at all, and the cause of each refusal, are stated without it.
- Catalog keys are (workspace, app) pairs rather than joined strings, and no two raw deployment keys are assumed to normalize to one.
- Snapshots.NormalizeSnapshot: strict idempotence is not claimed; an untrimmed embedded tag is copied first and trimmed by the next pass, so stability is stated from the second pass on.
- Maps shared between a policy and its earlier copy: policies are values, so the in-place trimming of a stored policy and the audit detail computed from both copies are not captured; the detail and author of audit records, and fields of a release that no operation reads, are left out.
- Release candidates, source leases and audit queries: lookups and inserts without further state; candidates take part in normalization, checks and import.
- CatalogRuns.RunKeepsConsistent: release ids are assumed fresh, as random UUIDs are, and imports to come from consistent catalogs that agree on shared ids.
- Admission checks that involve no shared state (principal scopes, schemas, lifecycle, limits) are one step that may fail at any time; jobs, runs without an idempotency key and the encryption of inputs are left out, and stored runs are assumed to carry their idempotency hash.
- Retention ages: the runs past their retention are an arbitrary set of identities. Loading the state binds missing outcomes (internal/state/local_admission_outcome.go:112-134), which is modelled where it matters, in front of the removal.
- AdmissionStores.LocalStore.CreateRunAndEnqueue: the trimming and length check of stored fingerprints is left out, since they are digests or empty.
- Files, modes and symbolic links on disk: a tree is its entry sequence in walk order and a tar stream its header sequence.
- KeyMaterial.ResolvePointer: array indices follow the code, which also accepts a sign, so the index grammar of section 4 of RFC 6901 is not claimed.
- Delivery keys of opaque HTTP ingress, label normalizers, retry delays, deadlines and log caps: they would only add easy members.
