# Verified models of the Config Connector tooling

This project models, in Dafny, the parts of the Kubernetes Config Connector repository whose
behaviour is an algorithm or a protocol rather than plumbing, and proves what they promise for every
input, every graph and every run of requests.

* **Dependency ordering** (`Ordering`, `Graphs`, `Kahn`, `TopologicalSorting`, `MigrationOrder`).
  Both scripts run Kahn's algorithm with a re-sorted queue. Each is a method with the script's own
  in-degree table, queue and loops, proved to perform a *greedy run*: at every step it takes the least
  kind, in key order, among those with no unfulfilled dependency. The graph facts are proved about
  greedy runs: a run that stops drains exactly the kinds that reach no dependency cycle; the run by
  name is the lexicographically least topological order; the run by (-downstream count, name) leaves
  the queue in ascending order of that static key on every graph, so it is one plain sort.
* **Migration plan** (`MigrationPlan`, `MigrationReadiness`). The sort orders attached to resources, the
  renumbering that puts deprecated kinds last, and the dashboard's ready-to-migrate list that uses
  them. The final order of any two kinds is stated exactly, on every graph. Working through the pending
  kinds in ascending order finds each one ready exactly when no pending kind waits for a deprecated kind
  that is not completed; then no order of ready kinds strands the migration. On any data at all, cyclic
  included, a migration that runs dry has completed exactly the pending kinds from which neither a cycle
  of pending kinds nor an uncompleted deprecated kind is reachable.
* **Test targets** (`FieldPaths`, `TestTargets`). The depth-first search for reference fields through a
  possibly recursive type graph, the search for those paths in fixture manifests, and the selection
  built from both.
* **Etag protocols** (`IamPolicies`, `AccessPolicies`). Two compare-and-swap protocols whose new etag
  hashes the object while it still holds the old etag. The hash is symbolic: `Digest(policy)` is a
  datatype constructor, so it is injective and acyclic by construction. Nothing is claimed about
  collisions of the real hash.
* **Review balancer** (`ReviewBalancer`). The workload audit and the capped assignment loop. Where issue
  affinity does not decide, the outcome is the most even one that as many reviews allow.
* **Metrics recorder** (`Recorder`). The watch reconciliation loop and the counts it publishes.
* **BigQuery and Asset mocks** (`DatasetAccess`, `TableSchemas`, `FeedNames`, with `Names` for splitting,
  joining and `%d`). The six-key stable sort of access entries, schema normalization, feed names.

`StableSort` is an insertion sort; `StableSortUnique` shows that every stable sort gives the same
result, so it stands for Python's `sort` and Go's `sort.SliceStable`. Sets and dictionaries are iterated
in an arbitrary order, and the contracts hold for all of them.

Inputs rather than code: the dependency sets read from CRD files, the issue numbers found in pull
requests, the parsed Go structs with their JSON field names, the classification of changed files, clock
readings and server-assigned IDs, the project store, and what the Kubernetes watches hold. Storage is a
map: creating an existing key fails, and reading, updating or deleting a missing one fails. Each request
to a mock is one atomic step.

Results that are narrower than a first reading of the code suggests:

* A set of an IAM policy that carries no etag can restore an earlier etag (`EtaglessSetsCanRestore`).
  Over any run the etag is unchanged exactly when nothing was written, or an etag-less set and the
  writes after it rebuilt the contents stacked inside it (`EtagUnchangedIff`, `SetAfterRunSucceedsIff`).
  If all sets carry etags only the first can happen (`CompareAndSwap`).
* An access policy deleted and created again under the same name can get its etag back
  (`RecreationRestores`). `ConditionalUpdateIff` says exactly when; policy IDs come from the clock, and
  while they do not repeat, a conditional update succeeds exactly when the policy was neither deleted
  nor updated (`FreshConditionalUpdateIff`).
* Feed names whose folder or organization ID is empty are accepted and stored under project number 0, so
  they collide (`EmptyParentsCollide`). `SameKeyIff` and `PrintThenParseIff` state the exact conditions.
* Two CRDs with the same GroupKind overwrite each other's gauges, and objects go uncounted
  (`SameGroupKindLosesObjects`). The gauges are plain counts, equivalently they sum to the number of
  objects, exactly when no two synced views of one GroupKind hold objects under the same namespace and
  condition (`GaugesCountObjectsIff`); distinct GroupKinds are one such case.
* The reply to a table insert is not always what is read back (`InsertReplyIsReadBackIff`).

## Model

| member | source | states |
|---|---|---|
| Ordering.StrLessIsAlphabetical | hack/directmigration/topological-sort.py:116-129 | the string order used everywhere: a proper prefix comes first, otherwise the smaller character at the first difference |
| Ordering.StableSortCorrect | mockgcp/mockbigquery/datasets.go:143-172 | the sort is sorted, a permutation, and leaves every class of equal keys in input order |
| Ordering.StableSortUnique | mockgcp/mockbigquery/datasets.go:143-172 | two sorted sequences with the same classes are equal, so any stable sort gives this result |
| Ordering.StableSortKeepsOrder | dev/migration-tracker/generate_data.py:469-470 | an element that is not greater than a later one still precedes it after sorting |
| Ordering.StableSortPositions | dev/tasks/balance_reviews.py:91 | a stable sort moves the elements by one order of their positions: by key and, among equal keys, from front to back |
| Graphs.ReadyRunStopsIff | hack/directmigration/topological-sort.py:114-136 | a run that takes ready kinds in any order whatever only drains kinds from which no cycle is reachable, and has nothing left to take iff it has drained all of those |
| Graphs.CompleteRunDrainsSound | hack/directmigration/topological-sort.py:120-136 | a greedy run that stops has drained exactly the kinds from which no dependency cycle is reachable, whatever the key |
| Graphs.CompleteRunUnique | hack/directmigration/topological-sort.py:114-129 | the key leaves no choice: two complete runs of one graph are equal, whatever order sets iterate in |
| Graphs.CompleteRunIsLeastOrder | hack/directmigration/topological-sort.py:115-129 | on an acyclic graph the run by name is a topological order and lexicographically at most every other one |
| TopologicalSorting.TopologicalSort | hack/directmigration/topological-sort.py:94-138 | a permutation of the distinct targets; the cycle report is exactly the targets that reach a cycle; every other kind follows its dependencies; reported kinds last, alphabetically; when acyclic, the alphabetically least topological order; kinds without dependencies exact |
| TopologicalSorting.Drain | hack/directmigration/topological-sort.py:105-129 | the queue loop performs a complete greedy run by name and leaves the in-degree table counting undrained dependencies |
| Kahn.BuildLocalGraph | hack/directmigration/topological-sort.py:95-100 | the loop computes the dependencies restricted to the nodes |
| Kahn.BuildReverse | hack/directmigration/topological-sort.py:109-112 | the loops compute, for each node, exactly the nodes that depend on it |
| Kahn.PositiveDegreeIsStuck | hack/directmigration/topological-sort.py:132-136 | once nothing is ready, a positive in-degree marks exactly the undrained nodes |
| MigrationOrder.GetAllDownstream | dev/migration-tracker/generate_data.py:318-327 | the search terminates and returns the size of the transitive closure of the reversed graph from the node, the node itself counted iff it lies on a cycle |
| MigrationOrder.CountDownstream | dev/migration-tracker/generate_data.py:329 | the table holds that size for every node |
| MigrationOrder.ReleasedHasFewer | dev/migration-tracker/generate_data.py:337-346 | a kind off every cycle has strictly fewer downstreams than anything it depends on |
| MigrationOrder.DrainAscends | dev/migration-tracker/generate_data.py:331-346 | on every graph nodes leave the re-sorted queue in strictly ascending order of (-downstream count, name) |
| MigrationOrder.DrainIsPlainSort | dev/migration-tracker/generate_data.py:331-346 | on an acyclic graph the loop's order equals one plain sort of all nodes by that key |
| MigrationOrder.NumberKinds | dev/migration-tracker/generate_data.py:331-351 | on every graph the number of a kind is one more than the count of kinds before it in a fixed order: cycle-free kinds by key, then the rest by name |
| MigrationOrder.NumberLeftovers | dev/migration-tracker/generate_data.py:348-351 | kinds the loop never reached get the following numbers in name order |
| MigrationOrder.DependencyNumberedFirst | dev/migration-tracker/generate_data.py:337-351 | a cycle-free kind has a larger number than each of its dependencies |
| MigrationPlan.Annotate | dev/migration-tracker/generate_data.py:353-456 | each resource gets its number or 9999, its downstream count and its tracked dependencies sorted by name; an uncompleted one with a step done is In Progress, every other state stays |
| MigrationPlan.Renumber | dev/migration-tracker/generate_data.py:458-478 | new numbers from 1 to n; one is smaller iff its kind comes first by (deprecated, old number, place in the dictionary); nothing else changed |
| MigrationPlan.OrderResources | dev/migration-tracker/generate_data.py:305-478 | the composition of all passes: on every graph, which of any two final numbers is smaller, stated without queue or sort; downstream count, state and dependencies of every resource, completed iff it was before; on an acyclic graph every tracked dependency between active kinds has the smaller number |
| MigrationReadiness.ReadyIff | dev/migration-tracker/app.js:139-155 | a resource is offered iff it is tracked, neither completed nor deprecated, and every tracked dependency is completed |
| MigrationReadiness.GeneratedDataIsOrdered | dev/migration-tracker/generate_data.py:458-478 | the file the passes generate satisfies the ordering the dashboard theorems assume |
| MigrationReadiness.PipelineKeepsPending | dev/migration-tracker/generate_data.py:455-478 | the pending kinds of the generated file are exactly the input kinds that are neither completed nor deprecated |
| MigrationReadiness.LeastPendingIsReady | dev/migration-tracker/app.js:139-155 | the pending kind with the least number is always offered |
| MigrationReadiness.ReadyListEmptyIff | dev/migration-tracker/app.js:311-319 | the ready list is empty iff nothing is pending |
| MigrationReadiness.AscendingMigratesIff | dev/migration-tracker/app.js:321-323 | completing the pending kinds in ascending order finds each one offered in turn iff none depends on a deprecated kind that is not completed |
| MigrationReadiness.MigrationAlwaysFinishes | dev/migration-tracker/app.js:139-155 | any order of completing offered kinds stops only when all pending kinds have been completed, each once |
| MigrationReadiness.MigrationRunsDryIff | dev/migration-tracker/app.js:139-155 | for any data with distinct kinds, cyclic included: a migration completes only finishable kinds, and its ready list is empty iff it completed all of them, finishable meaning pending with no cycle of pending kinds and no uncompleted deprecated kind reachable |
| FieldPaths.ExtractedIsBaseName | hack/find-test-targets/main.go:653-666 | the extracted name is that of the identifier or selector under any nesting of pointers and lists, and empty for any other type |
| FieldPaths.HitsIffRefers | hack/find-test-targets/main.go:624-626 | a field matches iff its base name is the reference type or ends in a dot and the reference type |
| FieldPaths.FindPathsInStruct | hack/find-test-targets/main.go:604-636 | terminates on any type graph, leaves the visited marks as found, returns the paths of the specification |
| FieldPaths.PathsListChains | hack/find-test-targets/main.go:604-636 | the result lists the names along the repetition-free chains of JSON fields, each leading to the next by base name, to the reference type, one entry per chain |
| FieldPaths.PathsExact | hack/find-test-targets/main.go:604-636 | a path is returned iff some repetition-free chain spells it |
| FieldPaths.EraseLoops | hack/find-test-targets/main.go:605-609 | any chain can be cut down to one that visits no struct twice |
| FieldPaths.StopAtHit | hack/find-test-targets/main.go:622-626 | any walk of fields to the reference type can be stopped at its first field of that type |
| FieldPaths.FoundIffReachable | hack/find-test-targets/main.go:585-602 | some path is found iff any walk of visible fields leads to the reference type, revisiting structs and passing through fields of that type included |
| TestTargets.HasNonEmptyPathExact | hack/find-test-targets/main.go:680-715 | true iff some concrete location spells the path, with list positions inserted at any depth, and holds something other than null, empty text, an empty object or an empty list |
| TestTargets.RefSelectsExact | hack/find-test-targets/main.go:668-678 | a fixture has a reference field iff a repetition-free spec chain to the reference type leads to a non-empty value in its create or update object |
| TestTargets.FindFieldPathsForRef | hack/find-test-targets/main.go:585-602 | maps exactly the kinds with a path to their paths |
| TestTargets.AddRefType | hack/find-test-targets/main.go:425-434 | one reference type adds exactly the folders whose fixtures use it |
| TestTargets.CollectDirect | hack/find-test-targets/main.go:389-420 | fixture files and resource files select exactly their folders and whole kinds |
| TestTargets.WantedIff | hack/find-test-targets/main.go:389-434 | the reasons to select a folder, and a whole kind, read off the index: its fixture file changed, or an indexed fixture in it whose resource changed or that sets a changed reference type |
| TestTargets.ResolveTargets | hack/find-test-targets/main.go:370-452 | the targets are exactly the folders some rule wants, sorted and without repeats, with the whole-kind flag exact |
| IamPolicies.MockIamPolicies.GetIamPolicy | mockgcp/mockiampolicies.go:63-70 | a resource without a policy reads as the empty policy with its digest |
| IamPolicies.MockIamPolicies.ServeGetIamPolicy | mockgcp/mockiampolicies.go:72-78 | replies with the current policy |
| IamPolicies.MockIamPolicies.ServeSetIamPolicy | mockgcp/mockiampolicies.go:80-120 | when it fails, panics, conflicts or is accepted; an accepted set stores and replies the request's bindings and audit configs, its version or 1 without conditions, and the digest of that with the request's etag; nothing else changes |
| IamPolicies.ReachableIsConsistent | mockgcp/mockiampolicies.go:115-116 | in every run every stored policy carries the digest of its own content |
| IamPolicies.EtagNamesPolicy | mockgcp/mockiampolicies.go:63-70 | in reachable states equal etags mean equal policies, the unset policy included |
| IamPolicies.ReadEtagSucceedsIff | mockgcp/mockiampolicies.go:91-118 | a set with an etag read in some reachable state succeeds iff the stored policy equals the one read, etag-less sets included |
| IamPolicies.StackDeterminesEtag | mockgcp/mockiampolicies.go:115-116 | an etag is determined by the contents stacked inside it and what lies under them |
| IamPolicies.EtagStacksWrites | mockgcp/mockiampolicies.go:96-116 | over any run the contents inside an etag are the earlier ones plus those written, or only those written from the last etag-less set on |
| IamPolicies.EtagUnchangedIff | mockgcp/mockiampolicies.go:96-116 | over any run from a reachable state the etag is unchanged iff nothing was written, or an etag-less set and the writes after it rebuilt the same contents |
| IamPolicies.SetAfterRunSucceedsIff | mockgcp/mockiampolicies.go:91-118 | a set with the etag read before any run succeeds after it in exactly those cases |
| IamPolicies.EtagCountsWrites | mockgcp/mockiampolicies.go:96-116 | if all sets carry etags, each successful one stacks exactly its content on the etag |
| IamPolicies.EtagsNeverRepeat | mockgcp/mockiampolicies.go:96-116 | then the etag of a resource is unchanged iff it was not written |
| IamPolicies.CompareAndSwap | mockgcp/mockiampolicies.go:96-118 | then a set with an earlier etag succeeds iff no other set on the resource succeeded in between |
| IamPolicies.EtaglessSetsCanRestore | mockgcp/mockiampolicies.go:96-116 | a run with etag-less sets in which a stale etag succeeds after two writes |
| AccessPolicies.AccessContextManager.CreateAccessPolicy | mockgcp/mockaccesscontextmanager/accesspolicy.go:57-91 | accepted iff no stored policy has the parent and the ID is free; what was sent is stored under the new name with its digest, nothing if refused |
| AccessPolicies.AccessContextManager.UpdateAccessPolicy | mockgcp/mockaccesscontextmanager/accesspolicy.go:93-138 | which reply when; accepted iff the name is valid and stored, the etag absent or current, and the mask supported; title and scopes change iff the mask names them, parent and name never; no other policy changes |
| AccessPolicies.AccessContextManager.DeleteAccessPolicy | mockgcp/mockaccesscontextmanager/accesspolicy.go:140-159 | deleting is idempotent; the new store |
| AccessPolicies.AccessContextManager.GetAccessPolicy | mockgcp/mockaccesscontextmanager/accesspolicy.go:39-55 | returns what is stored under the name, or why not |
| AccessPolicies.NameIsItsKey | mockgcp/mockaccesscontextmanager/accesspolicy.go:182-196 | an accepted name is its own storage key |
| AccessPolicies.AcceptedNames | mockgcp/mockaccesscontextmanager/accesspolicy.go:182-196 | the accepted names are accessPolicies/ followed by a token without slashes |
| AccessPolicies.ReachableIsConsistent | mockgcp/mockaccesscontextmanager/accesspolicy.go:57-138 | in every run no two stored policies share a parent, and each is stored under its own name with a digest |
| AccessPolicies.EtagStacksWrites | mockgcp/mockaccesscontextmanager/accesspolicy.go:76-131 | over any run the contents inside the etag of a policy are those it started from or was created with, plus one for every accepted update, conditional or not |
| AccessPolicies.ConditionalUpdateIff | mockgcp/mockaccesscontextmanager/accesspolicy.go:108-131 | after any run an update with the etag read before it is accepted iff the policy was left alone, or was created anew and the same contents stacked on the same root |
| AccessPolicies.FreshConditionalUpdateIff | mockgcp/mockaccesscontextmanager/accesspolicy.go:76-131 | while policy IDs do not repeat, it is accepted iff the policy was neither deleted nor updated |
| AccessPolicies.RecreationRestores | mockgcp/mockaccesscontextmanager/accesspolicy.go:76-131 | deleting a policy and creating it again under the same ID brings the etag back |
| ReviewBalancer.AuditWorkloads | dev/tasks/balance_reviews.py:51-84 | each member's load is the number of review requests naming them; issues map to exactly the team members reviewing them; candidates are, in order, the pull requests labelled ready, not stopped and with nobody of the team asked |
| ReviewBalancer.AuditTracksTeam | dev/tasks/balance_reviews.py:66-79 | after the audit only team members are tracked, and all have a workload entry |
| ReviewBalancer.BalanceReviews | dev/tasks/balance_reviews.py:86-147 | the loop performs a run, each turn selecting by affinity or, failing that, the lightest of the whole team; served are the first candidates by (number, place in the input), as many as there are candidates or places below 10 |
| ReviewBalancer.CandidatesInNumberOrder | dev/tasks/balance_reviews.py:90-93 | the loop goes through the candidates by number and, among equal numbers, in input order |
| ReviewBalancer.RunEffects | dev/tasks/balance_reviews.py:132-138 | after any part of a run each load has grown by the assignments received, and an issue tracks those it did and those given a pull request that mentions it |
| ReviewBalancer.BalancedUnique | dev/tasks/balance_reviews.py:90-147 | the assignments and final dictionaries are determined by the inputs, whatever order sets iterate in |
| ReviewBalancer.TiersCollapse | dev/tasks/balance_reviews.py:119-130 | the lightest member below a threshold is the lightest of the team |
| ReviewBalancer.AssignmentsMade | dev/tasks/balance_reviews.py:93-147 | exactly the smaller of candidates and free places is assigned, to a prefix of the candidates; the team's load rises by that number |
| ReviewBalancer.LoadsBetween | dev/tasks/balance_reviews.py:99-134 | loads never fall, and nobody ends above the larger of 10 and their initial load |
| ReviewBalancer.AffinityRespected | dev/tasks/balance_reviews.py:106-138 | an assignment goes to the lightest reviewer with room tracked on the issues, ties by name, unless all of those are, and stay, at 10 or more; otherwise to the lightest of the team, for the reason its load being below 5 or not gives |
| ReviewBalancer.AffinityFreeKeepsGap | dev/tasks/balance_reviews.py:119-134 | a run in which affinity never decides keeps the gap between any two members within the larger of the initial gap and 1 |
| ReviewBalancer.AffinityFreeIsMostEven | dev/tasks/balance_reviews.py:119-134 | such a run is the most even: above every threshold the team holds no more reviews than after any other way of handing out as many, so no way has a smaller maximum or a larger minimum |
| Recorder.RelevantIffWatched | cmd/recorder/main.go:177-191 | a CRD is watched iff its group ends in .cnrm.cloud.google.com and no ignored name is its lower-case plural kind, a dot and its group |
| Recorder.LabelNamesGroupKind | cmd/recorder/main.go:219 | the gauge label is kind, dot, group, and two labels agree iff group and kind do |
| Recorder.Aggregate | cmd/recorder/main.go:206-216 | the nested counters hold exactly the positive counts by namespace and condition |
| Recorder.Record | cmd/recorder/main.go:218-227 | publishing one view sets exactly its gauges |
| Recorder.MetricsRecorder.Pass | cmd/recorder/main.go:165-237 | every view ever opened stays accounted for; after a full pass the live watches are those of the CRDs seen, none reopened; an unsynced pass touches no view; the resulting gauges |
| Recorder.MetricsRecorder.Run | cmd/recorder/main.go:153-245 | in every run that ends, the watches opened are those the passes call for, and every one has been closed exactly once |
| Recorder.MetricsRecorder.GetMetrics | cmd/recorder/main.go:250-274 | reports exactly the counts of each live view |
| Recorder.GaugeIsCountIff | cmd/recorder/main.go:206-227 | a gauge never exceeds the number of objects under it, and equals it iff at most one view contributes to it |
| Recorder.GaugesCountObjectsIff | cmd/recorder/main.go:206-227 | every gauge is the number of objects under it, iff the gauges sum to the number of objects, iff no two synced views of one GroupKind share a namespace and condition |
| Recorder.DistinctLabelsCountObjects | cmd/recorder/main.go:206-227 | so it is when all GroupKinds differ |
| Recorder.SameGroupKindLosesObjects | cmd/recorder/main.go:218-227 | two CRDs with one GroupKind whose gauges lose an object |
| Recorder.GaugeMatchesReport | cmd/recorder/main.go:206-274 | a gauge equals the count that GetMetrics reports for the view, if no other view contributes to it |
| DatasetAccess.AccessLessIsLex | mockgcp/mockbigquery/datasets.go:143-172 | the first of six keys in which two entries differ decides, alphabetically, the basic roles counting as the roles they alias |
| DatasetAccess.AccessOrderIsStrictWeak | mockgcp/mockbigquery/datasets.go:130-172 | the comparator is a strict weak order |
| DatasetAccess.SortAccessCorrect | mockgcp/mockbigquery/datasets.go:125-173 | the sort is a stable, idempotent permutation |
| DatasetAccess.OrderIndependentIff | mockgcp/mockbigquery/datasets.go:125-173 | the result is independent of the input order iff entries with equal keys are equal |
| DatasetAccess.ReachableIsSorted | mockgcp/mockbigquery/datasets.go:114-242 | in every run every stored dataset has its access entries in order |
| DatasetAccess.UpdateOrderDoesNotMatter | mockgcp/mockbigquery/datasets.go:190-205 | updating to the same entries in another order stores the same dataset, if keys identify entries |
| DatasetAccess.DatasetsServer.InsertDataset | mockgcp/mockbigquery/datasets.go:63-123 | every stored field: what was sent, or the default for a missing project, location or type; the entries are sorted and a permutation of those sent or of the four defaults |
| DatasetAccess.DatasetsServer.UpdateDataset | mockgcp/mockbigquery/datasets.go:175-210 | every stored field: reference, creation time, location and type are kept, the rest is the request's; the entries are sorted and a permutation of those sent |
| DatasetAccess.DatasetsServer.DeleteDataset | mockgcp/mockbigquery/datasets.go:249-265 | the new store |
| TableSchemas.NormalizeTableField | mockgcp/mockbigquery/tables.go:507-514 | on any tree of field messages the in-place walk leaves exactly the normalized value |
| TableSchemas.NormalizeAltersOnlyEmptyTags | mockgcp/mockbigquery/tables.go:499-514 | at every position of the field tree only an empty tag list is altered |
| TableSchemas.NormalizeSchemaAlters | mockgcp/mockbigquery/tables.go:499-514 | a schema stays absent or present, and altered only in empty tag lists |
| TableSchemas.NormalizeNoOpIff | mockgcp/mockbigquery/tables.go:499-514 | normalization changes nothing iff no field at any depth has an empty tag list, and is idempotent |
| TableSchemas.ReachableIsNormal | mockgcp/mockbigquery/tables.go:39-94 | in every run every stored schema is in normal form, so reading a table returns what was stored |
| TableSchemas.InsertReplyIsReadBackIff | mockgcp/mockbigquery/tables.go:350-372 | the reply to an insert is the table read back iff there is a schema and the partition filter settings already agreed |
| TableSchemas.TablesServer.InsertTable | mockgcp/mockbigquery/tables.go:96-373 | refused without a dataset or if the name is taken; every field of the reply, and of the stored copy, which differs in an absent schema and the repeated filter setting at most |
| TableSchemas.TablesServer.PatchTable | mockgcp/mockbigquery/tables.go:39-73 | the new store: names, schema and, for external tables, the filter setting are overwritten, the rest is kept |
| TableSchemas.TablesServer.UpdateTable | mockgcp/mockbigquery/tables.go:375-442 | the new store: what a patch overwrites and also expiration, labels, constraints, view and, for external tables, the external configuration; the rest is kept |
| TableSchemas.TablesServer.GetTable | mockgcp/mockbigquery/tables.go:75-94 | what is returned is in normal form, and is what is stored iff that is in normal form |
| FeedNames.AcceptedIff | mockgcp/mockasset/feed.go:150-174 | a name is accepted iff it denotes a feed of a known project, a folder or an organization |
| FeedNames.PrintThenParseIff | mockgcp/mockasset/feed.go:139-174 | printing and parsing again gives the name back iff its parent ID is non-empty or project number 0 is known |
| FeedNames.ParseThenPrintIsCanonical | mockgcp/mockasset/feed.go:139-174 | for non-empty parent IDs parse-then-print is a canonical name of the same feed |
| FeedNames.SameKeyIff | mockgcp/mockasset/feed.go:139-174 | two names share a storage key iff they denote the same feed ID in the same scope, projects by ID or number alike, empty IDs standing for project 0 |
| FeedNames.EmptyParentsCollide | mockgcp/mockasset/feed.go:139-174 | a folder and an organization with empty IDs share a key |
| FeedNames.StoredUnderOneNameSeenUnder | mockgcp/mockasset/feed.go:35-67 | a stored feed is seen under another name iff both denote the same feed; all other names see what they saw |
| FeedNames.FeedServer.GetFeed | mockgcp/mockasset/feed.go:35-50 | looks up the canonical key |
| FeedNames.FeedServer.CreateFeed | mockgcp/mockasset/feed.go:52-67 | stores under the canonical key iff it is free; otherwise nothing changes |
| FeedNames.FeedServer.DeleteFeed | mockgcp/mockasset/feed.go:116-130 | removes exactly the canonical key, or nothing |
| Names.JoinSplit | mockgcp/mockasset/feed.go:151 | joining what was split on slashes gives the string back |
| Names.DecimalReads | mockgcp/mockasset/feed.go:146 | the printed digits read back as the number |
| Names.DecimalInjective | mockgcp/mockasset/feed.go:146 | different project numbers print differently |

## Left out

- HTTP and gRPC wiring, JSON and protobuf encoding, headers and host matching: plumbing over libraries.
- The other mock services, `normalize.go` files, controllers and API reference types: they copy fields and fill in defaults one by one, with no invariant across requests to state.
- Reading YAML and CRDs, matching reference names to kinds, regular expressions, Go parsing, git and `gh` calls: their results are inputs.
- `getJSONFieldName`: the JSON name of each struct field is an input.
- `build_dependency_graph`: the model assumes what it guarantees, that dependencies run between known kinds.
- `buildDownstreamMap`, charts, tables and other rendering in `app.js`: user interface.
- Real concurrency and real hash collisions: requests are atomic steps and digests are symbolic.
- Etags of BigQuery datasets and tables: they are write-only in these handlers.
- `UpdateFeed`: field copying under a mask; it reaches storage through the same key.
- `PatchDataset` as a method: its body is that of the update; `Step` covers both requests.
- Lower-casing of CRD kinds: ASCII letters only, the only ones kinds may contain.
- Empty GitHub logins: a login is modelled as a non-empty string.
- ReviewBalancer.AssignmentsMade: assumes that only team members are tracked, which the audit ensures (`AuditTracksTeam`).
- FeedNames.PrintThenParseIff: assumes of the project store that a project that can be looked up at all can be looked up by its number.
- MigrationPlan.OrderResources: which kinds have a migration step done, and which resources start out completed, are inputs.
- TableSchemas.TablesServer.InsertTable: timestamps, byte counts, links, the table type and the default encryption are not modelled; the hard-coded schemas inferred for views and external data are inputs.
- TableSchemas.TablesServer.UpdateTable: that the request's own schema object is normalized along with the stored copy is not captured.
- DatasetAccess.SortAccessCorrect: the in-place sort of the slice is modelled as a function of the sequence.
- Recorder.MetricsRecorder.Run: the CRD watch itself, logging, sleeping and garbage collection are not modelled; the endless loop is a run of finitely many passes followed by cancellation.
