# BetweenRows: verified models of role resolution, the connection registry and their companions

BetweenRows is a PostgreSQL proxy that filters what a user sees by role-based policies. This
project models its decision core in Dafny and proves what that core keeps.

* **Role graph** (`Walks`, `BreadthFirst`, `Tables`, `Adjacency`, `UserRoles`, `Inheritance`,
  `CyclePath`, `Members`). Roles inherit from roles. `Walks` gives the vocabulary (walks, reach,
  distance, eccentricity, acyclicity). `BreadthFirst` gives the queue discipline as a recursive
  function `Explore` and proves the search theorem once: a role is found exactly when a seed
  reaches it within the cap, at the least possible depth, because FIFO order keeps queued depths
  ascending and within one of each other. The searches of the resolver are loops proved against
  that function.
* **Decisions** (`Policies`, `Consistency`). Effective assignments, datasource access and the
  policy report; how the searches agree with one another; monotonicity; completeness of cache
  invalidation.
* **Editing the graph** (`Edits`, `Limits`). The guard on a new inheritance edge, what every
  sequence of requests keeps, and where the depth limits do not hold.
* **Connection registry** (`Registry`, `RegistrySafety`, `RegistryLiveness`,
  `RegistryEvents`, `RegistryFreshness`, `RegistryOrder`, `RegistryStale`). The shared store is a
  class; accept, startup, rebuild tasks and cleanup are steps of a transition system over the same
  operations. `RegistryEvents` reads the state off the log, exactly.
  Claiming an id and inserting its context are separate steps, and so are building a context and
  writing it back. Policy versions count commits; `RegistryOrder` states freshness in terms of
  which commits and rebuilds came after a context was built.
* **Sessions** (`Sessions`). The two halves joined: in any run, with role changes, rebuilds and
  startups interleaved at will, which sessions hold what the resolver computes.
* **Companions** (`DiscoveryJobs`, `DatasourceConfig`, `PolicyMatch`, `AuditLog`).

Database tables are inputs. `role` is keyed by its primary key; `role_inheritance` rows are
unique by the unique index on (parent, child), which `AddParent` models as its conflict branch.
Ids are integers. `HashMap` and `HashSet` results whose order is arbitrary are returned as maps
and sets. A peer address, a failure and a policy version are parameters of the steps.

## Results where code and documentation part

* The edit guard admits chains of ten edges (`proxy/src/admin/role_handlers.rs:983-992`), but the
  resolver gives a direct role depth 1 and stops expanding at depth 10
  (`proxy/src/role_resolver.rs:63-70`), so it follows nine edges. `GuardAdmitsUnresolved` builds
  an admitted chain whose top its members do not hold; `HeldIffWithinNine` says exactly what they
  hold.
* The depth functions measure the greatest *shortest* distance, so removing an edge can leave two
  roles eleven edges apart (`RemovalBreaksBound`). The bound survives all removals exactly when no
  walk at all exceeds ten edges (`RemovalsSafeIffWalksShort`).
* "Enforces one-active-per-datasource" (`proxy/src/admin/discovery_job.rs:124-125`) fails when a
  cancelled job's runner reports after a new registration (`LateReportAdmitsTwo`). It holds exactly
  when every registration that goes through finds no running job (`OneIffCleanStarts`), and, in
  terms of what callers send, exactly when none comes while the datasource's running job is
  displaced, that is, after another job of that datasource ended following its registration
  (`OneIffUndisplaced`, `OffIndexIffDisplaced`). That every running job is indexed is a stronger
  property, with its own exact condition (`CompleteIffHarmless`).
* Overlapping rebuilds, and a startup that builds before a commit and inserts after the rebuild,
  each leave a stale context (`OverlapLeavesStale`, `LateInsertIsStale`). Once its tasks have
  finished an entry is always fresh exactly when no insert, and no write by the last task for a
  connection, stores a context that a commit followed by a rebuild has outrun since it was built
  (`SettledIffLastInOrder`; `ServedIffInOrder` speaks of entries whose tasks are still running too).
* Role deletion rebuilds before its commit (`proxy/src/admin/role_handlers.rs:745-784`), which can
  leave the old policies in place (`RebuildBeforeCommitIsStale`). It does so exactly when the task
  had built its context by the time of the commit (`RebuildBeforeCommitExact`).
* A comment has role deletion cascade to assignments and access rows
  (`proxy/src/admin/role_handlers.rs:773`), but the schema declares no foreign key for either
  (`migration/src/m20260320_000034_add_role_id_to_policy_assignment.rs:14`,
  `migration/src/m20260320_000040_fk_data_source_access_role.rs:3-5`). The results hold with and
  without the cascade, and rows left over apply to nobody (`LeftoverRowsAreInert`).
* Two open connections from one address can leave an entry behind (`SharedAddressLeaks`). A closed
  connection's id is stored exactly when a startup inserted under it after the close and nothing
  evicted it since (`ClosedStoredExact`), which happens only after a startup claimed an id that is not its own (`LeftIsForeign`);
  `OwnClaimExact` says when that is.
* Patterns with an inner star, or with more than one, are not globs (`GlobExactlyWhenSimple`).

## Model

| member | source | states |
|---|---|---|
| `BreadthFirst.SearchSound` | proxy/src/role_resolver.rs:67-82 | whatever a search finds is reached from a seed in exactly as many steps as its depth says, within the cap |
| `BreadthFirst.SearchComplete` | proxy/src/role_resolver.rs:67-82 | whatever a seed reaches within the cap is found, no deeper than that: first-in-first-out order makes `visited` and the cap exact together |
| `BreadthFirst.SearchMeasures` | proxy/src/role_resolver.rs:152-161 | uncapped from one role, the search finds exactly what is reachable, at its shortest distance |
| `BreadthFirst.LayeredExpand` | proxy/src/role_resolver.rs:72-80 | dequeuing and expanding a role keeps: queued depths ascend, no level exceeds the head's by more than one, every level is a walk's length, every expanded role's neighbours are at most one level on |
| `BreadthFirst.LayeredSkip` | proxy/src/role_resolver.rs:67-71 | dequeuing a role at the cap keeps the same |
| `BreadthFirst.ExploreLayered` | proxy/src/role_resolver.rs:67-82 | so when the queue runs dry every level is a walk's length within the cap, and every role below the cap was expanded, its neighbours at most one level on |
| `Adjacency.BuildParentMap` | proxy/src/role_resolver.rs:43-50 | the map lists, for each role, exactly its parents |
| `Adjacency.BuildChildMap` | proxy/src/role_resolver.rs:245-252 | the map lists, for each role, exactly its children, that is, the parents of the reversed graph |
| `UserRoles.ResolveUserRoles` | proxy/src/role_resolver.rs:19-85 | for every graph, cyclic ones included, terminates and returns without duplicates exactly the roles some chain of at most ten active roles (nine edges) joins to a direct membership |
| `UserRoles.ChainIsCappedReach` | proxy/src/role_resolver.rs:57-81 | chains of active roles are the walks of at most nine steps from an active direct role along edges into active roles |
| `Inheritance.GreatestDepth` | proxy/src/role_resolver.rs:145-163 | the greatest depth dequeued is the greatest shortest distance from the start |
| `Inheritance.CheckInheritanceDepth` | proxy/src/role_resolver.rs:132-164 | the greatest shortest distance from the role to anything above it |
| `Inheritance.CheckInheritanceDepthDown` | proxy/src/role_resolver.rs:498-529 | the same measure on the reversed graph |
| `Inheritance.ResolveAncestorRoles` | proxy/src/role_resolver.rs:534-573 | without duplicates, exactly the roles a walk of at least one step reaches |
| `Inheritance.DetectCycle` | proxy/src/role_resolver.rs:89-129 | true exactly when the child is the parent or reachable from it |
| `CyclePath.BuildCyclePath` | proxy/src/role_resolver.rs:576-643 | a path exactly when the child is above the parent, never the fallback then; it is the child followed by a shortest nonempty walk from parent to child through different roles |
| `CyclePath.WalkBack` | proxy/src/role_resolver.rs:607-619 | following came-from records terminates at the start, never takes the `break`, and yields a duplicate-free walk as long as the level says |
| `CyclePath.HuntMeasures` | proxy/src/role_resolver.rs:598-632 | although the start is not marked visited and may be queued again, the hunt finds exactly the roles above it, each at the least positive number of steps |
| `Members.ResolveAllRoleMembers` | proxy/src/role_resolver.rs:240-277 | exactly the users with a membership in the role or in a role inheriting from it |
| `Members.ResolveEffectiveMembers` | proxy/src/role_resolver.rs:392-493 | the same users, once each; labelled direct exactly when a membership row for the role itself exists, otherwise via a strict descendant they are a member of, that of their first membership row at or below the role |
| `Members.LabelMeans` | proxy/src/role_resolver.rs:471-490 | for every row order the label is direct exactly when some row is direct, and otherwise names the role of the first row that counts |
| `Members.BelowIsDescends` | proxy/src/role_resolver.rs:254-267 | searching downward finds exactly the roles from which the role is reached upward |
| `Policies.ResolveEffectiveAssignments` | proxy/src/role_resolver.rs:169-206 | one row per policy with any applicable row: the first of least priority |
| `Policies.EffectiveIsBest` | proxy/src/role_resolver.rs:183-203 | that determines the result: exactly one map meets it, the fold over the rows |
| `Policies.CoversExactly` | proxy/src/role_resolver.rs:186-191 | whom a row covers: everybody, the user it names, or whoever holds the role it names; nobody for any other scope |
| `Policies.ResolveDatasourceAccess` | proxy/src/role_resolver.rs:209-236 | granted exactly when some access row of the datasource covers the user |
| `Policies.ResolveEffectivePolicies` | proxy/src/role_resolver.rs:292-381 | one entry per applicable row whose policy exists, in table order |
| `Policies.ReportMeans` | proxy/src/role_resolver.rs:328-378 | the report's entries are exactly those of the applicable rows with existing policies |
| `Policies.ReportInOrder` | proxy/src/role_resolver.rs:328-378 | the report describes the applicable rows with existing policies one to one and in table order: policy, priority, and whether the row is for everybody, for this user, for a role they are a member of, or for one they inherit |
| `Policies.ReportedOriginsTrue` | proxy/src/role_resolver.rs:332-345 | a role is reported as the user's own only when they are a member of it and hold it, as inherited only when they hold it through a different role below it |
| `Policies.ReportAgrees` | proxy/src/role_resolver.rs:169-381 | report and effective assignments name the same policies exactly when every assigned policy exists; the least reported priority is the effective one |
| `Policies.RowOrderIrrelevant` | proxy/src/role_resolver.rs:183-203 | reordering the assignment table changes neither the effective policies nor their priorities |
| `Consistency.HolderIsAffected` | proxy/src/role_resolver.rs:16-85 | whoever holds a role is among the users the role affects |
| `Consistency.HeldIffWithinNine` | proxy/src/role_resolver.rs:57-82 | with all roles active, a role is held exactly when a direct membership lies at most nine edges below it |
| `Consistency.SearchesAreDual` | proxy/src/role_resolver.rs:238-277 | with all roles active and distances at most nine, upward and downward search agree both ways |
| `Consistency.HeldRolesGrow` | proxy/src/role_resolver.rs:19-85 | activating roles, adding edges or memberships never removes a held role |
| `Consistency.AccessGrows` | proxy/src/role_resolver.rs:209-236 | nor revokes datasource access |
| `Consistency.PoliciesGrow` | proxy/src/role_resolver.rs:169-206 | nor drops an effective policy or raises its priority number |
| `Consistency.InvalidationComplete` | proxy/src/role_resolver.rs:238-277 | a change at one role leaves roles, access and effective assignments of everyone it affects neither before nor after unchanged |
| `Consistency.AffectedUnchangedByOwnParents` | proxy/src/admin/role_handlers.rs:1057-1060 | the affected users do not depend on the role's activity or own parents, so one evaluation suffices, even on cyclic graphs |
| `Consistency.ChangeDoes` | proxy/src/admin/role_handlers.rs:656-1203 | what each change of the role handlers does to the tables: which role is active and which rows are there afterwards |
| `Consistency.UsersToRebuild` | proxy/src/admin/role_handlers.rs:1057-1256 | the handlers collect exactly the users the change calls for, from the tables before or after it |
| `Consistency.HandlersRebuildEnough` | proxy/src/admin/role_handlers.rs:699-1236 | for each change the role handlers make (activity, edges, one or several memberships, deletion with or without its cascade, the roles with access to a datasource), whoever they do not rebuild keeps roles, access and effective assignments |
| `Consistency.BestSurvives` | proxy/src/role_resolver.rs:183-203 | removing rows that do not apply leaves the effective assignments as they were, ties included |
| `Consistency.LeftoverRowsAreInert` | proxy/src/admin/role_handlers.rs:773-774 | rows that still name a deleted role change nothing for anybody |
| `Edits.AddParent` | proxy/src/admin/role_handlers.rs:962-1009 | which of the four outcomes occurs, exactly; the depth reported for a refused edge; a rejected cycle between different roles is reported with a shortest cycle; the new edge list |
| `Edits.DepthSum` | proxy/src/admin/role_handlers.rs:976-985 | the guard's sum of two depths is within ten exactly when no shortest chain through the new edge exceeds ten edges |
| `Edits.ConnectedIsAbove` | proxy/src/role_resolver.rs:87-129 | the cycle check holds exactly when the ids are equal or the child is among the parent's ancestors |
| `Edits.CycleCheckExact` | proxy/src/role_resolver.rs:87-129 | on an acyclic graph, exactly when adding the edge creates a cycle |
| `Edits.RunsStayAcyclic` | proxy/src/admin/role_handlers.rs:940-1092 | every sequence of guarded additions and arbitrary removals leaves the graph acyclic |
| `Edits.AncestorsExcludeSelf` | proxy/src/role_resolver.rs:531-533 | in every reachable graph the ancestors of a role exclude it |
| `Edits.AdmittedKeepsDistances` | proxy/src/admin/role_handlers.rs:976-992 | an edge within the limit keeps every role within ten edges of everything above it |
| `Edits.AdditionsKeepDistances` | proxy/src/admin/role_handlers.rs:976-992 | so every sequence of additions does |
| `Limits.RemovalsSafeIffWalksShort` | proxy/src/role_resolver.rs:131-164 | on an acyclic graph the ten-edge bound survives all removals exactly when no walk has more than ten edges |
| `Limits.RemovalBreaksBound` | proxy/src/admin/role_handlers.rs:1031-1092 | twelve additions, each admitted, and one removal leave two roles at distance eleven |
| `Limits.GuardAdmitsUnresolved` | proxy/src/role_resolver.rs:63-70 | ten additions, each admitted, give a chain, all active, whose top its bottom's members do not hold though it affects them |
| `Limits.NineEdgesHeld` | proxy/src/role_resolver.rs:63-70 | with nine edges the top of such a chain is held |
| `Registry.ConnectionStore.AllocConnectionId` | proxy/src/handler.rs:90-96 | the next id is handed out and the counter advances, wrapping at 2^64 |
| `Registry.ConnectionStore.RegisterConnection` | proxy/src/handler.rs:98-107 | the next id is handed out and waits under the peer address |
| `Registry.ConnectionStore.ClaimPending` | proxy/src/handler.rs:407-418 | the waiting id, if any, leaves the map with its claimant |
| `Registry.ConnectionStore.InsertContext` | proxy/src/handler.rs:433-440 | the entry appears under the id, nothing else changes |
| `Registry.ConnectionStore.CleanupConnection` | proxy/src/handler.rs:109-115 | the id's entry and whatever waits under the address are gone, nothing else changes |
| `Registry.ConnectionStore.SelectEntries` | proxy/src/handler.rs:124-136 | exactly the stored entries of the user or the datasource |
| `Registry.ConnectionStore.FinishRebuild` | proxy/src/handler.rs:142-156 | a context is written only into an entry that exists; a failed build evicts |
| `RegistrySafety.StepKeepsIdentity` | proxy/src/handler.rs:90-159 | every step keeps: pending ids unclaimed under their own address, startups, entries and tasks for the user and datasource of the id's claim |
| `RegistrySafety.RunsKeepIdentity` | proxy/src/handler.rs:90-202 | in every interleaving of at most 2^64 accepts |
| `RegistrySafety.ContextsBelongToClaimants` | proxy/src/handler.rs:407-443 | no id is claimed twice, and the context under an id was built for the user and datasource its claimant authenticated as |
| `RegistryEvents.PendingExact` | proxy/src/handler.rs:98-115 | in every run an id waits under an address exactly when its connection was registered from there and since then no other was, no startup from there took it, and no registered connection from there closed |
| `RegistryEvents.ClaimsExact` | proxy/src/handler.rs:407-418 | an id is on record as claimed, by whom and as whom, exactly when such a startup found it |
| `RegistryEvents.StartupsExact` | proxy/src/handler.rs:407-443 | a connection is in startup with an id, as a user and for a datasource, exactly when it found that id as that user and was neither aborted nor inserted nor closed since |
| `RegistryEvents.EntriesExact` | proxy/src/handler.rs:109-159 | an entry is stored for a user and a datasource exactly when a startup inserted it as such and neither a failed rebuild nor the close of that connection removed it since |
| `RegistryEvents.TasksExact` | proxy/src/handler.rs:123-159 | a task runs exactly when the rebuild of its round found its entry, by user or by datasource, and it has neither written nor failed since |
| `RegistryLiveness.RunsKeepPendingOpen` | proxy/src/handler.rs:98-115 | whatever the addresses, a pending id belongs to an open connection |
| `RegistryLiveness.StoredOpenIffOpenInserts` | proxy/src/handler.rs:109-115 | over any run, nothing is ever stored for a connection that is gone exactly when every insert used the id of a connection still open |
| `RegistryLiveness.ClosedStoredExact` | proxy/src/handler.rs:109-159 | in any state, a closed connection's id is stored exactly when a startup inserted under it after the close and no failed rebuild evicted it since |
| `RegistryLiveness.LeftIsForeign` | proxy/src/handler.rs:407-440 | an entry so left behind was claimed by another connection than the id's own |
| `RegistryLiveness.AllClosedAllGone` | proxy/src/main.rs:499-501 | once all connections have closed, nothing is pending, and no context is stored exactly when none was so left behind |
| `RegistryLiveness.ClosedStaysOut` | proxy/src/handler.rs:109-159 | when every insert uses an open connection's id, a cleaned-up id never reappears, whatever rebuild is still running |
| `RegistryLiveness.StoredOwnIffOwnInserts` | proxy/src/handler.rs:407-440 | over any run, no context is ever stored under another connection's id exactly when every insert used its own connection's |
| `RegistryLiveness.OwnClaimExact` | proxy/src/handler.rs:407-418 | a startup that finds an id claims its own exactly when its connection was registered and none was registered later from the same address |
| `RegistryLiveness.RunsKeepLive` | proxy/src/handler.rs:98-115 | distinct addresses of open connections suffice: stored ids are open and claimed by their own connection |
| `RegistryLiveness.DistinctAllGone` | proxy/src/main.rs:499-501 | then both maps are empty once all connections have closed |
| `RegistryLiveness.SharedAddressLeaks` | proxy/src/handler.rs:98-115 | with a shared address an entry can outlive every connection |
| `RegistryFreshness.StepServedExact` | proxy/src/handler.rs:117-159 | a step keeps an entry at the version last rebuilt for its user and datasource, or with a task to mend it, exactly when it inserts or writes no older context that nothing will mend |
| `RegistryFreshness.RunsKeepTaskMeeting` | proxy/src/handler.rs:138-158 | unless rebuilds of one connection overlap, no task ever writes a context older than the last rebuild for its user or datasource |
| `RegistryFreshness.RebuildReachesEntries` | proxy/src/handler.rs:117-202 | over any such run, an entry selected by a rebuild is later gone, still being rebuilt, or built from that policy version or a later one |
| `RegistryOrder.EntriesTracked` | proxy/src/handler.rs:142-147 | behind each stored context stands a build step of the run, which built exactly it |
| `RegistryOrder.ReflectsIffBuiltAfter` | proxy/src/handler.rs:142-147 | for every run, commit and stored entry: the entry reflects the commit exactly when that build step came after it |
| `RegistryOrder.OutrunMeans` | proxy/src/handler.rs:117-202 | a context is older than demanded exactly when a commit, and after it a rebuild for its user or datasource, came since it was built |
| `RegistryOrder.ServedIffInOrder` | proxy/src/handler.rs:138-158 | over any run, every stored entry always reflects the last rebuild for its user and datasource, or has a task that will mend it, exactly when no insert or write stored a context so outrun with no other task left that was not |
| `RegistryOrder.SettledIffLastInOrder` | proxy/src/handler.rs:420-440 | over any run, entries always reflect the last rebuild once their tasks have finished, exactly when no insert, and no write by the last task for a connection, stored a context so outrun |
| `RegistryOrder.NoOverlapInOrder` | proxy/src/handler.rs:138-158 | when rebuilds of one connection do not overlap, that order comes down to the inserts |
| `RegistryOrder.RebuildBeforeCommitExact` | proxy/src/admin/role_handlers.rs:745-784 | after a rebuild started before its commit, the entry reflects the commit exactly when the rebuild's task had not yet built when the commit came |
| `RegistryStale.OverlapLeavesStale` | proxy/src/handler.rs:138-158 | with every insert in order, two overlapping rebuilds can leave the older context in place for good |
| `RegistryStale.LateInsertIsStale` | proxy/src/handler.rs:420-440 | with no overlapping rebuilds, a startup racing with a commit can insert a context no rebuild will replace |
| `RegistryStale.RebuildBeforeCommitIsStale` | proxy/src/admin/role_handlers.rs:745-784 | with everything in order and every entry always at its last rebuild, a rebuild started and finished before its commit leaves the old policies in place |
| `Sessions.MeetingMatchesResolver` | proxy/src/role_resolver.rs:169-277 | in any run, a context not older than the last rebuild for its user and datasource gives its user exactly what the resolver computes from the current tables, if every change since its version that reaches the user was followed by such a rebuild |
| `Sessions.SessionsMatchResolver` | proxy/src/admin/role_handlers.rs:626-1257 | in any run whose inserts and last writes are in order, however commits, rebuilds and startups interleave and deletions included: once its tasks have finished, a stored context gives its user exactly the roles, access and effective assignments the resolver computes from the current tables, if every change since its version that reaches the user was followed, at any later time, by a rebuild for the user or the datasource |
| `DiscoveryJobs.JobStore.TryRegister` | proxy/src/admin/discovery_job.rs:147-171 | refused, naming the job, exactly when the index names a running job; otherwise registered and indexed |
| `DiscoveryJobs.JobStore.Complete` | proxy/src/admin/discovery_job.rs:181-188 | the new state, the datasource's index entry cleared whichever job it names |
| `DiscoveryJobs.JobStore.Fail` | proxy/src/admin/discovery_job.rs:190-197 | the new state, likewise |
| `DiscoveryJobs.JobStore.Cancel` | proxy/src/admin/discovery_job.rs:199-211 | true, with the token set, exactly for a running job; otherwise nothing changes |
| `DiscoveryJobs.KnownExact` | proxy/src/admin/discovery_job.rs:147-171 | in every run a job is known, with a datasource, exactly when it was registered for it |
| `DiscoveryJobs.RecordExact` | proxy/src/admin/discovery_job.rs:181-211 | its cancellation token is set exactly when it was cancelled while it ran; status, result and error are those of the last end reported for it |
| `DiscoveryJobs.RunsKeepSound` | proxy/src/admin/discovery_job.rs:124-131 | whatever callers report, an index entry names a running job of its datasource |
| `DiscoveryJobs.RunsKeepExact` | proxy/src/admin/discovery_job.rs:124-211 | when only running jobs report, the index is exactly the running jobs, and status says which of result and error are set |
| `DiscoveryJobs.AtMostOneRunning` | proxy/src/admin/discovery_job.rs:124-125 | then a datasource has at most one running job |
| `DiscoveryJobs.RefusedIffRunning` | proxy/src/admin/discovery_job.rs:147-161 | then registration is refused exactly when the datasource has a running job |
| `DiscoveryJobs.StepCompleteExact` | proxy/src/admin/discovery_job.rs:181-197 | a step keeps every running job indexed exactly when it is no report, or the job is unknown, running, or its datasource has no active job |
| `DiscoveryJobs.CompleteIffHarmless` | proxy/src/admin/discovery_job.rs:181-197 | over any run, exactly when every report was such |
| `DiscoveryJobs.OneIffCleanStarts` | proxy/src/admin/discovery_job.rs:124-125 | over any run, no datasource ever has two running jobs exactly when every registration that goes through finds none |
| `DiscoveryJobs.OffIndexIffDisplaced` | proxy/src/admin/discovery_job.rs:181-211 | a running job is off the index exactly when another job of its datasource ended after its registration |
| `DiscoveryJobs.OneIffUndisplaced` | proxy/src/admin/discovery_job.rs:147-211 | over any run, no datasource ever has two running jobs exactly when none is registered for while a running job of it is off the index that way |
| `DiscoveryJobs.LateReportAdmitsTwo` | proxy/src/admin/catalog_handlers.rs:144-156 | a cancelled job's late report lets two jobs of one datasource run |
| `DatasourceConfig.SplitConfig` | proxy/src/admin/datasource_types.rs:114-168 | unknown types and non-objects are refused; otherwise the split of the input |
| `DatasourceConfig.MergeConfig` | proxy/src/admin/datasource_types.rs:173-220 | likewise for a merge; existing parts that are no objects count as empty |
| `DatasourceConfig.SplitHolds` | proxy/src/admin/datasource_types.rs:128-162 | each field holds, in its own part, the given value, else its default, as a number where the field is one, else nothing |
| `DatasourceConfig.SplitFailsAtFirst` | proxy/src/admin/datasource_types.rs:131-155 | a failed split is about the first field not satisfied: its default is no number, or it is required and missing |
| `DatasourceConfig.ParseExact` | proxy/src/admin/datasource_types.rs:138-146 | a default is read as a number exactly when it is an optional sign, any zeros and the decimal form of a number that fits 64 signed bits |
| `DatasourceConfig.MergeHolds` | proxy/src/admin/datasource_types.rs:192-214 | each field holds the update's value unless that is absent or an empty-string secret, else the existing one |
| `DatasourceConfig.MergeIsSplitOfOverride` | proxy/src/admin/datasource_types.rs:112-220 | merging into a split equals splitting the original input overridden by the update less its empty-string secrets |
| `DatasourceConfig.MergesCompose` | proxy/src/admin/datasource_types.rs:170-220 | two merges are one merge of the combined update |
| `DatasourceConfig.MergeIdempotent` | proxy/src/admin/datasource_types.rs:170-220 | repeating a merge changes nothing |
| `DatasourceConfig.SecretsStaySecret` | proxy/src/admin/datasource_types.rs:157-161 | no secret key lands in the plain part, no plain key in the secret part |
| `PolicyMatch.SimpleIsGlob` | proxy/src/policy_match.rs:110-123 | with no star or one at either end, the matcher is general glob matching on all strings |
| `PolicyMatch.GlobExactlyWhenSimple` | proxy/src/policy_match.rs:110-123 | and for no other pattern |
| `PolicyMatch.MatchesExact` | proxy/src/policy_match.rs:110-123 | for any pattern: a last star stands for any ending, otherwise a first star for any beginning, everything else for itself |
| `PolicyMatch.TableIsProduct` | proxy/src/policy_match.rs:75-155 | an entry matches a table exactly when some pair of its schema and table patterns does |
| `PolicyMatch.MatchedUnderUpstreamName` | proxy/src/policy_match.rs:75-168 | a schema outside the alias map is matched under its own name, an aliased one under the name it stands for |
| `PolicyMatch.RenamingKeepsMatches` | proxy/src/policy_match.rs:85-88 | renaming a schema alias leaves every match of that and of any other schema as it was |
| `AuditLog.AuditedTxn.Begin` | proxy/src/admin/admin_audit.rs:88-95 | the transaction starts from what the database shows, with nothing queued |
| `AuditLog.AuditedTxn.Audit` | proxy/src/admin/admin_audit.rs:97-113 | the entry is queued behind the others; the database does not change |
| `AuditLog.AuditedTxn.Commit` | proxy/src/admin/admin_audit.rs:115-140 | succeeds exactly when entries were queued and no insert nor the commit fails; then writes and entries appear together, otherwise nothing does |
| `AuditLog.LastWriteWins` | proxy/src/admin/admin_audit.rs:73-86 | after a transaction's writes each key holds what the last write to it left, or what it held before |
| `AuditLog.RunTxn` | proxy/src/admin/admin_audit.rs:87-140 | a whole transaction, dropped or committed, moves the database as `After` says |
| `AuditLog.RunKeepsExactlyCommitted` | proxy/src/admin/admin_audit.rs:73-86 | after any serial run, entities and log hold exactly the writes and entries of the committed transactions, in order |
| `AuditLog.LogOnlyGrows` | proxy/src/admin/admin_audit.rs:1-12 | along any run the log grows by suffixes, and where it did not grow no entity changed |

## Left out

- Database queries and async plumbing: table contents are inputs, each search reads one snapshot.
- Role, policy and user names, and the text built from them: sources and paths are datatypes and ids.
- Existence checks of `add_parent` (404 answers): the roles are taken to exist.
- `JobStore::get_mut` and `subscribe`: unrestricted mutation and event streaming are not steps of the model.
- `register_connection` and `cleanup_connection` each touch two fields; the model makes each one step.
- Sessions.SessionsMatchResolver: a connection entry keeps the name of its datasource and the tables its id; both are the same integer here, so renaming a datasource is not modelled. Deletions that cascade are taken as `HandlersRebuildEnough` takes them.
- Consistency.HandlersRebuildEnough: for a deletion that cascades it takes rows that name the role to be of role scope, as `proxy/src/admin/policy_handlers.rs:1061-1109` and `proxy/src/admin/role_handlers.rs:1193-1198` write them.
- Context construction: a context is the user, the datasource and the policy version it was built from.
- Registry.ConnectionStore.RegisterConnection: the counter wraps at 2^64 as the code's does; the run theorems speak of at most 2^64 accepts.
- AuditLog.AuditedTxn.Commit: row ids, timestamps and the text form of actions are not modelled; the transaction works on a private copy, since runs are serial.
- `get_ctx`, `JobStore::get` and `expand_column_patterns`: a lookup, a lookup and a filter, which would only add easy members.
- Password checks, encryption, SQL rewriting, hooks, decision functions, the admin user interface and migrations are not part of this model.
