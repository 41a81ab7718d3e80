# Genus, modelled and proved in Dafny

Genus is an ORM for Go. Around its SQL plumbing it has a number of algorithms and protocols whose
correctness depends on more than one function at a time. This project models those and proves what they
guarantee: over every interleaving where several processes or goroutines share state, over every input where
an algorithm is concerned, and against an independent reference wherever one exists.

The database is an abstract state with atomic statements. Clocks, hash functions, migration functions, event
handlers and query results are parameters about which nothing is assumed unless a contract says so. Go maps are
visited in an arbitrary order, so what is proved holds for each order.

| File | What it covers |
|---|---|
| `EventStore`, `EventHistory`, `SaveOutcome`, `LoadIdentity`, `SnapshotReplay` | event table, aggregates and repositories; every interleaving of loads, raises and single inserts; when a save goes through; what a load under a wrong identity does; snapshots against full replay |
| `MigrationGraph`, `CycleCheck`, `ExecutionOrder`, `GraphDepths` | the migration graph: depth-first cycle detection, Kahn's algorithm with the smallest version first, longest-path relaxation |
| `Conditions`, `ConditionText`, `ConditionMeaning`, `UpdateStatement`, `ConditionCompiler` | conditions compiled to SQL tokens, read back with SQL's precedence and evaluated in three-valued logic; UPDATE and DELETE; the builder's own loops |
| `CursorPaging` | keyset pagination against the reference algorithm of the cursor connections specification, and whole walks over a changing table |
| `HashRing` | the consistent-hashing ring |
| `SchemaDiff`, `SchemaDiffer`, `SchemaEngines` | schema differences, applied and undone, also on engines that refuse some statements |
| `Migrator` | running migrations up and down |
| `WarmPool`, `PoolBounds`, `TtlCache`, `CircuitBreaker`, `QueryLog` | the warm-connection pool, the in-memory cache, the circuit breaker, the N+1 detector |
| `Preload` | relationships loaded by one query for a page of rows |
| `EditDistance` | edit distance and command suggestions |
| `Ordering`, `Options` | reading a set of integers in order, sorting; optional values |

`dafny verify dfyconfig.toml` checks everything.

## Where the code does less than it says

These are theorems too; each has its row below.

- Load never sets the identity of the aggregate the factory made. If the factory answers with another identity, one
  raise and one save leave the other stream in order exactly when that stream is longer than the one loaded, so that
  the save is refused, or both are empty (`MisidentifiedLoad`); a run from the start that breaks a stream is given
  (`BrokenStreamIsReachable`). The history theorem therefore asks that loads hand out the identity they were asked
  for.
- An undisturbed save goes through exactly when the stream still ends where the instance saw it end and the new
  identifiers are new (`SaveSucceedsExactly`), so a save that failed after some of its inserts can never be retried
  successfully (`PartialSaveNeverSucceeds`).
- `Not` is documented as negation but returns every condition outside six operators unchanged
  (`NotNegatesExactly`).
- `InMemoryCache` is documented as LRU, but a full cache gives up the first live key of its queue, whatever has been
  read (`FirstLiveGoes`). Setting a key again leaves its old place in the queue, so that a newer value goes before an
  older one (`OldPlaceEvictsNewValue`), a key just read goes all the same (`ReadDoesNotKeep`), and setting a key that
  is there makes room although it needs none (`OverwritingEvicts`). The victim is the least recently set key exactly
  when every other live key has a place in the queue after the victim's last one (`EvictsLeastRecentlySetExactly`), and
  the least recently used key exactly when every other live key was read after the victim's last use, or is queued
  after the victim with the victim not read since (`EvictsLeastRecentlyUsedExactly`).
- With a Before cursor, HasNextPage is true whatever is left, and without Last, HasPreviousPage says whether rows are
  left that the page did not reach, which lie behind it (`HasNextPageExact`, `HasPreviousPageExact`, `BeforeMisleads`).
- A migration runs outside the transaction that records it. Wherever Up stops, what the migration it stopped at did
  to the database stays, and the next Up runs it again on top, except when only the reply to the commit was lost
  (`UnrecordedRunsAgain`).
- A column modification is marked reversible but carries no reverse statement, so Down after Up restores the types
  exactly when nothing was dropped and no type changed; and on MySQL it runs through exactly when every table that got
  a column keeps another (`DownTheorem`, `ReplacedColumnCannotBeUndone`).
- `belongs_to` fetches rows by the referenced column and looks them up by ID (`BelongsToTheorem`), and never looks
  up a key that is zero or negative (`BelongsToById`).
- `has_many` and `belongs_to` do not look at the error that ended the iteration: a result that breaks off is loaded
  as if it were complete, right exactly for the rows of which nothing was lost (`CutShortHasMany`,
  `CutShortBelongsTo`, `LostRowUnnoticed`); `many_to_many` does look (`AllOrNothing`).
- Stop empties the list of warm connections without adjusting the WarmConnections statistic (`PoolTheorem`). The list
  can reach twice the configured number; MaxOpenConns bounds it only while no connection breaks, or is closed by its
  client, in a client's hands, because such a connection gives up its place under the limit and ReleaseConn puts it back
  without looking at it (`ShelfTheorem`, `BoundIsTight`, `BoundWithBreaksIsTight`). With one warm connection
  configured and one allowed to be open, two can be warm.

## Model

| member | source | states |
|---|---|---|
| EventStore.Store.Append | eventsourcing/event.go:104-152 | the table afterwards holds the inserts in order up to and including the first that reports an error; nothing is undone |
| EventStore.Store.LoadFromVersion | eventsourcing/event.go:160-210 | the events of the aggregate above the version, in ascending order of version; an error exactly if the query, a scan or the iteration fails |
| EventStore.BaseAggregate.RaiseEvent | eventsourcing/event.go:285-298 | the event carries the identifier, kind and data given, the next version and the aggregate's identity, and is appended to the pending ones |
| EventStore.AggregateRepository.Load | eventsourcing/event.go:322-343 | a fresh aggregate is the replay of the whole stream through the registered handlers, up to the first that fails, under the identity of the factory; if the events cannot be read, the fresh aggregate and an error |
| EventStore.AggregateRepository.Save | eventsourcing/event.go:346-359 | the table is what Append leaves; the pending events are cleared only if all inserts succeeded |
| EventStore.SnapshotRepository.Load | eventsourcing/event.go:525-555 | snapshot plus tail through Apply when there is a readable snapshot, the whole stream otherwise; if the events cannot be read, what there is so far and an error |
| EventStore.SnapshotRepository.Save | eventsourcing/event.go:558-576 | events first; then, on a multiple of the interval, the snapshot replaces the stored one whatever the versions |
| EventHistory.SelectIsTail | eventsourcing/event.go:160-210 | on a stream without gaps, reading from version v is the stream without its first v events |
| EventHistory.InsertGrows | eventsourcing/event.go:77-92 | in the invariant, an insert writes the next pending event of its instance, leaves no gap, and a row it adds was raised on top of exactly the events stored before it; if it reports success the stored part of the history has grown by that event |
| EventHistory.StepKeeps | eventsourcing/event.go:104-152 | every step of every instance keeps the invariant and only adds rows |
| EventHistory.RaisesAreCalls | eventsourcing/event.go:285-298 | every event ever raised is that of a RaiseEvent call in the schedule: its identifier, kind and data, the identity of its instance, and the version after its history |
| EventHistory.HistoryTheorem | eventsourcing/event.go:285-359 | for every schedule with failed and retried partial saves: each stream is append-only, its versions are 1..m, and the event at version k carries the identifier, kind and data of a RaiseEvent call in the schedule, made on an instance whose own history was exactly the stored events 1..k-1 |
| LoadIdentity.MisidentifiedLoad | eventsourcing/event.go:322-343 | in any reachable table, after a load under another aggregate's identity, one raise and one undisturbed save, that aggregate's stream is in order exactly if it is longer than the loaded one or both are equal |
| LoadIdentity.BrokenStreamIsReachable | eventsourcing/event.go:285-359 | for any two identities a run from the start exists that puts an event into a stream which was not raised on top of it |
| SaveOutcome.SaveIsARun | eventsourcing/event.go:346-359 | the repository's Save, faults included, is a run of the step system, so the theorem covers it |
| SaveOutcome.SaveSucceedsExactly | eventsourcing/event.go:104-152 | an undisturbed save of an instance in order goes through exactly if nothing is pending, or the stream still has the length the instance started from and the new identifiers are unused and distinct |
| SaveOutcome.PartialSaveNeverSucceeds | eventsourcing/event.go:346-359 | after a partial save every retry fails at its first event and adds nothing, however the table has grown |
| SnapshotReplay.SnapshotIsPrefixFold | eventsourcing/event.go:558-576 | in every reachable world a stored snapshot equals the fold of the stream up to its version, also when an older one overwrote a newer one |
| SnapshotReplay.ReplayResumes | eventsourcing/event.go:525-555 | replaying the rest of a stream through Apply on top of the fold of its beginning is replaying all of it through the handlers |
| SnapshotReplay.ShortcutIsFullLoad | eventsourcing/event.go:525-555 | snapshot-plus-tail loading equals full loading, failures included |
| SnapshotReplay.SnapshotTheorem | eventsourcing/event.go:503-576 | both for every schedule, and that snapshots are stored at multiples of the interval only, if FromSnapshot inverts ToSnapshot, handlers agree with Apply and raising applies the event |
| SnapshotReplay.InterleavedLoadTheorem | eventsourcing/event.go:525-555 | for every schedule: a load that read its snapshot earlier and reads the tail now, whatever happened in between, ends as a full load at this moment would |
| SnapshotReplay.SnapshotLoadIsARun | eventsourcing/event.go:525-555 | the repository's Load is a run of the step system: a new instance comes out exactly if it does not fail, and it is the one the repository makes |
| SnapshotReplay.UnusableSnapshot | eventsourcing/event.go:532-534 | a snapshot that FromSnapshot does not accept fails the load, before any event is read |
| SnapshotReplay.TakenExactly | eventsourcing/event.go:558-576 | after its events a save leaves a snapshot exactly at the multiples of the interval, unless the statement does not reach the database, and touches no other |
| MigrationGraph.ReachableIsCyclic | migrate/visualizer.go:660-666 | where every edge starts at a node, a cycle reachable from some node exists exactly when there is any cycle |
| MigrationGraph.NoSourceImpliesCycle | migrate/visualizer.go:720-722 | a non-empty set in which everything has a predecessor contains a cycle |
| MigrationGraph.OrderImpliesAcyclic | migrate/visualizer.go:702-718 | an order that respects every edge excludes cycles |
| CycleCheck.BuildAdjacency | migrate/visualizer.go:636-639 | each version is mapped to the targets of its edges, in edge order, with repetitions |
| CycleCheck.CycleFinder.HasCycle | migrate/visualizer.go:641-658 | the recursion ends; true means a cycle below the root of the search, false means the node is finished, the recursion stack is as before and the finishing order stays valid |
| CycleCheck.NoCycleBelowFinished | migrate/visualizer.go:656-657 | from a node whose search finished no cycle can be reached |
| CycleCheck.ValidateDag | migrate/visualizer.go:630-669 | it fails exactly when a cycle can be reached from a node, hence, if edges start at nodes, exactly when the graph has a cycle |
| ExecutionOrder.BuildDag | migrate/visualizer.go:80-117 | nodes in version order, the declared edges migration by migration with repetitions, or the chain of consecutive versions when none is declared; edges always end at nodes |
| ExecutionOrder.DeclaredExactly | migrate/visualizer.go:97-102 | there is a declared edge exactly from each version that a migration depends on to that migration |
| ExecutionOrder.InDegrees | migrate/visualizer.go:679-685 | the number of edges into each version |
| ExecutionOrder.Relax | migrate/visualizer.go:712-717 | after a version is listed the counters count the edges from versions not listed, and the queue holds exactly the versions whose predecessors are all listed, each once |
| ExecutionOrder.Kahn | migrate/visualizer.go:693-718 | the list is greedy: each entry is the least version whose predecessors all come before it, and at the end no such version is left |
| ExecutionOrder.GreedyCompletes | migrate/visualizer.go:720-722 | without cycles and missing dependencies the greedy list contains every node |
| ExecutionOrder.GreedyIsLeast | migrate/visualizer.go:703-706 | a complete greedy list is lexicographically least among all topological orders |
| ExecutionOrder.WhenOrdered | migrate/visualizer.go:720-722 | the final length test succeeds exactly without cycles and missing dependencies, so after validation it fails only for a missing dependency |
| ExecutionOrder.GetExecutionOrder | migrate/visualizer.go:672-725 | for distinct versions an order is returned exactly when the graph is acyclic and closed, and it is the least topological order, whatever order Go's maps yield |
| GraphDepths.CyclicNeverSettles | migrate/visualizer.go:393-402 | on a cyclic graph no assignment of depths satisfies the loop's exit condition |
| GraphDepths.SettledIsLongest | migrate/visualizer.go:393-402 | an assignment that the loop can reach and that satisfies its exit condition gives each version the length of the longest path ending there |
| GraphDepths.Sweep | migrate/visualizer.go:395-401 | one pass either changes nothing and the exit condition holds, or makes measurable progress |
| GraphDepths.CalculateDepths | migrate/visualizer.go:385-403 | on every acyclic graph the loop ends with longest-path depths |
| Conditions.ConjunctionIsTrue | query/condition.go:44-53 | the group that And makes is true exactly where all its conditions are |
| Conditions.DisjunctionIsTrue | query/condition.go:56-65 | the group that Or makes is true exactly where one of its conditions is |
| Conditions.NotNegatesExactly | query/condition.go:67-84 | Not negates a condition on a row exactly when its operator is one of the six it swaps or the condition is unknown there |
| Conditions.SingleMeaning | query/builder.go:572-573 | a value that is not a slice counts as a list of one |
| ConditionMeaning.ReadItem | query/builder.go:459-529 | in any context the printed condition or group reads back as its own expression, and fails to read exactly when it is not well-formed |
| ConditionMeaning.ReadItems | query/builder.go:505-529 | a joined list reads as the AND or OR of its members, without capturing anything from outside |
| ConditionMeaning.WhereTheorem | query/builder.go:422-456 | the WHERE text, its placeholders bound to the returned args from any offset, reads exactly when all conditions are well-formed, and then has the tree's three-valued meaning on every row |
| ConditionMeaning.InTheorem | query/builder.go:469-481 | IN binds the values of the list in order, one argument each; its text is true exactly if the column equals one of them, false exactly if it differs from all, and unreadable exactly without values |
| ConditionMeaning.NotInTheorem | query/builder.go:469-481 | NOT IN binds the same and is the negation |
| ConditionMeaning.BetweenTheorem | query/builder.go:483-494 | BETWEEN binds the first value of the list as lower and the second as upper bound and is true exactly within them; a list of another length is rejected |
| ConditionMeaning.CompareTheorem | query/builder.go:496-500 | a comparison binds its value and tests the column against it; a slice is rejected |
| ConditionMeaning.ItemNumbered | query/builder.go:459-529 | placeholders of a condition or group are consecutive, in order, one for each argument |
| UpdateStatement.UpdateNumbered | query/mutation.go:116-142 | the placeholders of SET and then WHERE are exactly 1..len(args), in order, each once |
| UpdateStatement.DialectsAgree | dialects/mysql/mysql.go:17-19 | numbering the question marks of one dialect in order gives the other dialect's statement, with the same args |
| UpdateStatement.UpdateTheorem | query/mutation.go:116-142 | in both dialects UPDATE reads back as the assignments given and a condition with the tree's meaning, exactly when the conditions are well-formed |
| UpdateStatement.DeleteTheorem | query/mutation.go:145-160 | the same for DELETE; without conditions it selects every row |
| UpdateStatement.ScopeIsIntended | query/scope.go:25-38 | the scoped conditions hold exactly on the rows that match and are not soft-deleted, unless scopes are disabled |
| UpdateStatement.RefusedExactly | query/mutation.go:45-113 | Update sends nothing exactly without assignments, or without a condition and permission; Delete and ForceDelete exactly in the latter case |
| UpdateStatement.MutationTheorem | query/mutation.go:45-59 | an Update that is not refused has a condition or an explicit permission, sets the given assignments in order and then updated_at, exactly if the model has it and the caller did not set it, and touches exactly the intended rows |
| UpdateStatement.SoftDeleteTheorem | query/mutation.go:75-88 | Delete on a soft-deletable model sets deleted_at, then updated_at if the model has it, and nothing else, on exactly the intended rows |
| UpdateStatement.ForceDeleteTheorem | query/mutation.go:94-101 | ForceDelete, and Delete of any other model, is guarded alike and removes exactly the rows that match, soft-deleted ones included |
| ConditionCompiler.BuildCondition | query/builder.go:459-502 | the loop over the shared counter prints what the specification prints and advances the counter by the number of args |
| ConditionCompiler.BuildConditionGroup | query/builder.go:505-529 | the same for groups, nested ones included |
| ConditionCompiler.BuildWhereClauseFrom | query/builder.go:422-456 | the same for the clause, numbered from the given index |
| ConditionCompiler.AddUpdatedAt | query/mutation.go:164-178 | updated_at is added once, last, if the model has the column and it is not assigned already |
| ConditionCompiler.BuildUpdateQuery | query/mutation.go:116-142 | the loop prints the statement the theorems are about |
| CursorPaging.CutIsOrdered | query/cursor.go:182-224 | comparing with the cursor in the query is dropping the edges outside the cursors |
| CursorPaging.TrimmedFind | query/cursor.go:226-260 | asking for one row more, in reverse order for Last, then trimming and reversing, gives the edges the specification prescribes, and the extra row tells whether there are more |
| CursorPaging.ReverseSlice | query/cursor.go:366-370 | the slice is reversed in place |
| CursorPaging.Fetch | query/cursor.go:151-292 | refused exactly for a missing order column, First with Last, or After with Before; then an error exactly for a cursor that cannot be decoded, then for a failing query; otherwise the edges that sections 4.3 and 4.4 of the GraphQL Cursor Connections Specification prescribe, with the flags and cursors determined |
| CursorPaging.PageSize | query/cursor.go:167-173 | a page shows as many rows as First or Last asks for, 20 if neither does, or all that are left |
| CursorPaging.HasNextPageExact | query/cursor.go:267-275 | HasNextPage is what the specification asks for First exactly when there is no Before cursor or more rows are left |
| CursorPaging.HasPreviousPageExact | query/cursor.go:267-275 | where section 4.4 leaves no choice, HasPreviousPage is what it asks for exactly when Last is given, there is no Before cursor, or no rows are left over |
| CursorPaging.BeforeMisleads | query/cursor.go:267-275 | of two rows before the cursor, First 2 claims a next page and First 1 a previous page, and there is neither |
| CursorPaging.FetchIsForward | query/cursor.go:151-292 | what Fetch promises for First and After determines the page that walks are made of |
| CursorPaging.FetchIsBackward | query/cursor.go:151-292 | likewise for Last and Before |
| CursorPaging.ForwardWalkTheorem | query/cursor.go:175-281 | while rows come and go between pages, the output of a walk is strictly in order, and when HasNextPage is false every row present throughout has appeared exactly once |
| CursorPaging.WalkIsReal | query/cursor.go:245-256 | each page shows only rows that match in the table it was read from |
| CursorPaging.BackwardMirrorsForward | query/cursor.go:226-260 | a backward page is the forward page of the opposite order, reversed, with flags and cursors swapped |
| CursorPaging.BackwardWalkTheorem | query/cursor.go:175-281 | the same as for forward walks, for Last and Before, following StartCursor while HasPreviousPage says so |
| HashRing.SortRing | sharding/sharding.go:101-112 | the ring is sorted in place and keeps its entries |
| HashRing.ConsistentHashStrategy.Build | sharding/sharding.go:80-99 | the ring holds exactly the points of the shards, and each point belongs to the last shard that hashes to it |
| HashRing.ConsistentHashStrategy.BinarySearch | sharding/sharding.go:136-147 | the first position whose hash is not less than the key's |
| HashRing.ConsistentHashStrategy.GetShard | sharding/sharding.go:114-134 | the shard is in range and owns the clockwise successor of the key, wrapping to the least point |
| HashRing.AssignedUnique | sharding/sharding.go:114-134 | no key is assigned to two shards |
| HashRing.MinimalMovement | sharding/sharding.go:59-61 | for any hash function, collisions included, adding a shard leaves a key where it is or moves it to the new shard |
| HashRing.GrowthMovesOnlyToNewShards | sharding/sharding.go:59-61 | the same for any number of shards added |
| HashRing.RebuildMovesLittle | sharding/sharding.go:79-147 | the two GetShard calls before and after a rebuild with one shard more agree or the second gives the new shard |
| SchemaDiffer.DiffColumns | migrate/diff.go:546-583 | exactly one change for each column added, dropped or changed, in any order of the maps |
| SchemaDiffer.Diff | migrate/diff.go:457-484 | exactly the wanted changes, no two of them at the same table or column, columns of a table added before any is dropped |
| SchemaDiffer.GenerateMigration | migrate/diff.go:677-704 | Up lists all statements in order; Down has one section for each change, last first: its reverse statement, or the warning that there is none |
| SchemaDiff.UpReaches | migrate/diff.go:457-655 | applying the changes in any order gives exactly the target's tables, columns and types, where no statement is refused |
| SchemaDiff.ModifiedExactly | migrate/diff.go:574-580 | a column of both schemas is modified exactly if its type, nullability or default differs |
| SchemaDiff.NothingToDo | migrate/diff.go:457-583 | the diff is empty exactly if both schemas have the same tables with the same columns, alike in type, nullability and default |
| SchemaDiff.ReversibleExactly | migrate/diff.go:486-655 | exactly drops are not marked reversible, and exactly creations and additions carry a reverse statement |
| SchemaEngines.UpTheorem | migrate/diff.go:457-655 | in the order of Diff they run through exactly if no table is created with two primary keys and, on MySQL, none without columns and none loses all its columns; then the target is reached |
| SchemaEngines.DownTheorem | migrate/diff.go:689-701 | Down after Up runs through always on PostgreSQL, and on MySQL exactly if every table that got a column keeps one of its own; then it restores tables, columns and types exactly when no change dropped anything or changed a type, in particular when all changes are additions |
| SchemaEngines.ReplacedColumnCannotBeUndone | migrate/diff.go:558-571 | a table whose one column is replaced: on MySQL Up runs through and Down fails |
| Migrator.Migrator.Up | migrate/migrate.go:70-103 | sorted migrations, of which those not in the control table are run until one fails |
| Migrator.Migrator.Down | migrate/migrate.go:106-142 | the registered recorded migration with the greatest positive version is reverted, in whatever order they were registered; an empty log is no error, a log without such a migration is |
| Migrator.Migrator.RunMigration | migrate/migrate.go:183-232 | what remains in database and log for each way a migration, its record or its commit can fail |
| Migrator.LastAppliedIsLatest | migrate/migrate.go:119-127 | for every list, sorted or not: what is picked is registered, recorded and positive, no recorded version is greater, and of equal versions it is the first; nothing is picked exactly if there is no such migration |
| Migrator.DownTheorem | migrate/migrate.go:106-142 | what one Down does to database, log and result in each case, faults included |
| Migrator.SortedDistinct | migrate/migrate.go:83-85 | sorting distinct versions puts them in strictly ascending order |
| Migrator.UpTheorem | migrate/migrate.go:70-103 | Up runs exactly the unrecorded migrations in ascending order; on a failure everything before it ran and is recorded, and the log grew by a prefix of them |
| Migrator.UpSucceedsExactly | migrate/migrate.go:87-101 | Up goes through exactly if every pending migration succeeds on what those before it made of the database and nothing disturbs its transaction |
| Migrator.SecondUpIsIdle | migrate/migrate.go:88-91 | after an Up that went through nothing is pending, and another Up changes nothing, whatever goes wrong around it |
| Migrator.UnrecordedRunsAgain | migrate/migrate.go:191-232 | wherever Up stops: the database holds what the migration it stopped at did, failed or not, unless the transaction never began; that migration is pending again, with all after it, exactly unless it succeeded and only the reply to the commit was lost; and the next Up runs just what is pending |
| Migrator.DownTakesBack | migrate/migrate.go:106-142 | with the first j migrations in, one Down leaves the first j-1 in, in database and log |
| Migrator.DownsRestore | migrate/migrate.go:106-142 | from an empty log, if each Down inverts its Up, n Downs after Up restore the database and the log |
| WarmPool.ServerlessPool.Start | cloud/pool.go:118-136 | a running pool is left alone; otherwise it warms up, and the loops start only if nothing was refused |
| WarmPool.ServerlessPool.Stop | cloud/pool.go:139-155 | all warm connections are closed, the statistic is not adjusted |
| WarmPool.ServerlessPool.WarmUp | cloud/pool.go:158-184 | as many turns as configured, ended by a refusal; connections that do not answer are closed |
| WarmPool.ServerlessPool.DropUnhealthy | cloud/pool.go:206-218 | the answering connections stay in order, the others are closed and counted off |
| WarmPool.HealthyAnswer | cloud/pool.go:206-218 | the connections kept are exactly those that answer, the ones closed exactly those that do not |
| WarmPool.ServerlessPool.AddRefill | cloud/pool.go:231-234 | one more warm connection, counted |
| WarmPool.CountsMissing | cloud/pool.go:221-226 | a pass of the health loop sets out to make as many attempts to connect as connections were missing when it counted |
| WarmPool.RefillTurns | cloud/pool.go:226-235 | each turn uses up one of them, whether its attempt fails or adds a connection |
| WarmPool.ServerlessPool.ScaleDown | cloud/pool.go:262-269 | the list is cut to the configured number and what is cut is closed |
| WarmPool.ServerlessPool.PopWarm | cloud/pool.go:276-281 | the connection warmed last is taken, if any |
| WarmPool.ServerlessPool.KeepWarm | cloud/pool.go:329-336 | a returned connection is kept exactly while there is room |
| WarmPool.ProbeEnds | cloud/pool.go:283-288 | a connection taken off the list goes to the client if it answers, and is closed otherwise |
| WarmPool.ReturnEnds | cloud/pool.go:329-340 | one given back becomes the last of the list if there is room, and is closed otherwise |
| WarmPool.StepConserves | cloud/pool.go:158-340 | every step keeps each connection in exactly one place: warm, being probed, handed out, being returned, being added, or closed |
| WarmPool.PoolTheorem | cloud/pool.go:101-340 | in every interleaving, with connections breaking in clients' hands: no connection is in two places or held twice; at most 2*WarmConnections are warm; the connections that are not dead stay within MaxOpenConns; and the statistics exceed the lists only by what Stop dropped |
| WarmPool.NoStopNoOrphans | cloud/pool.go:147-152 | before a Stop that excess is zero |
| PoolBounds.ShelfTheorem | cloud/pool.go:101-340 | in every interleaving at most 2*WarmConnections are warm, or WarmConnections plus MaxOpenConns if that is set and less; and while no connection breaks in a client's hands, at most MaxOpenConns if that is set and less |
| PoolBounds.BoundIsTight | cloud/pool.go:101-340 | for every configuration some schedule without a connection breaking makes as many connections warm as the bound for such schedules allows |
| PoolBounds.BoundWithBreaksIsTight | cloud/pool.go:225-336 | and with connections that break the general bound is reached; with WarmConnections and MaxOpenConns both 1, two are warm |
| TtlCache.InMemoryCache.EvictOldest | cache/cache.go:177-186 | the first queued key goes, live or not |
| TtlCache.InMemoryCache.Set | cache/cache.go:156-174 | the least number of queue entries is used up that makes room, then the entry is stored, queued and counted |
| TtlCache.InMemoryCache.Get | cache/cache.go:127-153 | the value and the whole state afterwards, when no other caller comes in between: hit or miss counted, an expired entry deleted and counted, the queue untouched |
| TtlCache.InMemoryCache.Delete | cache/cache.go:189-200 | the entry goes, the queue keeps its place |
| TtlCache.InMemoryCache.DeleteByPrefix | cache/cache.go:203-221 | exactly the keys with the prefix go, each counted |
| TtlCache.StepKeeps | cache/cache.go:127-233 | every lock step of every caller keeps the invariant |
| TtlCache.CacheTheorem | cache/cache.go:127-233 | in every schedule: live entries are queued and at most maxEntries; the queue is the latest part of the keys set; the Sets and Hits counters are the numbers of Sets and hits there have been, and Sets equals Evictions plus queue length plus entries dropped by Clear; the entries are a submap of the unbounded cache, also for a Get under way |
| TtlCache.StepLeaves | cache/cache.go:127-233 | after any lock step every key has the entry it had, unless the step sets it or takes it out: it is deleted, has the prefix, expired for a reader, is cleared, or is the first live key of the queue of a full cache |
| TtlCache.RetentionTheorem | cache/cache.go:127-233 | in every schedule an entry stays, with its value, from its Set until its key is set again or taken out in one of those ways |
| TtlCache.StepCounts | cache/cache.go:127-233 | Deletes counts exactly the live entries that Delete, DeleteByPrefix and expiry take out; Hits, Misses, Sets and Evictions count what they are named after |
| TtlCache.GetIsARun | cache/cache.go:127-153 | the sequential Get is a run of its lock steps |
| TtlCache.SetIsPossible | cache/cache.go:161-163 | the eviction loop ends |
| TtlCache.FirstLiveGoes | cache/cache.go:161-186 | Set gives up nothing below the limit, and at the limit exactly the entry of the first live key in the queue |
| TtlCache.OldPlaceEvictsNewValue | cache/cache.go:161-186 | with room for three, setting a, b, a, c and d evicts a, although b was set before it |
| TtlCache.OverwritingEvicts | cache/cache.go:161-169 | with room for two, setting a, b and b again evicts a |
| TtlCache.ReadDoesNotKeep | cache/cache.go:127-186 | with room for two, setting a and b, reading a and setting c evicts a |
| TtlCache.EvictsLeastRecentlySetExactly | cache/cache.go:161-186 | in every reachable full cache the victim, the first live key of the queue, is the live key set longest ago exactly if every other live key has a queue place after the victim's last one |
| TtlCache.EvictsLeastRecentlyUsedExactly | cache/cache.go:127-186 | and the live key set or read longest ago exactly if every other live key was read after the victim's last use, or has a queue place after the victim's last one with the victim not read since that key was set |
| CircuitBreaker.CircuitBreaker.AllowCall | core/circuit_breaker.go:101-120 | granted unless open and within Timeout; a grant while open begins a trial |
| CircuitBreaker.CircuitBreaker.RecordFailure | core/circuit_breaker.go:136-156 | counted failures only; trips at the threshold or during a trial |
| CircuitBreaker.CircuitBreaker.RecordSuccess | core/circuit_breaker.go:123-133 | clears the failures and ends a trial at its threshold |
| CircuitBreaker.CircuitBreaker.ResetBreaker | core/circuit_breaker.go:178-185 | closed with both counters at zero |
| CircuitBreaker.BreakerTheorem | core/circuit_breaker.go:101-185 | in every reachable state the failure counter is the trailing run of counted failures, below the threshold while closed; while open the recorded time is the latest counted failure's; in a trial the successes since it began are below their threshold |
| CircuitBreaker.GrantedAfterQuiet | core/circuit_breaker.go:108-114 | a call let through while open comes at least Timeout after every counted failure, late ones included |
| CircuitBreaker.RefusedExactly | core/circuit_breaker.go:108-114 | a call is refused exactly while open and within Timeout of the latest counted failure |
| CircuitBreaker.TripsOnFailure | core/circuit_breaker.go:145-155 | the breaker opens exactly on a counted failure that is the threshold-th in a row or falls in a trial |
| CircuitBreaker.StateTheorem | core/circuit_breaker.go:101-185 | the state after every call, told from the calls before it: closed after a reset; open on the threshold-th failure in a row; half-open on the first call after Timeout; out of a trial on a counted failure or the SuccessThreshold-th success since it began |
| CircuitBreaker.StatsTheorem | core/circuit_breaker.go:123-185 | in every state the success counter is the number of successes since the last change of state, counted failure or reset, and the recorded time is that of the latest counted failure |
| CircuitBreaker.ResetForgets | core/circuit_breaker.go:178-185 | after a reset the breaker is closed with both counters at zero, whatever came before |
| CircuitBreaker.SettingsKept | core/circuit_breaker.go:76-90 | positive settings are kept, the others become 5, 2 and 30 seconds |
| QueryLog.N1Detector.CleanOldQueries | query/n1detector.go:205-216 | the queries later than twice the window before now are kept, in order |
| QueryLog.N1Detector.Record | query/n1detector.go:94-166 | nothing at all if disabled or excluded by a pattern; otherwise the pruned log with the query, the count within the window, the detection and the alert |
| QueryLog.CountIsSize | query/n1detector.go:135-141 | the count is the number of records of that pattern later than the cutoff |
| QueryLog.ExcludedExactly | query/n1detector.go:100-104 | a query is excluded exactly if, in lower case, one of the patterns stands somewhere in it |
| QueryLog.LogStaysShort | query/n1detector.go:119-123 | while the clock does not go back, the log never reaches back twelve windows |
| QueryLog.AlertsExactly | query/n1detector.go:162-164 | the callback runs for exactly those queries whose count, over everything recorded, is the threshold |
| QueryLog.DetectionTheorem | query/n1detector.go:143-165 | in every run with readings that lag by at most the window: there is a detection exactly for the patterns that have reached the threshold, and it tells when they first and last did and the count then |
| QueryLog.ContainsExactly | query/n1detector.go:100-104 | strings.Contains holds exactly if the part stands somewhere in the text |
| QueryLog.PruningIsInvisible | query/n1detector.go:119-141 | if clock readings fall behind earlier ones by at most the window, the count is the count over everything since the last Clear |
| QueryLog.MarginIsTight | query/n1detector.go:205-206 | with one tick more of lag some run undercounts |
| Preload.PreloadHasMany | query/preload.go:100-209 | the parents are updated as specified; on a failed query or scan none is touched |
| Preload.PreloadBelongsTo | query/preload.go:213-323 | the same for children and their one parent |
| Preload.PreloadManyToMany | query/preload.go:327-481 | the same for the join |
| Preload.HasManyReports | query/preload.go:123-206 | with parents to load for, an error is reported exactly for a failed query or a row that does not scan, and then nothing changes |
| Preload.BelongsToReports | query/preload.go:244-320 | the same if any key is positive; otherwise nothing is asked and nothing changes |
| Preload.ManyToManyReports | query/preload.go:349-478 | the same, and also for a result that breaks off |
| Preload.ForeignKeyFacts | query/preload.go:226-242 | the keys asked for are exactly the positive ones, each once |
| Preload.HasManyTheorem | query/preload.go:152-206 | each parent gets the rows a query of its own returns, in result order, except that one without rows keeps what it had |
| Preload.InTableOrder | query/preload.go:152-206 | if the database answers in table order, the lists are exactly those of the single queries |
| Preload.JoinMember | query/preload.go:364-381 | a row is in the join exactly when a link and a target say so |
| Preload.ManyToManyTheorem | query/preload.go:396-478 | each parent gets the targets a join query of its own returns, in result order |
| Preload.BelongsToTheorem | query/preload.go:258-320 | a child whose key refers to a row gets that row exactly when the row has the key as its ID |
| Preload.BelongsToById | query/preload.go:237-320 | with the ID column referenced and IDs unique, each child gets what its own query returns exactly when its key is positive or nobody has it |
| Preload.CutShortHasMany | query/preload.go:155-177 | a result that broke off is loaded without an error, and a parent ends with its own rows exactly if none of them was lost |
| Preload.LostRowUnnoticed | query/preload.go:155-177 | for any one-row table, a broken result leaves its parent with an empty list and reports success |
| Preload.CutShortBelongsTo | query/preload.go:275-292 | the same for belongs_to: a child gets what its own query returns exactly if there is nothing to get or that row came through |
| Preload.AllOrNothing | query/preload.go:447-449 | many_to_many either reports an error and touches nothing, or every parent has what a join query of its own returns |
| EditDistance.Levenshtein | cmd/genus/main.go:286-315 | the two-row loop, swapping its rows, returns the edit distance |
| EditDistance.DistanceIsMinimumEdits | cmd/genus/main.go:285-315 | that distance is the least number of insertions, deletions and substitutions that turn one string into the other |
| EditDistance.DistanceSymmetric | cmd/genus/main.go:285-315 | it is symmetric |
| EditDistance.DistanceZero | cmd/genus/main.go:285-315 | it is zero exactly for equal strings |
| EditDistance.DistanceTriangle | cmd/genus/main.go:285-315 | it satisfies the triangle inequality |
| EditDistance.SuggestCommand | cmd/genus/main.go:265-283 | a nearest command whenever one is within distance 3, else a completion if there is one, else nothing, for every order of the map |

## Left out

- EventStore.SnapshotRepository.Save: requires a snapshot interval other than zero, because with zero Genus panics on the remainder.
- EventHistory.HistoryTheorem: asks that each load hands out the identity it was asked for, because the theorem is false without it; `MisidentifiedLoad` says exactly when.
- ExecutionOrder.BuildDag: takes its migrations sorted by version, as the file reader delivers them; status, descriptions and file names are not modelled.
- GraphDepths.CalculateDepths: requires an acyclic graph, because on a cyclic one calculateDepths does not terminate (see `CyclicNeverSettles`).
- EditDistance.SuggestCommand: takes the input in lower case, and no command is the empty string, as in the table of commands.
- CursorPaging.Fetch: cursors that can be decoded carry integers; their JSON encoding, which turns large integers and times into other types, and the optional total count are not modelled.
- CursorPaging.ForwardWalkTheorem: rows are identified by a unique order column that never changes, without another ORDER BY or OFFSET.
- HashRing.ConsistentHashStrategy.GetShard: the hash of the key and the answer of the modulo strategy, which an unbuilt ring falls back to, are parameters.
- SchemaEngines.UpTheorem: compares tables, column names and types on MySQL and PostgreSQL; nullability and defaults are not emitted by MODIFY, indexes and foreign keys are stubs in Genus, and refusals that depend on data, casts or auto-increment columns are not modelled, nor is SQLite, which has no MODIFY.
- SchemaDiff.UpReaches: asks that no table has a column twice; models violate that when an embedded struct and a field beside it carry the same db tag, and then CREATE TABLE names the column twice, while the diff of columns uses the later one.
- WarmPool.PoolTheorem: one Start, hence one health loop, as after a Stop Genus has closed its stop channel for good; a refill counts the warm connections in a step of its own; WarmConnections is not negative; a client gives back each connection it holds once; a connection breaks while a client holds it, as one that breaks on the list is noticed by the ping that closes it; other users of the same database handle only make attempts to connect fail more often.
- TtlCache.InMemoryCache.Get: the sequential contract; the interleaved Get is the steps Look, Expire, CountHit and CountMiss.
- Migrator.DownsRestore: versions are positive, because Down never finds one that is not.
- QueryLog.N1Detector.Record: normalisation and lower case are parameters; callers and suggestions are not modelled.
- Preload.PreloadHasMany: fields are read and set by reflection in Genus; a type without an ID or relation field is not modelled, nor are polymorphic relations and nested preloads.
- SQL text: statements are sequences of tokens; quoting, table names and the drivers are not modelled.
- Conditions.SingleMeaning: slices of element types other than those interfaceSlice lists are not modelled; Genus binds such a slice as one value.
- Condition trees: SubqueryCondition and ExistsCondition, the fast builders and the cached builder are not modelled.
- Integers are unbounded: overflow of int64 versions, counters and clock arithmetic is not modelled; 32-bit hashes are.
- Aliasing of Go slices handed to callers is not modelled; fields hold values.
- Retries with backoff, cold-start and failure statistics of the pool, the event bus, UUIDs, timestamps and metadata of events, and state-change callbacks are not modelled.
- HTTP handlers, the REPL, code generation, tracing and the field constructors would only add easy members.
