# Verification of the hard parts of the business platform

A Dafny model of five parts of the repository, and proofs about them. Nothing here executes the original program; the model follows its code branch by branch.

1. **Menu tree resolution and editing.** Arbitrary stored rows (dangling, self-parented, cyclic or duplicated) are merged with the code-defined navigation into a forest, shown in an editor, edited, saved and linearised. `MenuTypes`, `MenuResolve`, `MenuMerge`, `MenuOrder`, `MenuApply`, `MenuMeaning` (what the merged menu shows, in the columns of the defaults and the stored rows), `MenuFirstSave`, `MenuSidebar`, `MenuVisible`, `MenuRoundTrip`, `EditorTree`, `EditorMoves`, `EditorOps`.
2. **The background-task lease protocol.** One guarded in-place update per SQL statement, driven by any number of schedulers and workers with any clocks, any crashes and a queue that may lose everything. `TaskTable` (statements), `TaskProtocol` (runs), `TaskActors` (the scheduler tick and the worker job as programs over the table).
3. **The filter compiler.** One tree, three back ends (SQL text with numbered parameters, Prisma objects, an in-memory interpreter), the editor that produces it and the old formats that are read into it. `SqlText` (tokens, a parser with SQL precedence, three-valued evaluation, LIKE), `FilterTypes`, `FilterSql`, `FilterMemory`, `FilterValues` (what each operator keeps, in the values themselves), `FilterMeaning`, `FilterExact`, `FilterPrisma`, `FilterPayload`, `FilterPath`.
4. **Crash-safe protocols.** The restore pipeline with its manifest and maintenance marker on disk (`RestoreProtocol`, `RestoreExecutor`), and idempotent commits over the operation log with retention (`Idempotency`, `IdempotentOperations`).
5. **Canonical payloads and stock.** The form behind request fingerprints (`Canonical`), FIFO batch allocation (`Fifo`) and the release of reservations by the approval timeout (`ApprovalTimeout`, `ApprovalScan`).

`Options`, `Seqs`, `Sorting` and `Strings` hold what several modules share. Objects that update their fields are classes whose methods are proved against functions on the old state; protocols are state machines whose runs are lists of events.

## What the proofs found in the code

- A delivery that arrives while a restore pipeline is past its last stage but has not yet written its final DONE replaces the manifest in memory, and the pipeline then records the new restore as DONE without having run it. `FalseDoneIsReachable` gives the run from the initial state, and `OnlyOvertakingFalsifies` proves that this is the only way to a false DONE.
- An accepted delivery is carried out without a further retry exactly if it finds the process idle, or a pipeline about to begin its first stage, and not shutting down (`DeliveryIsCarriedOutExactly`). From the initial state one can arrive while the marker is being removed, while that has failed, or while the outcome is mirrored in the database, and is then left at PRECHECK (`LateDeliveryIsNotCarriedOut`); in the first case it also loses its maintenance marker (`DeliveryWhileUnmarkingWaits`).
- The archive has one file for each restore uuid, and acceptance does not look at it. The comment on `archiveManifest` promises that no uuid is done twice and that archive names do not collide; a redelivery of an archived uuid is accepted, its destructive stages run again, and the next archiving replaces the first manifest (`ArchivedUuidRunsTwice`, a run from the initial state). `UuidIsDoneTwiceExactly` and `ManifestIsLostExactly` give the exact conditions, and `NothingOnDiskIsForgotten` holds of all runs in which no archived uuid is accepted.
- A date field tested with AFTER registers a parameter that the SQL text never mentions. The database cannot determine its type and refuses the query, so a caller sees an error where the in-memory form of the same filter answers (`DateAfterIsRefused`). `EveryParameterIsReferenced` shows that nothing else does this, and `SqlSelectsWhatMemoryKeeps` states what the accepted queries select.
- `%`, `_` and `\` in text values are not escaped for ILIKE; `TextTestsNeedPlainValues` shows for each text operator that these are exactly the values for which SQL and memory differ.
- A group without conditions prints `()`, which is no SQL; `ParsesExactlyWhenNonEmpty` shows it is the only such case. The server's grammar requires at least one condition in every group, but `normalizeTableFilters` does not (`EmptyGroupIsRefused`).
- The editor drops the end value whenever an operator is changed away from BETWEEN, but keeps one it reads from a stored preset; applying such a preset sends a payload the server's grammar refuses (`LeftoverEndIsRefused`).
- An emptied code-default group can be deleted in the editor and is back after the next load (`DeleteKeepsWellFormed`, `DefaultGroupsComeBack`).
- The first save over an empty table keeps every item's place and name exactly while group names are plain: a name with `/` is shown by its last part afterwards, an outer name that begins with `custom:` as the default name of new groups (`FirstSaveKeepsTheSidebar`). It moves the items of an interrupted group together. That changes the sidebar of a user exactly if some group begins, with items the user does not see, before another entry of its container of which the user sees an item first (`UserSidebarIsKeptExactly`); users who see everything notice nothing. `FirstSaveKeepsTheMenuExactly` gives the exact condition for an unchanged menu.
- The comment on the stalled-queue rule speaks of the time since queueing; the code measures from `created_at`, so a row may be claimed again the moment it was queued (`QueuedRowIsClaimedAgain`). The model follows the code.
- The canonical form is sorted with `localeCompare`, which ties some different texts; `FormDecidesExactlyWhenTieFree` shows that the form of a payload decides which payloads are the same exactly when at no depth two different items of an array or two keys of an object tie.
- The editor trims a value before it checks its format and sends it as it was typed, so a padded value passes the editor and is refused by the server (`PaddedTimeIsRefused`; `SentCompilesExactly` says which sent trees the compiler takes).
- Without a database transaction, an overdue cancellation that stops between its head update and its release leaves stock reserved for nobody; `BalancesAreKeptExactly` gives the exact cases.
- A delivery whose acceptance failed before its manifest was written is accepted again as a restore of its own (`UnwrittenDeliveryIsAcceptedAnew`).

## Model

| member | source | states |
|---|---|---|
| MenuResolve.ConfigFromDefaults | apps/web/src/menu-config/merge.ts:42-67 | the pass over the defaults builds the identity rows of the specification |
| MenuResolve.IdentityGood | apps/web/src/menu-config/merge.ts:42-67 | for any defaults the identity rows list each default group once, parents first, and one row per item under an existing group |
| MenuResolve.ResolveParents | apps/web/src/menu-config/merge.ts:139-172 | for any table of configured and default parents the search terminates and resolves every key to its configured parent, its default parent or the top, in an acyclic relation over kept groups |
| MenuResolve.GroundedGroupsKeepTheirParent | apps/web/src/menu-config/merge.ts:139-172 | a group whose configured chain reaches the top keeps its configured parent, whatever cycles the rest of the table has |
| MenuResolve.EveryCycleLosesOneEdge | apps/web/src/menu-config/merge.ts:146-172 | of every cycle of configured parents, wherever and from whatever group the search enters it, exactly one group is moved out: to its default parent if that is outside the cycle, or to the top; all others keep their configured parent |
| MenuResolve.CycleIsBrokenAtItsEnd | apps/web/src/menu-config/merge.ts:146-169 | entered at its first group a cycle is broken at its last, which gets its default parent exactly if that exists and is outside the cycle |
| MenuResolve.ParentResolver.ResolveNode | apps/web/src/menu-config/merge.ts:146-169 | the visiting/done search over its two maps computes the specification and restores the visiting set |
| MenuResolve.ParentResolver.ResolveAll | apps/web/src/menu-config/merge.ts:170-172 | the loop over all keys leaves the specified parent map |
| MenuMerge.ResolveIsForest | apps/web/src/menu-config/merge.ts:107-223 | whatever is stored, the kept groups are distinct, their parents are kept groups, no parent chain returns to its start, and every item hangs in the forest |
| MenuMerge.ResolvedItems | apps/web/src/menu-config/merge.ts:210-220 | exactly the default items are placed, in default order, once each |
| MenuMerge.ResolvedGroups | apps/web/src/menu-config/merge.ts:113-118 | exactly the default groups and the stored custom groups survive |
| MenuMeaning.ItemMeaning | apps/web/src/menu-config/merge.ts:210-220 | where each item hangs: at the parent, order and name of its last stored row if that parent is the top, a default group or a stored custom group; with any other stored parent at its declared group without an order but under its stored name; without a row as declared |
| MenuMeaning.GroupMeaning | apps/web/src/menu-config/merge.ts:113-208 | each kept group has name and order of its last stored row, the index of the first item declared in it and, where no cycle is asked for, the parent it asks for: the stored one, or the declared one if that names itself or no kept group |
| MenuMeaning.GroupsInOrder | apps/web/src/menu-config/merge.ts:107-118 | the kept groups are listed as declared by the items and then the custom ones in the order of their first stored rows |
| MenuOrder.SortSpec | apps/web/src/menu-config/merge.ts:28-36 | the stable sort by placement is an ordered rearrangement of its rows, infinite default indexes tying |
| MenuOrder.KeepSort | apps/web/src/menu-config/merge.ts:240-267 | leaving out unused groups before or after sorting gives the same rows |
| MenuMeaning.PlacementMeaning | apps/web/src/menu-config/merge.ts:28-36 | in a container rows with a smaller stored order come first, rows without one last, and equal orders go by default index, rows without one last |
| MenuMeaning.ContainerMeaning | apps/web/src/menu-config/merge.ts:258-271 | rows equal in both stand as they were resolved, items before groups |
| MenuApply.ResolveMenuConfig | apps/web/src/menu-config/merge.ts:107-223 | the loops that fill the candidate, group and item maps compute the resolution that `ItemMeaning` and `GroupMeaning` describe |
| MenuApply.UsedGroupKeys | apps/web/src/menu-config/merge.ts:240-252 | the marked groups contain every group that holds an item and are closed under parents |
| MenuApply.Emitter.EmitContainer | apps/web/src/menu-config/merge.ts:259-286 | one container is pushed onto the result in placement order, each item under the display names of its ancestors |
| MenuApply.UnusedIsSilent | apps/web/src/menu-config/merge.ts:240-267 | a group outside the used ones holds no item at any depth |
| MenuApply.EmitIsLinearize | apps/web/src/menu-config/merge.ts:258-287 | what is emitted is the linearisation of the editor tree, although the editor shows unused groups too |
| MenuApply.ApplyMenuConfig | apps/web/src/menu-config/merge.ts:231-288 | the program computes the menu that `ShownMeaning`, `PlacementMeaning` and `NothingIsLost` describe, and the defaults themselves for an empty table |
| MenuApply.NothingIsLost | apps/web/src/menu-config/merge.ts:231-288 | for every stored table the menu is a permutation of the default items with key, path and permission untouched |
| MenuMeaning.ShownMeaning | apps/web/src/menu-config/merge.ts:258-287 | each shown item is a default item under its stored name if it has one and else its own; its group path lists the groups above its place from the top, each under its stored or its default name, and group and subgroup are the first two |
| MenuApply.SavingUnchangedChangesNothing | apps/web/src/menu-config/editor-state.ts:30-71 | for a non-empty table, saving what the editor shows gives the same menu, order and group paths included |
| MenuFirstSave.OrderIsDefaultExactlyWhenUnbroken | apps/web/src/menu-config/merge.ts:174-196 | over an empty table the editor lists the items in default order exactly when no group is interrupted by an item outside it |
| MenuFirstSave.FirstSaveKeepsTheMenuExactly | apps/web/src/menu-config/merge.ts:231-288 | the first save over an empty table leaves order, captions, paths, permissions and shown groups as they were exactly when no group is interrupted and every item shows the names of the groups it stands in |
| MenuFirstSave.SpelledExactlyWhenPlain | apps/web/src/menu-config/merge.ts:19-26 | items as declared show the names of their groups exactly when no group name has a slash and no outer one begins like a custom key |
| MenuSidebar.MenuItems | apps/web/src/components/AppShell.tsx:88-114 | the loops over the items and their paths build the sidebar of the specification, groups with the same joined path being one |
| MenuSidebar.FirstSaveKeepsTheSidebar | apps/web/src/menu-config/merge.spec.ts:84-90 | the promised identity round trip: places and names are as before exactly for plain names, and then the whole sidebar is, interrupted groups included |
| MenuSidebar.EveryUserSeesTheSame | apps/web/src/components/AppShell.tsx:74-114 | without an interrupted group every user, whatever the permissions, has the same sidebar before and after the first save |
| MenuVisible.UserSidebarIsKeptExactly | apps/web/src/components/AppShell.tsx:74-114 | for all permissions the first save changes the sidebar of a user exactly if two rows of one container begin in one order and show their first visible items in the other |
| MenuVisible.InterruptedGroupMoves | apps/web/src/components/AppShell.tsx:74-114 | for instance, of an item in a group, one outside and one in the group again, a user who sees the last two has another sidebar exactly if the first is hidden |
| EditorTree.RowsOfResolve | apps/web/src/menu-config/merge.ts:107-223 | the rows of a resolution are exactly the default items, the default groups and the stored custom groups |
| EditorTree.BuildHoldsEveryRow | apps/web/src/menu-config/editor-state.ts:30-53 | the editor tree holds each resolved row exactly once and nothing else |
| EditorTree.BuildIsWellFormed | apps/web/src/menu-config/editor-state.ts:30-53 | whatever is stored, the editor shows all default items and groups exactly once and otherwise only custom groups |
| EditorMoves.RemoveParts | apps/web/src/menu-config/editor-state.ts:216-246 | removing finds a node exactly when it is there, returns that node, and every node is afterwards in the rest or in the removed subtree |
| EditorMoves.RemoveAfterInsert | apps/web/src/menu-config/editor-state.ts:207-302 | taking out an inserted node gives back tree, node, container and position |
| EditorMoves.InsertAfterRemove | apps/web/src/menu-config/editor-state.ts:207-302 | putting a removed node back at its place restores the tree |
| EditorOps.CollectGroupSubtreeKeys | apps/web/src/menu-config/editor-state.ts:193-204 | the grown set is the group keys of the subtree |
| EditorOps.GuardMeaning | apps/web/src/menu-config/editor-state.ts:249-263 | the guard fires exactly for a missing target group, a missing dragged group and a target inside the dragged subtree |
| EditorOps.MoveRefused | apps/web/src/menu-config/editor-state.ts:276-302 | a move is refused exactly for an absent node, an absent target or a target inside the dragged subtree |
| EditorOps.MoveSpec | apps/web/src/menu-config/editor-state.ts:266-302 | a move keeps every node exactly once, leaves the moved subtree and all others in place, and puts the node at the requested index, less one if it stood before it in the same container, at the end beyond that, and counted from the end below zero |
| EditorOps.UnguardedMoveLosesTheSubtree | apps/web/src/menu-config/editor-state.ts:249-263 | without the descendant guard the whole dragged subtree would be lost |
| EditorOps.MoveByOffsetSpec | apps/web/src/menu-config/editor-state.ts:311-346 | an offset move succeeds unless the node is absent or at that end, and shifts it by one among its siblings |
| EditorOps.MoveByOffsetUndoes | apps/web/src/menu-config/editor-state.ts:335-346 | one step and one step back, in either order and at any depth, is the identity |
| EditorOps.CreateCount | apps/web/src/menu-config/editor-state.ts:132-163 | creating a group adds that group once and nothing else |
| EditorOps.DeleteUndoesCreate | apps/web/src/menu-config/editor-state.ts:132-190 | deleting a freshly created group restores the tree at any depth |
| EditorOps.DeleteSpec | apps/web/src/menu-config/editor-state.ts:165-190 | exactly an existing empty group is deleted, and only that node goes |
| EditorOps.RenameEditorNode | apps/web/src/menu-config/editor-state.ts:354-374 | the walk with its found flag renames as specified and returns null exactly for an absent node |
| EditorOps.RenameSets | apps/web/src/menu-config/editor-state.ts:354-374 | every node of the target's identity carries the given name afterwards |
| EditorOps.NameMeaning | apps/web/src/menu-config/editor-state.ts:354-356 | the name is the typed text without the blanks around it, and none exactly for a text of blanks |
| EditorOps.RenameBack | apps/web/src/menu-config/editor-state.ts:354-374 | renaming back restores the tree |
| EditorOps.MoveKeepsWellFormed | apps/web/src/menu-config/editor-state.ts:276-302 | moving keeps a well-formed tree well-formed |
| EditorOps.RenameKeepsWellFormed | apps/web/src/menu-config/editor-state.ts:354-374 | so does renaming |
| EditorOps.CreateKeepsWellFormed | apps/web/src/menu-config/editor-state.ts:132-163 | so does creating a group under a fresh custom key |
| EditorOps.DeleteKeepsWellFormed | apps/web/src/menu-config/editor-state.ts:165-190 | a deletion keeps the tree well-formed exactly when the group is not a code default |
| MenuRoundTrip.SerializeEditorState | apps/web/src/menu-config/editor-state.ts:56-71 | the walk that pushes onto two arrays produces the specified rows |
| MenuRoundTrip.RoundTrip | apps/web/src/menu-config/editor-state.ts:30-71 | every well-formed tree is shown again exactly as it was saved |
| MenuRoundTrip.SavingIsIdempotent | apps/web/src/menu-config/editor-state.ts:30-71 | saving what was loaded normalises the rows once and then changes nothing |
| MenuRoundTrip.DefaultGroupsComeBack | apps/web/src/menu-config/editor-state.ts:165-190 | a deleted default group is shown again after the next load |
| TaskTable.BackgroundTasks.ClaimOutboxBatch | packages/tasks/src/outbox.ts:34-83 | the claimed rows are eligible, unlocked, distinct, oldest first under the limit, and exactly they are leased |
| TaskProtocol.RunKeepsTableOk | packages/tasks/src/status-transitions.ts:74-204 | in every reachable table a RUNNING row has owner, lease and timeout, and a worker's timeout is one lease after its lease |
| TaskProtocol.LeaseIsExclusive | packages/tasks/src/status-transitions.ts:74-204 | while a worker's lease is unexpired on a step's clock, no step of anyone else but an explicit cancel changes the row |
| TaskProtocol.BeatingWorkerKeepsItsTask | apps/worker/src/background-task-worker.ts:82-140 | over any run, a worker that renews in time is never timed out, re-dispatched or taken over |
| TaskProtocol.NoTaskIsStranded | packages/tasks/src/outbox.ts:43-69 | in every reachable state a non-terminal row is, from a finite instant on, claimable or timed out, exactly unless it is queued with a type that is not replayed |
| TaskProtocol.AllTypesAreReplayed | apps/worker/src/outbox-scheduler.ts:226-235 | with the scheduler's own type list no non-terminal row is stranded |
| TaskProtocol.BatchTakesExactly | packages/tasks/src/outbox.ts:43-69 | status by status, the rows a claim can take: waiting ones whose retry time and lease are over, running and queued ones of a replayed type whose lease is over, and queued ones without a lease ten minutes after creation |
| TaskProtocol.DeadWorkersTaskIsHandedOver | packages/tasks/src/outbox.ts:43-83 | a task whose worker is gone is claimed, queued again and taken by another worker, once more attempted and with a new lease, exactly if its type is replayed and its lease is over; no other row changes |
| TaskProtocol.BackoffMeaning | packages/tasks/src/status-transitions.ts:27-30 | a first failure waits thirty seconds, each further one twice as long up to the ninth |
| TaskProtocol.QueuedRowIsClaimedAgain | packages/tasks/src/outbox.ts:43-69 | from the empty table a row is inserted, claimed, queued and claimed again, exactly if its type is replayed and it was created ten minutes before the second claim, however recently it was queued |
| TaskProtocol.LostWorkerIsFenced | packages/tasks/src/status-transitions.ts:155-309 | once a worker has lost a row its renewals and finishes have no effect until it claims anew |
| TaskProtocol.TerminalIsFinal | packages/tasks/src/status-transitions.ts:9-19 | a finished task never changes again |
| TaskProtocol.FinishesOnce | packages/tasks/src/status-transitions.ts:187-309 | over any run a task enters a terminal state at most once, and once exactly when it ends terminal |
| TaskProtocol.LeasedRowWaits | packages/tasks/src/outbox.ts:43-79 | until a leased row's lease ends no batch takes it, whatever batches and time-outs run; it stays as it is, or a time-out fails it and no batch ever takes it again |
| TaskProtocol.BatchesAreDisjoint | apps/worker/src/outbox-scheduler.ts:226-235 | a row claimed by one tick is in no batch of the ticks that follow for one enqueue lease, their inserts, time-outs and claims included, unless a statement on the row intervenes |
| TaskActors.CrashIsLegal | apps/worker/src/outbox-scheduler.ts:210-274 | a crash after any number of statements leaves a legal run, so the run theorems cover it |
| TaskActors.OutboxScheduler.Tick | apps/worker/src/outbox-scheduler.ts:210-274 | a tick that runs issues, in this order and whatever others do and throw in between, the inserts of what is due, the time-outs, one claim of at most fifty rows and the delivery of exactly the claimed rows; it does nothing under maintenance or while running, is a legal run of the protocol, and whatever it marks as queued is in the queue |
| TaskActors.OutboxScheduler.Deliver | apps/worker/src/outbox-scheduler.ts:236-270 | each row of the batch is marked queued exactly if its job was not held or it was waiting, the queue took it and the marking took effect, and is released otherwise, or both when the marking took effect and then threw; only a release that throws leaves the rest |
| TaskActors.BackgroundTaskWorker.HandleJob | apps/worker/src/background-task-worker.ts:82-140 | with everybody else acting between its statements, each of which may throw before or after it took effect: a skipped or refused job changes nothing; a row still held at the end is SUCCEEDED once that was recorded, even if a failure is recorded after it, or else FAILED on the final attempt; a row no longer held is left alone; and a worker whose heartbeats kept up still holds it |
| SqlText.ILikeIsExactExactlyWhenPlain | packages/server/src/table-query.ts:464-471 | unescaped ILIKE means equality, prefix, suffix or containment up to case for all texts exactly for values free of wildcards |
| FilterSql.SqlBuilder.CompileSqlCondition | packages/server/src/table-query.ts:428-508 | one condition becomes the specified text and parameters, which `RangeCompiles` and the theorems below describe, or a validation error |
| FilterSql.SqlBuilder.CompileTree | packages/server/src/table-query.ts:182-197 | the recursive compiler over the shared parameter list produces the specified text and parameters |
| FilterValues.RangeCompiles | packages/server/src/table-query.ts:428-508 | BETWEEN on a number, time or date compiles exactly if both values parse and the end is present and not below the start, to two comparisons with the start and the end as parameters, a day later for dates |
| FilterValues.RangeKeeps | packages/server/src/table-query.ts:511-579 | in memory such a range keeps the numbers and times from the start to the end, and the dates from the first day to the last, both included |
| FilterValues.NumberKeeps | packages/server/src/table-query.ts:511-579 | each comparison keeps just the cells whose number stands in that relation to the value, null counting as zero; a value that does not parse is an error |
| FilterValues.DateKeeps | packages/server/src/table-query.ts:511-579 | a date is on, off, before or after the given day of 24 hours |
| FilterValues.TextKeeps | packages/server/src/table-query.ts:511-579 | a text is, is not, contains, does not contain, begins or ends with the value up to case |
| FilterValues.EnumKeeps | packages/server/src/table-query.ts:511-579 | a code is or is not the value, letter for letter |
| FilterValues.RelativeKeeps | packages/server/src/table-query.ts:511-579 | the relative operators keep the dates of their calendar range, its end excluded, and are refused on every other field |
| FilterValues.EmptyKeeps | packages/server/src/table-query.ts:511-579 | empty is a cell without a value, and for texts the empty one |
| FilterValues.TimeParses | packages/server/src/table-query.ts:611-634 | every HH:mm of the day parses to its minute |
| FilterValues.OnlyTimesParse | packages/server/src/table-query.ts:611-634 | nothing else parses as a time but 24:00 |
| FilterMeaning.TextReadsAsTree | packages/server/src/table-query.ts:182-197 | the printed text, read with SQL precedence, is the tree: AND chains inside OR groups are never regrouped |
| FilterMeaning.LeafAgrees | packages/server/src/table-query.ts:428-579 | for one condition SQL and memory agree, null cells included |
| FilterMeaning.TextAgreesWithMemory | packages/server/src/table-query.ts:182-254 | without an empty group the printed text parses, is true only of rows the in-memory interpreter keeps, exactly of those when tested cells are filled, and the interpreter does not throw |
| FilterExact.ParsesExactlyWhenNonEmpty | packages/server/src/table-query.ts:194-197 | the printed text is SQL exactly when no group is empty |
| FilterExact.EveryParameterIsReferenced | packages/server/src/table-query.ts:462-506 | the text mentions only registered parameters, and all of them exactly when no date field is tested with AFTER |
| FilterExact.SqlSelectsWhatMemoryKeeps | packages/server/src/table-query.ts:182-254 | under any parameter offset the database takes the query exactly when no group is empty and no date field is tested with AFTER; then it selects only rows the in-memory interpreter keeps, and exactly those when tested cells are filled |
| FilterExact.DateAfterIsRefused | packages/server/src/table-query.ts:462-499 | a concrete date AFTER filter sends two parameters, mentions the second only and is refused, while in memory it keeps the rows of later days |
| FilterExact.TextTestsNeedPlainValues | packages/server/src/table-query.ts:464-471 | each of the six text operators agrees in SQL and in memory on every cell exactly when its value has no wildcard |
| FilterPrisma.SameAcceptance | packages/server/src/table-query.ts:331-425 | the Prisma and SQL compilers accept the same trees |
| FilterPrisma.ConditionSame | packages/server/src/table-query.ts:338-425 | one condition's filter object is true of a row exactly when its SQL is |
| FilterPrisma.NodeSame | packages/server/src/table-query.ts:331-425 | a tree's filter object is true of a row exactly when its chain of conditions is |
| FilterPrisma.PrismaSelectsWhatSqlSelects | packages/server/src/table-query.ts:331-508 | whenever the database takes the SQL form, both query forms of a tree select the same rows, under any parameter offset |
| FilterPayload.CheckFilterTree | packages/contracts/src/dto/base.dto.ts:142-158 | the one-pass check with two counters decides the grammar |
| FilterPayload.PayloadAcceptedExactly | packages/contracts/src/dto/base.dto.ts:91-158 | what the editor sends is accepted exactly when it is within the limits and each populated condition has a usable field, a known operator and an end value just for BETWEEN |
| FilterPayload.ValidateFilterTree | apps/web/src/components/advanced-filter.ts:296-335 | the loop reports exactly the invalid lines, in order |
| FilterPayload.ValidTreesAreAccepted | apps/web/src/components/advanced-filter.ts:265-335 | a valid tree within the limits is sent as nothing or as an accepted payload |
| FilterPayload.SendingKeepsTheMeaning | apps/web/src/components/advanced-filter.ts:265-287 | nothing is sent exactly if no line is filled in, and what is sent holds, whatever the verdicts on the conditions, exactly when the shown tree does with blank lines and groups of blank lines ignored |
| FilterPayload.RemovingTakesOnlyThatLine | apps/web/src/components/advanced-filter.ts:236-262 | removing a line and sending is sending without that line and without the groups it leaves empty |
| FilterPayload.RemovingLeavesNoneEmpty | apps/web/src/components/advanced-filter.ts:236-262 | after a removal every group at every depth still shows a line or group |
| FilterPayload.NormalizingKeepsThePayload | packages/server/src/table-query.ts:267-288 | the server's normalisation returns the editor's payload unchanged |
| FilterPayload.ThirdLevelIsRefused | packages/server/src/table-query.ts:683-692 | a group inside a subgroup is refused, even one that could be read as a condition |
| FilterPayload.ReEditingShowsThePrunedTree | apps/web/src/components/advanced-filter.ts:374-391 | editing a sent filter again shows the pruned tree up to ids and labels |
| FilterPayload.OldPayloadKeepsItsMeaning | packages/server/src/table-query.ts:274-283 | an old groups payload is read as AND inside groups and OR between them |
| FilterPayload.OldPresetKeepsItsMeaning | apps/web/src/components/advanced-filter.ts:416-457 | an old preset is read as its main conditions folded by their logic, or any of its groups, unreadable entries left out |
| FilterPayload.NewPresetIsReadBack | apps/web/src/components/advanced-filter.ts:416-424 | a preset in the new form is read back as the saved tree |
| FilterPath.MatchIsVerdict | packages/server/src/table-query.ts:230-254 | interpreting the query read from a sent tree is deciding the tree by the verdicts on its conditions |
| FilterPath.SentNumberKeeps | packages/server/src/table-query.ts:511-579 | by its name on the wire each operator on a number or time keeps exactly the cells in that relation to the sent value |
| FilterPath.SentDateKeeps | packages/server/src/table-query.ts:511-579 | the same for days |
| FilterPath.SentTextKeeps | packages/server/src/table-query.ts:511-579 | the same for texts |
| FilterPath.SentNamesMeanThemselves | packages/server/src/table-query.ts:511-579 | the empty and relative tests and ranges are read by their names, with both values as sent |
| FilterPath.EditorFilterSelectsItsRows | apps/web/src/components/advanced-filter.ts:265-287 | what the editor sends is read as it was sent, is taken by the database exactly without AFTER on a date field, and then selects the rows that satisfy the filled-in lines of the shown tree when tested cells are filled, and no others otherwise |
| FilterPath.OldPayloadKeepsItsRows | packages/server/src/table-query.ts:274-283 | an old groups payload keeps its meaning down to the rows the interpreter keeps |
| FilterPath.OldPresetKeepsItsRows | apps/web/src/components/advanced-filter.ts:416-457 | so does an old preset as the editor reads it |
| FilterPath.LeftoverEndIsRefused | apps/web/src/components/advanced-filter.ts:354-372 | a stored preset with an end value is shown with it and sent with it, and the grammar accepts that exactly for BETWEEN |
| FilterPath.SentCompilesExactly | packages/server/src/table-query.ts:428-508 | the compiler takes a sent tree exactly if each condition has a known field, an operator for its type and values that parse as sent, an end not before its start |
| FilterPath.PaddedTimeIsRefused | apps/web/src/components/advanced-filter.ts:296-335 | a time that passes the editor's check is compiled exactly if there is nothing to trim |
| FilterPath.EmptyGroupIsRefused | packages/server/src/table-query.ts:267-288 | the normalisation lets a tree without conditions pass, its text is refused by the database, and in memory it keeps every row |
| RestoreProtocol.RecordedMeansCompleted | apps/recovery-executor/src/recovery-executor.service.ts:310-363 | in every state reachable without an overtaking delivery, a recorded stage means all earlier ones completed for that delivery, and the stages that replace the database run and are recorded only under the marker |
| RestoreProtocol.StagesNeverGoBack | apps/recovery-executor/src/recovery-executor.service.ts:310-363 | between any two moments the stage recorded for a delivery never goes back, and its uuid and backup never change |
| RestoreProtocol.OnlyTheRecordedStageIsRepeated | apps/recovery-executor/src/recovery-executor.service.ts:325-343 | no stage before the recorded one begins again, through crashes, failed writes and retries |
| RestoreProtocol.RedeliveryIsIgnored | apps/recovery-executor/src/recovery-executor.service.ts:212-236 | from an acceptance whose manifest was written on, through any crashes, failed writes, retries and refused deliveries, every redelivery of its uuid leaves disk, archive, marker and stages alone until another delivery is accepted |
| RestoreProtocol.UnwrittenDeliveryIsAcceptedAnew | apps/recovery-executor/src/recovery-executor.service.ts:212-236 | an immediate redelivery is ignored exactly when the manifest had been written |
| RestoreProtocol.DeliveryWhileUnmarkingWaits | apps/recovery-executor/src/recovery-executor.service.ts:346-349 | a delivery accepted while the marker is being removed is not started, loses its marker and waits at PRECHECK for a retry |
| RestoreProtocol.DeliveryIsCarriedOutExactly | apps/recovery-executor/src/recovery-executor.service.ts:212-236 | after a complete acceptance the process by itself can complete all stages exactly if it was idle or about to begin the first stage, and not shutting down |
| RestoreProtocol.LateDeliveryIsNotCarriedOut | apps/recovery-executor/src/recovery-executor.service.ts:345-363 | from the initial state a second delivery can be accepted while the marker is removed, while that failed or while the outcome is mirrored, and is not carried out |
| RestoreProtocol.ManifestIsLostExactly | apps/recovery-executor/src/recovery-executor.service.ts:969-973 | a step takes a manifest off file exactly when an accepted delivery archives one under a uuid that is archived already |
| RestoreProtocol.UuidIsDoneTwiceExactly | apps/recovery-executor/src/recovery-executor.service.ts:212-236 | once its manifest is written, a new delivery can lead to a second completion of its uuid exactly if that uuid is archived |
| RestoreProtocol.DoneTwiceIsTwice | apps/recovery-executor/src/recovery-executor.service.ts:964-968 | a second completion is one: two restores of the uuid, each with all its stages completed |
| RestoreProtocol.ArchivedUuidRunsTwice | apps/recovery-executor/src/recovery-executor.service.ts:964-973 | from the initial state, any two uuids restored in turn twice: all stages of the first have run twice, and its first manifest is no longer on file |
| RestoreProtocol.NothingOnDiskIsForgotten | apps/recovery-executor/src/recovery-executor.service.ts:212-236 | as long as no archived uuid is accepted, a manifest once written stays on disk or in the archive and no uuid is done twice, through crashes between any two writes |
| RestoreProtocol.FailedStageIsRetried | apps/recovery-executor/src/recovery-executor.service.ts:352-362 | a failed stage leaves its error recorded and maintenance as it was, and the next retry, even after a crash, begins with it |
| RestoreProtocol.OvertakingFalsifies | apps/recovery-executor/src/recovery-executor.service.ts:330-349 | a delivery that overtakes a finishing pipeline leads to a manifest marked DONE that was never run |
| RestoreProtocol.OnlyOvertakingFalsifies | apps/recovery-executor/src/recovery-executor.service.ts:212-246 | exactly the overtaking deliveries can lead to a false DONE |
| RestoreProtocol.FalseDoneIsReachable | apps/recovery-executor/src/recovery-executor.service.ts:330-349 | from the initial state any two different uuids lead to a second restore recorded as DONE of which no stage ever began |
| RestoreProtocol.RetryCanFinish | apps/recovery-executor/src/recovery-executor.service.ts:238-247 | from every idle state with a manifest one successful retry finishes the restore and leaves maintenance |
| RestoreExecutor.RecoveryExecutor.AcceptDelivery | apps/recovery-executor/src/recovery-executor.service.ts:212-236 | the object's acceptance is the protocol's step, with the writes that took place, the archive file of the old uuid replaced, and the reply |
| RestoreExecutor.RecoveryExecutor.Retry | apps/recovery-executor/src/recovery-executor.service.ts:238-247 | a retry is the protocol's step and starts at most one pipeline |
| RestoreExecutor.RecoveryExecutor.constructor | apps/recovery-executor/src/recovery-executor.service.ts:106-126 | a new process over the same directory is the protocol's crash |
| RestoreExecutor.RecoveryExecutor.RunStage | apps/recovery-executor/src/recovery-executor.service.ts:330-343 | one turn of the loop is a legal run to the next boundary, a stop or a failure |
| RestoreExecutor.RecoveryExecutor.RunPipelineInner | apps/recovery-executor/src/recovery-executor.service.ts:310-363 | with deliveries and retries arriving wherever it stands, the loop is a legal run that ends idle; it reaches its end exactly when no write, stage or marker change fails and no shutdown is asked for, and has then finished its restore if no call arrived |
| RestoreExecutor.RecoveryExecutor.RunPipeline | apps/recovery-executor/src/recovery-executor.service.ts:298-308 | the same with the single-flight flag cleared at the end |
| Idempotency.OneEffectPerKey | apps/asset/src/shared/asset-operation-log.util.ts:197-280 | over any interleaving of calls, losses and cleanups, an operator, scope and key commit at most one business effect |
| Idempotency.RepliesCarryTheFirstResult | apps/asset/src/shared/asset-operation-log.util.ts:150-243 | every result returned under a key is the committed effect's and came with its fingerprint; only other fingerprints are refused |
| Idempotency.NoResultWithoutAnEffect | apps/asset/src/shared/asset-operation-log.util.ts:163-243 | a result under a key is never returned before an effect is committed |
| Idempotency.LaterCallsAreAnswered | apps/asset/src/shared/asset-operation-log.util.ts:163-280 | once an effect is committed, every way for a later call to end gives the first result or a refusal by fingerprint and leaves the effects alone |
| Idempotency.EachCallCommitsOnce | apps/asset/src/shared/asset-operation-log.util.ts:209-216 | even without a key a call commits at most once and returns what it committed |
| Idempotency.CleaningKeepsEntries | apps/worker/src/processors/log-retention-cleanup.processor.ts:65-92 | a batched deletion takes no idempotency record away |
| IdempotentOperations.BatchMeaning | apps/worker/src/processors/log-retention-cleanup.processor.ts:71-90 | a batch deletes at most its limit and only what the whole cleanup would; a short batch means nothing is left |
| IdempotentOperations.RetentionMeaning | apps/worker/src/processors/log-retention-cleanup.processor.ts:53-160 | a row goes exactly if it has no key, its action type is one of the five and it is older than the days of its own setting if positive, of the common one, or 365, if that setting is negative or missing, and never if that is zero |
| IdempotentOperations.RetentionKeepsRecords | apps/worker/src/processors/log-retention-cleanup.processor.ts:53-92 | after a cleanup under any settings every key's record answers as before |
| IdempotentOperations.OperationLog.CommitIdempotentOperation | apps/asset/src/shared/asset-operation-log.util.ts:197-243 | an uninterrupted commit is the protocol's commit and, on a unique violation, its lookup |
| IdempotentOperations.OperationLog.ExecuteIdempotentOperation | apps/asset/src/shared/asset-operation-log.util.ts:257-280 | an uninterrupted call is the protocol's precheck, commit and lookup, with that reply |
| IdempotentOperations.OperationLog.DeleteExpiredOperationLogs | apps/worker/src/processors/log-retention-cleanup.processor.ts:65-92 | the loop of batches of 5000 terminates, is a legal run of cleanups of the protocol, leaves exactly the unexpired and keyed rows in order, and counts the deleted ones |
| IdempotentOperations.OperationLog.CleanOperationLogs | apps/worker/src/processors/log-retention-cleanup.processor.ts:53-160 | over the action types exactly the unkeyed rows older than their own type's policy go, with never and inherit honoured, in a legal run of cleanups |
| Canonical.CanonicalizeIsIdempotent | packages/logging/src/fingerprint.ts:9-21 | canonicalising twice is canonicalising once |
| Canonical.SameFormIsEquivalent | packages/logging/src/fingerprint.ts:9-21 | the same form means equal up to order of items and members at every depth, undefined members ignored, whatever the comparison |
| Canonical.EquivalentHasSameForm | packages/logging/src/fingerprint.ts:9-21 | a payload without ties has the form of every payload that differs from it only in order |
| Canonical.FormDecidesExactlyWhenTieFree | packages/logging/src/fingerprint.ts:9-21 | the form of a payload decides which others are the same exactly when at no depth two different canonical items or two keys of it tie |
| Fifo.SelectMeaning | apps/asset/src/shared/inventory-core.ts:92-99 | the query lists exactly the item's batches in stock, oldest first |
| Fifo.FirstInFirstOut | apps/asset/src/shared/inventory-core.ts:91-119 | a batch of the item received before a touched one, or at the same instant with a smaller id, is empty afterwards; the allocations run from older to newer batches, each within what its batch held, and each is taken from that batch alone |
| Fifo.BatchTable.AllocateFifoBatches | apps/asset/src/shared/inventory-core.ts:91-119 | fails exactly when the total is short, and then changes nothing; else deducts what it returns, first in first out |
| Fifo.TakesExactly | apps/asset/src/shared/inventory-core.ts:101-118 | exactly the quantity is taken, or everything there is |
| Fifo.OldestAreEmptiedFirst | apps/asset/src/shared/inventory-core.ts:102-114 | the allocations are the oldest batches in order, all but the last emptied |
| Fifo.OnlyTheItemsStockIsTouched | apps/asset/src/shared/inventory-core.ts:107-111 | other batches are left alone, and no batch of the item gains or falls below zero |
| Fifo.AllocatingInTwoSteps | apps/asset/src/shared/inventory-core.ts:91-119 | allocating a and then b leaves the table as allocating a + b, and is short exactly when that is |
| ApprovalTimeout.BalancesAreKeptExactly | packages/approval/src/timeout.ts:90-138 | a cancellation leaves every item's reserved quantity beyond pending requests as it was exactly when it is transactional, stops before the first statement or after the release, or has nothing to release |
| ApprovalTimeout.ScanConservesStock | apps/worker/src/processors/approval-timeout.asset-release.ts:28-77 | no scan step changes that balance, whether it cancels, skips, fails or is cut off |
| ApprovalTimeout.CoveredFits | apps/worker/src/processors/approval-timeout.asset-release.ts:30-45 | when reservations cover pending requests, no release violates the constraint on reserved quantities |
| ApprovalTimeout.OneActionPerCancelledRequest | packages/approval/src/timeout.ts:100-135 | over any interleaving with people and crashes a request has one AUTO_CANCEL action if a scan cancelled it and none otherwise |
| ApprovalTimeout.SettledStaysSettled | packages/approval/src/timeout.ts:100-120 | a request leaves PENDING at most once |
| ApprovalScan.ListingMeaning | packages/approval/src/timeout.ts:52-74 | the listing is made of overdue rows, each once, and what the limit leaves out was submitted no earlier |
| ApprovalScan.OverdueMeaning | packages/approval/src/timeout.ts:15-18 | a request is overdue exactly if it is pending and was submitted more than the whole days of the setting ago, or thirty if the setting is missing or below one |
| ApprovalScan.QuotasFollowTheRequest | apps/worker/src/processors/approval-timeout.asset-release.ts:61-71 | exactly a consumable request's reserved quota is released with it; consumed quota and other requests' quota is left |
| ApprovalScan.ScanCancelsWhatItLists | packages/approval/src/timeout.ts:149-169 | while reservations cover pending requests an undisturbed scan never fails, cancels each listed request and no other, and keeps every balance |
| ApprovalScan.ApprovalTables.OnAutoCancel | apps/worker/src/processors/approval-timeout.asset-release.ts:28-77 | the release by request type, refused as a whole by the constraint |
| ApprovalScan.ApprovalTables.AutoCancelOverdueRow | packages/approval/src/timeout.ts:90-138 | with or without a transaction and cut off after any statement, head, action and release are as the protocol says, and a stale row is skipped |
| ApprovalScan.ScanCountsItsCancellations | packages/approval/src/timeout.ts:149-169 | whoever decides between the rows and wherever one breaks off, a scan that ends normally counts exactly the requests it cancelled |
| ApprovalScan.ScanIsARun | packages/approval/src/timeout.ts:149-169 | a scan in transactions among other people is a legal run, so the theorems about runs cover it |
| ApprovalScan.ApprovalTables.ScanAndAutoCancelOverdue | packages/approval/src/timeout.ts:149-169 | the loop over the listing, with or without transactions and among other people, computes the specified tables and count, and a failure ends it |

## Left out

- User interface, HTTP, guards, dependency injection and health probes: no decision of these cores is made there.
- BullMQ and Redis internals: the queue is a set of jobs that may vanish and may refuse.
- The bodies of the restore stages: each is a step that succeeds, fails or is cut off by a crash.
- Status polling of the restore executor, which reloads the manifest from disk between two awaits; acceptance of a delivery is one step with respect to a running pipeline, and a manifest write is one step.
- The mirror row of a restore in the database and all logging: best effort, read by no branch of these cores.
- Task scheduling order under the batch limit: an old row may be picked again and again, so no fairness is claimed.
- Random identifiers for new groups, lines and rows: given as arguments, or blank where trees are compared up to ids.
- Default item keys are taken to be unique where the theorem says so (`UniqueKeys`).
- Lexing of SQL: the printed text is a list of tokens, read by a parser with the precedence of NOT, AND and OR of the PostgreSQL documentation, section 4.1.6.
- `compile` callbacks and fields over several columns in the Prisma and SQL compilers, and sorting of rows and sort levels.
- Date, time and number syntax and calendar arithmetic: parsers and relative ranges are parameters; instants are integers.
- Case folding is a function on characters that leaves the wildcards alone; full Unicode folding is not modelled.
- Numbers and dates that arrive as text in a row held in memory.
- `JSON.parse` and `JSON.stringify` of filters and presets: payloads are parsed values; the grammar predicate for the old `groups` payload is not modelled.
- Objects whose keys look like array indices, which JavaScript lists first whatever their insertion order; members are listed as inserted. Other prototypes than plain objects and arrays do not occur in parsed payloads.
- SHA-256: the canonical form itself is compared.
- The hr and fin copies of the operation-log utility, which are the same protocol; operator snapshots and summaries of a log row.
- Isolation inside one database transaction: each transaction is one step at its commit; the unique index decides between two commits.
- Retention settings are whole numbers after parsing; error and security logs, which have no idempotency rule, and the other schemas' tables, which repeat the same loop.
- Locking and the caller's transaction around the FIFO allocation: a shortage restores the batches, as its rollback does.
- The outer loop of the timeout scan over three schemas: the model is one schema's tables, with the asset release; the other schemas have no reservations.
- What human decisions do to reservations and quotas is left open, as the claims about the scan hold whatever they do; drafts do not occur in the scanned tables.
- ValidateFilterTree: reports the invalid lines themselves rather than their messages, and takes the formats of numbers, dates and times as given.
- PayloadAcceptedExactly: does not model the limit of 16000 characters on the text of `filters`, because payloads are parsed values.
- Of the shell only which items are visible and how they are grouped: not the home entry, the selection or the cards of the home page.
- The restore stage CANCEL_TASKS, which sets every unfinished task to CANCELLED and leaves its lease as it is: `RowOk` holds of tables that the task statements alone have changed.
- CleanOperationLogs: one schema's operation log.
- A text pattern that ends in an unfinished escape fails when it is evaluated; here it matches nothing.
- A row that was deleted from the queue after it was marked: the queue may lose any job at any time, and the table's rules do not depend on it.
