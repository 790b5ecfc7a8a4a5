# FastBuild: a verified model of the stateful core

This project models the parts of FastBuild whose correctness depends on state that many callers share or that
outlives one call, and proves what they promise. Every claim below is a Dafny contract; nothing is executed.
`dafny verify dfyconfig.toml` checks all of it.

- **The durable task queue** (`Tasks`, `Runs`, `Fencing`, `Lifetimes`, `Budgets`, `Driver`, `Locks`, `LockRuns`). The table is a map
  from task id to row, and each SQL statement of the driver is one atomic step on it. A *log* is any interleaving of
  the steps of any number of workers and operators with any clock readings, so a theorem about all legal logs is a
  theorem about all runs. `Driver.PostgresDriver` is the driver as a class over a shared table that records its log;
  where a method runs two statements outside a transaction, its parameter `others` lists what other sessions do between
  them. `Locks` takes the claim transaction apart into its two recovery updates, its locked select, and its guarded
  update with the commit, with private writes, row locks, waiting and rollback, and shows that the committed table of
  every such run is again that of a legal log; `LockRuns` proves what whole runs of such transactions keep.
- **The starter catalog** (`Graphs`, `Starter`): the three-colour cycle check, the transitive resolver and the
  assembler, against cycles, least closures and dependency orders.
- **Keyset pagination** (`Pagination`): the query of one page, and the walk over a table that changes between pages.
- **Snowflake ids** (`Snowflake`), **the in-memory log ring** (`LogRing`), **the slog bridge** (`SlogFields`),
  **layered environment files** (`EnvFiles`), **redaction** (`SensitiveKeys`, `Redaction`) and **signed sessions**
  (`Base64Url`, `Session`): each a small mutable core proved equal to a plain specification, and the laws of that
  specification.

## What the proofs found

- *Cancellation needs isolation.* The second recovery update of Claim does not look at the cancel flag. The transaction
  names no isolation level, and under PostgreSQL's default (READ COMMITTED) a Cancel may commit between the two updates;
  the task is then marked failed, and RetryFailed may requeue it as a pending row nobody can claim.
  `Locks.CancelIsLostUnderLocks` gives the run with its transactions and row locks, and
  `Lifetimes.LostCancellationCanBeRequeued` what may follow. A run honors all cancellations if and only if no second
  recovery update of it meets a marked row (`Lifetimes.HonoredExactlyWhenSpared`, for one row
  `Lifetimes.OnlyCanceledFollowsCancel`), and that happens exactly when the row was marked between the two updates of the
  claim: `Lifetimes.CancellationWins` for statements, `LockRuns.CancelIsLostExactly` and
  `LockRuns.LockedRunsHonorExactly` for transactions. `Lifetimes.CancelRequestSticks` and `Lifetimes.CanceledIsFinal` hold
  in every run.
- *A claim may wait for another.* The recovery updates do not skip locked rows. One waits exactly when another open claim
  of the same queue has rewritten a row that it would rewrite too (`Locks.FirstRecoveryWaitsExactly`,
  `Locks.SecondRecoveryWaitsExactly`, with a run in `Locks.ClaimsCanWait`); picked rows never make it wait. As far as whole updates wait for each other, claims
  never deadlock: waits among claims that have only begun point from earlier to later ones
  (`LockRuns.WaitsPointForward`), and all open claims can always be brought to their commits
  (`LockRuns.OpenClaimsCommit`).
- *Retry can strand a task.* It does not compare attempts with max_attempts; a Retry accepted on the last attempt leaves
  a pending row that no Claim picks and RetryFailed refuses. `Budgets.LateRetryStrandsRow` is such a run,
  `Budgets.RunsStrandExactlyByLateRetry` says exactly when a run does so, and `Budgets.WorkersStrandNoRow` that the
  worker's own discipline rules it out.
- *Fencing numbers repeat.* After Clear or PruneFinished and a push of the same id, fencing tokens start again at 0. It is
  the fresh lease token that fences old holders out (`Fencing.FencingTokensRepeat`, `Fencing.DeletionFences`).
- *A cursor always carries the creation time,* whatever column the query sorts by, and compares the sort keyword with
  `desc` exactly while SQL reads it in any case. `Pagination.UpperCaseKeywordLosesRows` and
  `Pagination.OtherColumnLosesRows` are walks that lose a row, `Pagination.UpperCaseKeywordRepeatsRows` is one that brings
  a row twice, and `Pagination.OtherColumnNeedNotEnd` one that never ends although the table does not change. Walks over
  tables of given rows miss nothing if and only if the cursor of each row lets every later row through
  (`Pagination.WalksMissNothingExactly`), and repeat nothing if and only if the cursor of each row that others follow lets
  none but later rows through (`Pagination.WalksRepeatNothingExactly`, both in `Pagination.WalksReturnOnceExactly`).
  Sorted by creation time, each of the two is a condition on the keyword alone
  (`Pagination.CreationWalksMissNothingExactly`, `Pagination.CreationWalksRepeatNothingExactly`).
- *A clock that steps back breaks the order of ids,* and can repeat one: `Snowflake.SteppingBackRepeatsIds` runs a
  generator on such a clock. The ids of a generator increase if and only if no reading it used stepped back
  (`Snowflake.IncreasingExactlyWhenSteady`); one call lets growing ids grow on if and only if the reading it starts with is
  not before the last one (`Snowflake.SnowflakeGenerator.GenerateInt64`).
- *Not every session payload comes back.* Empty payloads, a leading byte order mark and unpaired surrogates are lost;
  `Session.SessionRoundTrip` states the round trip with exactly these exceptions.
- *Opaque values pass through redaction,* such as structs and maps whose keys are not strings, with any password in them
  (`Redaction.OpaqueValuesLeak`). `Redaction.RedactedIsClean` says that this is the only way a credential field can
  survive.

## Model

| member | source | states |
|---|---|---|
| Common.TrimSpaceIs | api/internal/capabilities/workflow/postgres.go:119 | Trimming takes all white space from both ends and nothing else |
| Common.SpacesByCode | api/internal/capabilities/workflow/postgres.go:119 | The code points that count as white space |
| Common.ByteLengthGrows | api/internal/capabilities/workflow/postgres.go:120 | The length of a name is the number of its UTF-8 bytes, one to four for each code point |
| Tasks.Select | api/internal/capabilities/workflow/postgres.go:199-205 | The locked select returns the least claimable row by (available_at, created_at, id) among the rows no other transaction has locked, and nothing exactly when there is none |
| Tasks.FirstN | api/internal/capabilities/workflow/postgres_operations.go:112-120 | ORDER BY updated_at, id LIMIT n as a set: as many rows as the limit allows, each before every row left out |
| Tasks.UntouchedTable | api/internal/capabilities/workflow/postgres.go:261-267 | A statement that affects no row leaves the table as it is, which is what RowsAffected is used for |
| Runs.RowStep | api/internal/capabilities/workflow/postgres.go:180-346 | The row invariant (processing iff leased iff expiring, attempts within the limit, completed and failed iff their timestamps, canceled only on request) is inductive for each statement on each row |
| Runs.RowKeeps | api/internal/capabilities/workflow/postgres.go:187-346 | No update rewrites id, queue, idempotency key, payload hash or attempt limit, and only the guarded update of a claim introduces a lease token |
| Runs.StepKeepsInv | api/internal/capabilities/workflow/postgres.go:143-384 | Every statement the driver may issue keeps row invariant, lease-token uniqueness and key uniqueness of the whole table |
| Runs.RunKeepsInv | api/internal/capabilities/workflow/postgres.go:143-384 | These invariants hold after every run, for any interleaving of any workers and operators and any clock readings |
| Fencing.IssueHolds | api/internal/capabilities/workflow/postgres.go:214-227 | A claim leases exactly its one row, under a token that no earlier statement drew, and its holder then holds the row |
| Runs.ReachableRow | api/internal/capabilities/workflow/postgres.go:143-384 | The row invariants of every reachable table, column by column |
| Fencing.TakeIsGuarded | api/internal/capabilities/workflow/postgres.go:214-215 | The update of a claim affects its row if and only if the row still has the fencing number that was read |
| Fencing.HeldOrRetired | api/internal/capabilities/workflow/postgres.go:212-346 | From issue on, either the claim is held on its own row or no row carries its token |
| Fencing.RetiredForever | api/internal/capabilities/workflow/postgres.go:143-384 | A token that no row carries never comes back, through any later statements, insertions and deletions included |
| Fencing.StaleHolderIsFenced | api/internal/capabilities/workflow/postgres.go:244-346 | Once a claim is not held, every later Complete, Fail, Retry, cancellation or Heartbeat of its holder affects no row and changes nothing |
| Fencing.LaterClaimFences | api/internal/capabilities/workflow/postgres.go:212-346 | A later claim of the same row fences the earlier holder out for good |
| Fencing.DeletionFences | api/internal/capabilities/workflow/postgres.go:384-386 | Deleting the row fences its holder out even when the same id is inserted again later |
| Fencing.FencingTokensRepeat | api/internal/capabilities/workflow/postgres.go:143-157 | Fencing numbers alone would not do: in some run a re-inserted row has the id and fencing token of an older claim and differs only in the lease token |
| Fencing.OwnershipEndsOnce | api/internal/capabilities/workflow/postgres.go:259-346 | Each ownership has at most one accepted Complete, Fail, Retry, cancellation or recovery, in every run |
| Fencing.EndsAreLosses | api/internal/capabilities/workflow/postgres.go:190-386 | A held claim stops being held exactly at one of those statements, when its row is claimed again, or when its queue is cleared |
| Fencing.HeldUntilLastExpiry | api/internal/capabilities/workflow/postgres.go:306-308 | While a claim is held, its row's expiry is the one set by the claim or by the last accepted heartbeat of that holder |
| Fencing.LossStep | api/internal/capabilities/workflow/postgres.go:190-386 | A statement ends a held claim if and only if it is an accepted release by its holder, a recovery or claim at or past the expiry, or the clearing of its queue |
| Fencing.OwnershipEndsByReleaseOrExpiry | api/internal/capabilities/workflow/postgres.go:190-315 | A claim stops being held only at an accepted release of its own holder, at a recovery or claim at or past its last expiry, or when its queue is cleared; the position is given, with the claim held before it and not after it |
| Fencing.LossesAre | api/internal/capabilities/workflow/postgres.go:190-386 | The same, in the columns of the lost row |
| Fencing.OwnershipIntervalsDisjoint | api/internal/capabilities/workflow/postgres.go:187-232 | By a second claim of a row the first was lost in one of those ways, and a row taken from its holder was taken at a clock reading at or past the last expiry |
| Lifetimes.CancelRequestSticks | api/internal/capabilities/workflow/postgres.go:317-333 | In every interleaving a row with a cancel request keeps it, is not completed and is never claimed again until it is deleted |
| Lifetimes.CanceledTaskIsNotClaimed | api/internal/capabilities/workflow/postgres.go:200-203 | No Claim takes a row whose cancellation was requested |
| Lifetimes.CanceledIsFinal | api/internal/capabilities/workflow/postgres.go:317-346 | Canceled is absorbing: no statement but deletion touches the row again |
| Lifetimes.StepHonorsExactly | api/internal/capabilities/workflow/postgres.go:187-346 | A statement keeps every cancellation honored if and only if it is not a second recovery update that fails a cancel-requested row |
| Lifetimes.HonoredExactlyWhenSpared | api/internal/capabilities/workflow/postgres.go:187-346 | In every interleaving all tables of a run honor their cancellations if and only if no second recovery update of the run fails a marked row |
| Lifetimes.FirstRecoveryClearsTheWay | api/internal/capabilities/workflow/postgres.go:190-192 | Run just before it on the same rows, the first recovery update leaves the second no marked row to fail |
| Lifetimes.FailsMarkedExactly | api/internal/capabilities/workflow/postgres.go:190-197 | A row failed by the second update was marked if and only if a cancel of it, or a heartbeat on it while marked, was accepted after the first |
| Lifetimes.LateMarksAre | api/internal/capabilities/workflow/postgres.go:287-333 | What is accepted then is a cancel of a pending or processing row or a heartbeat on a marked one |
| Lifetimes.CancellationWins | api/internal/capabilities/workflow/postgres.go:189-229 | When every second recovery update follows a first one of its claim, whatever commits between them, no table of the run holds a cancel-requested row that is pending, completed or failed if and only if no row failed by a second update was marked between the two |
| Lifetimes.OnlyCanceledFollowsCancel | api/internal/capabilities/workflow/postgres.go:317-346 | From an accepted cancel on, in every interleaving, the row stays processing or canceled if and only if no second recovery update fails it |
| Lifetimes.CancelBetweenRecoveriesIsLost | api/internal/capabilities/workflow/postgres.go:190-197 | Without that isolation a cancel between the two recovery updates leaves a failed row with a cancel request; the run is given |
| Lifetimes.LostCancellationCanBeRequeued | api/internal/capabilities/workflow/postgres_operations.go:77-90 | RetryFailed may then requeue that row as pending, where no claim can take it |
| Lifetimes.UpdatesKeepBindings | api/internal/capabilities/workflow/postgres.go:187-346 | No update of holders or operators changes the map from (queue, key) to (id, fingerprint); deletion drops only the bindings of its rows |
| Lifetimes.InsertBinds | api/database/migrations/2026_07_31_000000_create_workflow_tasks_table.go:48 | A keyed insert binds a free key with a free id and otherwise changes no binding |
| Lifetimes.IdentityPersists | api/internal/capabilities/workflow/postgres.go:271-285 | While a row lives its queue, key, payload hash and limit never change, even when Retry rewrites the payload |
| Budgets.ClaimsAre | api/internal/capabilities/workflow/postgres.go:214-219 | The number of claims of a row between two positions of the log |
| Budgets.RevivalsAre | api/internal/capabilities/workflow/postgres_operations.go:77-90 | The number of accepted RetryFailed calls on it |
| Budgets.FencingCountsClaims | api/internal/capabilities/workflow/postgres.go:214-219 | The fencing token of a row counts its claims |
| Budgets.ClaimsOfOneLifeDiffer | api/internal/capabilities/workflow/postgres.go:214-219 | Two claims of one life of a row have increasing fencing tokens |
| Budgets.AttemptsCountClaims | api/internal/capabilities/workflow/postgres.go:214-219 | Between accepted RetryFailed calls, attempts counts the claims |
| Budgets.ClaimsWithinBudgets | api/internal/capabilities/workflow/postgres_operations.go:77-90 | A life of a row sees at most (accepted RetryFailed calls + 1) times max_attempts claims |
| Budgets.StepSpendsBudget | api/internal/capabilities/workflow/postgres.go:187-346 | No statement but an insert or RetryFailed raises the sum of the attempts left, and each claim lowers it by at least one |
| Budgets.AllClaimsAre | api/internal/capabilities/workflow/postgres.go:214-219 | The number of claims of all rows |
| Budgets.WorkersDrain | api/internal/capabilities/workflow/postgres.go:180-234 | Without further pushes or RetryFailed calls, claims on the table plus what is left never exceed the sum of max_attempts - attempts at the start |
| Budgets.SpentRowIsStuck | api/internal/capabilities/workflow/postgres.go:271-285 | A pending row with a spent budget stays exactly as it is until it is canceled or deleted |
| Budgets.LateRetryStrandsRow | api/internal/capabilities/workflow/postgres.go:271-285 | There is a run that ends with such a row: a single claim, retried by its holder |
| Budgets.StrandedExactlyByLateRetry | api/internal/capabilities/workflow/postgres.go:271-285 | A statement strands a row in that state if and only if it is a Retry accepted on the row's last attempt |
| Budgets.RunsStrandExactlyByLateRetry | api/internal/capabilities/workflow/postgres.go:271-285 | No table of a run holds such a row if and only if no Retry of the run is accepted on a last attempt |
| Budgets.HeldRowMatchesClaim | api/internal/capabilities/workflow/postgres.go:227 | While a claim is held, its row has the payload and the attempts that the claim was handed out with |
| Budgets.WorkersStrandNoRow | api/internal/capabilities/workflow/worker.go:328-395 | When every Retry comes from a worker that compares the claimed attempt with max_retries, no run strands a row |
| Driver.SingleRow | api/internal/capabilities/workflow/postgres.go:256-261 | A guarded update that names its row affects that row or nothing, so testing RowsAffected is testing the guard |
| Driver.RecoveriesKeepClaimables | api/internal/capabilities/workflow/postgres.go:190-203 | The recovery updates neither add nor remove a claimable row and leave the claimable rows alone |
| Driver.SelectAfterRecovery | api/internal/capabilities/workflow/postgres.go:190-205 | Selecting after the recoveries picks the least row that was claimable before them |
| Driver.KeyedInsert | api/database/migrations/2026_07_31_000000_create_workflow_tasks_table.go:48 | The table admits a row exactly when its id is unused and its key, if any, unbound; a bound key has exactly one row, the one it is bound to |
| Driver.RepeatedPushAnswersAlike | api/internal/capabilities/workflow/postgres.go:156-172 | Until the task is deleted, pushing its key again changes no row and returns its id or a conflict, as decided by the fingerprint of the first push, whatever happened before the push or between its insert and its lookup |
| Driver.TableInvariants | api/internal/capabilities/workflow/postgres.go:180-346 | Every table a driver leaves behind satisfies all invariants, and its run honors all cancellations if and only if no recovery update failed a marked row |
| Driver.RefusedVanishes | api/internal/capabilities/workflow/postgres.go:244-285 | A statement that affects no row leaves no trace: the table and the legality of all that others do later are as if it had not run |
| Driver.LostExactlyWhenNotHeld | api/internal/capabilities/workflow/postgres.go:261-346 | When a holder cannot settle its claim, whatever others do before the fallback statement, the lease is reported lost exactly when the claim is no longer held by then |
| Driver.PostgresDriver.PushTask | api/internal/capabilities/workflow/postgres.go:116-172 | In terms of arguments and columns: the refusals in the order of their tests; a new task is stored under the trimmed queue and key with its id, fingerprint, limit and times; a key in use answers with its id or a conflict, by fingerprints |
| Driver.PostgresDriver.NewRow | api/internal/capabilities/workflow/postgres.go:132-155 | The row is unclaimed in the trimmed queue, stores a payload that names the row and has the stored fingerprint, allows at least one attempt, and has the trimmed key exactly when that is not blank |
| Driver.PushedByRows | api/internal/capabilities/workflow/postgres.go:156-171 | Insertion into the key map, in terms of rows: the row is added exactly if its id and its key are free; otherwise the row of the later table with the same queue and key answers |
| Driver.PostgresDriver.Create | api/internal/capabilities/workflow/postgres.go:156-171 | When the table refuses the row, the answer is the id that its key is bound to in the table left by others meanwhile, a conflict, or an insert error |
| Driver.PostgresDriver.Recover | api/internal/capabilities/workflow/postgres.go:190-198 | Both updates together cancel or fail each expired row of the queue and keep every other row |
| Driver.ClaimedRowIsDue | api/internal/capabilities/workflow/postgres.go:199-227 | Column by column: the row handed out is unlocked, of the queue, not marked, has attempts left, and is pending and due or expired; its lease, attempts and fencing token after the claim are given |
| Driver.EarliestDueRowIsClaimed | api/internal/capabilities/workflow/postgres.go:199-208 | The queue is reported empty exactly when no unlocked row meets these conditions; every other unlocked row that meets them is later by available_at, created_at and id |
| Driver.ClaimRecoversTheRest | api/internal/capabilities/workflow/postgres.go:190-198 | Every other row is unchanged, except expired rows of the queue that are canceled when marked and failed when out of attempts |
| Driver.PostgresDriver.Claim | api/internal/capabilities/workflow/postgres.go:180-234 | The first claimable row not locked elsewhere is leased, every other row is recovered or kept, the queue is empty exactly when no row is claimable, the answer carries what the lease wrote, and the claim itself fails no marked row |
| Driver.PostgresDriver.Lease | api/internal/capabilities/workflow/postgres.go:212-228 | The guarded update on the selected row succeeds and hands out exactly its new lease |
| Driver.PostgresDriver.Finish | api/internal/capabilities/workflow/postgres.go:244-269 | An unmarked held claim is settled; any other is canceled or reported lost by the table that others leave for the second statement; the log has exactly these statements |
| Driver.PostgresDriver.Complete | api/internal/capabilities/workflow/postgres.go:236-269 | A row that is processing under the token and fencing number of the claim, unmarked, becomes completed; if it is marked by the second statement it is canceled; otherwise the lease is lost and nothing changes |
| Driver.PostgresDriver.Fail | api/internal/capabilities/workflow/postgres.go:240-242 | The same with the status failed and the failure code |
| Driver.PostgresDriver.Retry | api/internal/capabilities/workflow/postgres.go:271-285 | The same with the status pending, the new payload and the new time; the fallback has its own clock reading |
| Driver.PostgresDriver.Heartbeat | api/internal/capabilities/workflow/postgres.go:287-315 | Reports a cancel request that it reads without extending; otherwise moves only the expiry, exactly if the claim is still held after what others do between read and update |
| Driver.PostgresDriver.Cancel | api/internal/capabilities/workflow/postgres.go:317-333 | Cancels a pending row at once, marks a processing one, and reports every other id as not found without a change |
| Driver.PostgresDriver.RetryFailed | api/internal/capabilities/workflow/postgres_operations.go:77-104 | Only a failed row returns to pending, with a fresh budget and its failure code kept; the table of the second look tells the two errors apart |
| Driver.OldestGoFirst | api/internal/capabilities/workflow/postgres_operations.go:108-122 | The same about the statement itself |
| Driver.PostgresDriver.PruneFinished | api/internal/capabilities/workflow/postgres_operations.go:108-122 | Deletes only unlocked completed, failed and canceled rows with updated_at before the cutoff, at most the batch; any such row that stays means a full batch and comes after all deleted ones by updated_at and id; returns their number |
| Driver.PostgresDriver.Clear | api/internal/capabilities/workflow/postgres.go:384-386 | Deletes exactly the rows of the queue |
| Driver.FinishedRowsKeepTheirTime | api/internal/capabilities/workflow/postgres_operations.go:106-108 | The updated_at of a finished row is the clock reading at which it finished, so the cutoff of pruning is about finishing times |
| Locks.LockedRunsAreLegal | api/internal/capabilities/workflow/postgres.go:189-229 | With recovery updates, select, and guarded update with commit as separate moves, private writes, row locks, waiting and rollback, the committed table of every run is that of one of the runs all other theorems are about |
| Locks.MoveKeepsLockInv | api/internal/capabilities/workflow/postgres.go:189-229 | Every move keeps this: the committed versions of the rows that an open claim rewrote or picked are the ones it read, and open claims own different rows |
| Locks.ViewIsReplay | api/internal/capabilities/workflow/postgres.go:190-198 | What a claim sees is what its own two recovery updates, on the rows they found, make of the committed table |
| Locks.CommitPublishes | api/internal/capabilities/workflow/postgres.go:189-229 | A commit publishes exactly the rows that the statements of the claim wrote, in the versions they wrote; every other row is as committed before |
| Locks.GuardedUpdateHitsOneRow | api/internal/capabilities/workflow/postgres.go:214-226 | The guarded update of a claim hits exactly one row of what the claim sees, in every such run |
| Locks.InterleavedClaimsDiffer | api/internal/capabilities/workflow/postgres.go:189-229 | Claims in flight at the same time have rewritten and picked different rows |
| Locks.CancelWaitsExactly | api/internal/capabilities/workflow/postgres.go:319-325 | A cancel waits if and only if the row is pending or processing and an open claim has rewritten or picked it |
| Locks.PruneNeverWaits | api/internal/capabilities/workflow/postgres_operations.go:112-120 | Pruning skips the rows locked by open claims and never waits for them |
| Locks.LockedSelectIsLeast | api/internal/capabilities/workflow/postgres.go:200-205 | The locked select returns the least claimable committed row that no other claim has locked, with its fencing token, and nothing exactly when there is none |
| Locks.FirstRecoveryWaitsExactly | api/internal/capabilities/workflow/postgres.go:190-192 | The first recovery update waits if and only if another open claim of the queue has rewritten a marked row whose lease has run out for both |
| Locks.SecondRecoveryWaitsExactly | api/internal/capabilities/workflow/postgres.go:195-197 | The second recovery update waits if and only if another open claim of the queue has rewritten a row with no attempts left whose lease has run out for both |
| Locks.ClaimsCanWait | api/internal/capabilities/workflow/postgres.go:189-192 | There is a run in which a claim has to wait |
| Locks.CancelIsLostUnderLocks | api/internal/capabilities/workflow/postgres.go:190-197 | There is a run of claim transactions under row locks that commits a failed row whose cancellation was requested |
| LockRuns.OpenSince | api/internal/capabilities/workflow/postgres.go:189-229 | Since its first update an open claim has stayed open, with its rewritten rows committed as they were when it found them, whatever other sessions and claims have done |
| LockRuns.WaitsPointForward | api/internal/capabilities/workflow/postgres.go:190-197 | A claim that has only begun waits for no claim that has only begun before it |
| LockRuns.ClaimsNeverDeadlock | api/internal/capabilities/workflow/postgres.go:189-229 | In every reachable system with an open claim, some open claim can make its next move, which is not a rollback |
| LockRuns.OpenClaimsCommit | api/internal/capabilities/workflow/postgres.go:189-229 | From every reachable system all open claims can be brought to their commits by their own moves, without a rollback |
| LockRuns.CancelIsLostExactly | api/internal/capabilities/workflow/postgres.go:190-197 | A commit fails a cancel-requested row if and only if the row was marked when the claim's second update found it, and if and only if it was marked by a statement committed between the claim's two updates |
| LockRuns.LostExactlyWhenMarkedBetween | api/internal/capabilities/workflow/postgres.go:190-197 | For any claim past its second update, being marked when found and being marked between the updates are the same |
| LockRuns.LockedRunsHonorExactly | api/internal/capabilities/workflow/postgres.go:189-229 | All committed tables of a run honor their cancellations if and only if no commit of the run loses one in that way |
| Graphs.DependenciesRankLower | api/internal/starter/catalog.go:200-211 | Along every dependency the position in a dependency order drops, the measure by which the recursions end |
| Graphs.OrderedGraphsAreAcyclic | api/internal/starter/catalog.go:263-286 | A graph whose starters can be listed after their dependencies has no cycle |
| Graphs.ResolveIsLeastClosure | api/internal/starter/catalog.go:197-215 | The resolved list is the least superset closed under optional dependencies, duplicate-free, each starter after those it needs |
| Graphs.ResolveGrows | api/internal/starter/catalog.go:197-215 | Listing one more starter keeps the order so far and appends, if it is new, its missing optional dependencies in their listed order and then the starter |
| Graphs.ResolveIsIdempotent | api/internal/starter/catalog.go:197-215 | Resolving a resolved list returns it unchanged |
| Graphs.ClosedSelectionsGainNothing | api/internal/starter/catalog.go:106-115 | A selection gains no starter if and only if it is already closed |
| Graphs.ResolveIsDeterministic | api/internal/starter/catalog.go:172-173 | The activation order does not depend on the order in which the cycle check visited the starters |
| Starter.CanonicalIsThePattern | api/internal/starter/catalog.go:13 | A canonical name is a letter a to z followed by letters a to z, digits, underscores and hyphens |
| Starter.CheckName | api/internal/starter/catalog.go:86 | Trimming never matters: a name is accepted exactly when it has the canonical form |
| Starter.EnterNode | api/internal/starter/catalog.go:272 | Entering a white starter keeps the grey ones a dependency path and the black ones a dependency order, and the path cannot outgrow the graph |
| Starter.LeaveNode | api/internal/starter/catalog.go:278 | Finishing a starter whose dependencies are black keeps both |
| Starter.GreyMeansCycle | api/internal/starter/catalog.go:266-268 | Reaching a grey starter closes a cycle |
| Starter.Visitor.Visit | api/internal/starter/catalog.go:265-280 | Reports a cycle only when there is one, and otherwise finishes the starter after all it depends on |
| Starter.Visitor.VisitAll | api/internal/starter/catalog.go:281-286 | For every iteration order a cycle is reported if and only if the graph has one; on acceptance all starters are in dependency order |
| Starter.Catalog.CollectManifest | api/internal/starter/catalog.go:239-260 | A dependency list is accepted exactly when it is canonical, duplicate-free, known, not self-referring, and default for a default starter |
| Starter.Catalog.ValidateDependencies | api/internal/starter/catalog.go:229-287 | Bad lists, cycles and acceptance, each if and only if; acceptance leaves a catalog whose dependencies admit an order |
| Starter.MakesCatalogExactly | api/internal/starter/catalog.go:34-287 | The conditions under which all checks succeed, in terms of the two lists alone: canonical names, all different; dependencies new in their list, known, not the starter itself, and defaults for defaults; no circle |
| Starter.OffendsAtIs | api/internal/starter/catalog.go:43-68 | The error of a list is that of its first manifest that is missing, has no canonical name, or has a name used before |
| Starter.Catalog.Register | api/internal/starter/catalog.go:43-68 | Succeeds exactly when all manifests are canonical and their names are new and distinct; otherwise the error is that of the first offending one |
| Starter.Catalog.NewCatalog | api/internal/starter/catalog.go:34-75 | A catalog is built exactly for canonical distinct manifests with well-formed, acyclic dependencies, and holds exactly those; otherwise the error is that of the first offending manifest, list or cycle |
| Starter.NoErrorMeansDistinctOptional | api/internal/starter/catalog.go:83-105 | The checking loop passes exactly the lists of distinct optional starters |
| Starter.FirstErrorIs | api/internal/starter/catalog.go:179-195 | The first name that is not canonical, listed before, a default, or unknown decides the error, in this order of tests |
| Starter.Catalog.CheckNames | api/internal/starter/catalog.go:179-195 | The loop reports the error of the first offending name |
| Starter.Activation.AddWithDependencies | api/internal/starter/catalog.go:199-211 | The recursive closure ends and appends what the least-closure specification says |
| Starter.Catalog.ResolveOptional | api/internal/starter/catalog.go:174-216 | Accepts exactly the distinct optional names and returns their activation order; otherwise the first error |
| Starter.Catalog.MissingDependencyIn | api/internal/starter/catalog.go:106-115 | For every iteration order, reports a missing dependency exactly when the selection is not closed |
| Starter.Assembly.AppendWithDependencies | api/internal/starter/catalog.go:119-131 | The second recursion computes the same order, as manifests |
| Starter.Catalog.Select | api/internal/starter/catalog.go:78-137 | Accepts exactly the closed selections and returns all defaults followed by the manifests in activation order |
| Starter.Catalog.SelectFollowsResolve | api/internal/starter/catalog.go:172-216 | Whatever ResolveOptional returns is accepted by Select and activated in exactly that order |
| Pagination.GetPerPage | api/pkg/pagination/cursor.go:71-79 | The page size is between 1 and 100, and the requested one when that is in range |
| Pagination.CursorResumesExactlyAfter | api/pkg/pagination/cursor.go:197-212 | The cursor of one row selects exactly the rows after it if and only if its sort column is the creation time and the keyword is exactly desc when SQL sorts descending |
| Pagination.Sorted | api/pkg/pagination/cursor.go:217-219 | The rows in query order: a strictly sorted listing of exactly the selected rows |
| Pagination.PageIsSorted | api/pkg/pagination/cursor.go:217-219 | A page is sorted by the column and then the id, both in the direction of the query |
| Pagination.PageHolds | api/pkg/pagination/cursor.go:197-228 | A page holds only rows past the cursor in the direction of the keyword, and leaves out none of them but after a full page, beyond its last row |
| Pagination.PageContinues | api/pkg/pagination/cursor.go:223-236 | More rows are announced exactly when some are left out; the next cursor is the creation time and id of the last row of the page |
| Pagination.CursorPaginate | api/pkg/pagination/cursor.go:183-239 | Returns the first rows past the cursor, and a next cursor exactly when more rows remain; garbled cursors, and keywords that the database rejects, are errors |
| Pagination.OneMoreRowDecides | api/pkg/pagination/cursor.go:219-227 | Fetching one row more than the page holds is enough to tell whether there is a next page |
| Pagination.WalkIsStrictlySorted | api/pkg/pagination/cursor.go:183-267 | A walk over a table that changes between pages returns rows in strict (field, id) order |
| Pagination.WalkIsComplete | api/pkg/pagination/cursor.go:183-267 | A finished walk among rows whose cursors resume misses no row that was present throughout |
| Pagination.WalksMissNothingExactly | api/pkg/pagination/cursor.go:183-267 | For every set of rows: finished walks over changing tables of these rows miss no row present throughout if and only if the cursor of each row lets through every other row that follows it |
| Pagination.CreationWalksMissNothingExactly | api/pkg/pagination/cursor.go:197-218 | Sorted by creation time, finished walks miss nothing if and only if the keyword is desc exactly when SQL sorts descending |
| Pagination.UpperCaseKeywordLosesRows | api/pkg/pagination/cursor.go:197-218 | With the keyword DESC a finished walk over two unchanged rows returns one of them |
| Pagination.OtherColumnLosesRows | api/pkg/pagination/cursor.go:244-267 | So does one sorted by a column other than the creation time |
| Pagination.StableRowsExactlyOnce | api/pkg/pagination/cursor.go:183-267 | Every row present throughout a finished walk is returned exactly once |
| Pagination.NoIdTwice | api/pkg/pagination/cursor.go:183-267 | When rows keep their creation time, no id is returned twice, whatever is inserted and deleted during the walk |
| Pagination.WalksRepeatNothingExactly | api/pkg/pagination/cursor.go:183-267 | For every set of rows: finished walks over changing tables of these rows return no id twice if and only if the cursor of each row that others follow lets none but later rows through; and if and only if they are all in strict order |
| Pagination.WalksReturnOnceExactly | api/pkg/pagination/cursor.go:183-267 | Finished walks return each row present throughout exactly once if and only if cursors let all later rows through and, where others follow, none but later ones |
| Pagination.CreationWalksRepeatNothingExactly | api/pkg/pagination/cursor.go:197-218 | Sorted by creation time, no finished walk repeats an id if and only if the keyword is desc exactly when SQL sorts descending |
| Pagination.UpperCaseKeywordRepeatsRows | api/pkg/pagination/cursor.go:197-218 | With the keyword DESC a finished walk over three unchanged rows returns the newest of them twice |
| Pagination.OtherColumnNeedNotEnd | api/pkg/pagination/cursor.go:244-267 | Sorted by another column, a walk over two unchanged rows can go on for ever, on the first page again and again |
| Pagination.StaticWalkEnds | api/pkg/pagination/cursor.go:223-235 | On an unchanged table every page makes progress, so the walk ends |
| Pagination.StaticWalkIsTheSortedTable | api/pkg/pagination/cursor.go:183-239 | On an unchanged table the concatenated pages are the sorted table, for any page sizes |
| Snowflake.OrOfShifted | api/internal/capabilities/idgen/idgen.go:144-146 | Or-ing a number into the zero bits below a shifted one, in two's complement, adds it |
| Snowflake.PackIsTheSum | api/internal/capabilities/idgen/idgen.go:108-110 | For every clock reading the shifts and ors on int64 words give the positional sum of the fields, wrapped to 64 bits; in the clock's range nothing wraps |
| Snowflake.MaskWraps | api/internal/capabilities/idgen/idgen.go:95 | Masking the incremented sequence wraps it to zero after 4095 |
| Snowflake.PackDecodes | api/internal/capabilities/idgen/idgen.go:108-110 | The id is a non-negative int64 from which time, node and sequence read back |
| Snowflake.NodesNeverCollide | api/internal/capabilities/idgen/idgen.go:108-110 | Ids of different nodes never collide |
| Snowflake.PackGrows | api/internal/capabilities/idgen/idgen.go:144-146 | On one node ids are ordered by (time, sequence) |
| Snowflake.IncreasingExactlyWhenSteady | api/internal/capabilities/idgen/idgen.go:88-147 | The ids a generator has issued, across any number of sequence wrap-arounds, are strictly increasing if and only if no reading it used stepped back |
| Snowflake.SteppingBackRepeatsIds | api/internal/capabilities/idgen/idgen.go:125-147 | A new generator of any node, called three times on a clock that steps back one millisecond and catches up, returns the first id again |
| Snowflake.Clock.WaitPast | api/internal/capabilities/idgen/idgen.go:98-100 | The waiting loop ends with the first reading past the last time, and does not end exactly when the clock never shows one |
| Snowflake.IssueExtendsChain | api/internal/capabilities/idgen/idgen.go:94-110 | Each call extends the chain of (time, sequence) pairs, and on a steady clock keeps it steady and in range |
| Snowflake.GrowsExactlyFromLast | api/internal/capabilities/idgen/idgen.go:94-110 | A call on a generator that has issued ids keeps them in order if and only if the reading it starts with is at or past the last time |
| Snowflake.SnowflakeGenerator.NewSnowflakeGenerator | api/internal/capabilities/idgen/idgen.go:77-85 | There is a generator exactly for the nodes 0 to 1023 |
| Snowflake.SnowflakeGenerator.NextTime | api/internal/capabilities/idgen/idgen.go:129-140 | For any clock: which reading a call ends with, what the sequence becomes, and exactly when the call does not end |
| Snowflake.SnowflakeGenerator.GenerateInt64 | api/internal/capabilities/idgen/idgen.go:125-147 | For any clock the next time and sequence are given by the readings, and the id is (time - 1577836800000) * 2^22 + node * 2^12 + sequence, wrapped to 64 bits; growing ids go on growing if and only if the call's first reading is not before the last time |
| Snowflake.SnowflakeGenerator.Generate | api/internal/capabilities/idgen/idgen.go:88-113 | The same, as decimal text, in any mix of the two calls |
| Snowflake.SnowflakeGenerator.GenerateN | api/internal/capabilities/idgen/idgen.go:116-122 | n ids in increasing order, as decimal texts |
| Snowflake.DecimalIs | api/internal/capabilities/idgen/idgen.go:112 | The decimal text of a number, digit by digit, with the sign of a negative one |
| Snowflake.DecimalReadsBack | api/internal/capabilities/idgen/idgen.go:112 | The decimal text determines the id, so distinct ids have distinct texts |
| LogRing.ReadingIsFilteredTail | api/pkg/logger/memory.go:76-111 | A reading is the entries the ring still holds, newest first, filtered, cut to the requested size |
| LogRing.ReadingByPositions | api/pkg/logger/memory.go:76-111 | A reading is the entries at falling positions among the newest ones that carry a time and an identifier asked for, as many as requested (20 by default); one is left out only if as many newer ones were found |
| LogRing.BackwardSlot | api/pkg/logger/memory.go:97-100 | Walking i slots back around the end of the ring arrives at the entry i before the newest |
| LogRing.SlotsDiffer | api/pkg/logger/memory.go:47-48 | The newest limit entries are in different slots |
| LogRing.MemoryHandler.Handle | api/pkg/logger/memory.go:39-53 | After any number of calls the ring holds exactly the newest limit entries, across every wrap |
| LogRing.MemoryHandler.RecentFiltered | api/pkg/logger/memory.go:76-111 | The backward loop equals the plain reading of the whole history |
| LogRing.MemoryHandler.Recent | api/pkg/logger/memory.go:60-62 | Equals the plain reading without a filter |
| LogRing.MemoryHandler.RecentByRequest | api/pkg/logger/memory.go:65-74 | Equals the plain reading filtered by trimmed, non-empty identifiers |
| SlogFields.ChainsFlatten | api/pkg/logger/slog.go:28-69 | A record logged through any chain of WithAttrs and WithGroup carries the fields of one nested record on the base handler |
| SlogFields.ChainLogsLeaves | api/pkg/logger/slog.go:28-100 | Under the dotted path of groups and key of each leaf stands the text of the last leaf with that path; every other key is as the first handler carried it |
| SlogFields.LeafIsLoggedUnderItsPath | api/pkg/logger/slog.go:84-100 | One attribute is logged under the open groups and its key, and one without a key not at all |
| SlogFields.AddedAllAppend | api/pkg/logger/slog.go:49-51 | Adding two lists of attributes in turn is adding their concatenation |
| SlogFields.PrefixGrows | api/pkg/logger/slog.go:55-60 | Opening one more group extends the key prefix by that group |
| SlogFields.FieldMap.AddAttr | api/pkg/logger/slog.go:84-100 | The recursive writer into the map computes the flattening of the attribute tree |
| SlogFields.SlogHandler.Handle | api/pkg/logger/slog.go:28-40 | Logs the flattened fields at the mapped level and leaves the handler unchanged |
| SlogFields.SlogHandler.WithAttrs | api/pkg/logger/slog.go:42-53 | Derives a handler with its own map; the parent is unchanged |
| SlogFields.SlogHandler.WithGroup | api/pkg/logger/slog.go:62-69 | Derives a handler with one more group, or the same one for an empty name; the parent is unchanged |
| EnvFiles.LayersByPriority | api/pkg/env/env.go:101-150 | After a load each ordinary key has the value of the first defining source: the process, the explicit file, .env.E.local, .env.local, .env.E, .env |
| EnvFiles.LoadedLayers | api/pkg/env/env.go:74-122 | A successful load has read exactly these files, and selected E from process, explicit file and .env in that order |
| EnvFiles.LoadFailsExactly | api/pkg/env/env.go:74-148 | A load fails on the first of its files that cannot be read, in the order of reading, or else exactly when some value cannot be set |
| EnvFiles.SetFailsExactly | api/pkg/env/env.go:138-148 | Setting fails if and only if some value to be set has an empty name, a name with '=' or NUL, or holds NUL itself |
| EnvFiles.AppliedValue | api/pkg/env/env.go:101-150 | The value a load sets for each variable: the selection for APP_ENV, none for GO_ENV and GIN_MODE, and else that of the first file that defines it |
| EnvFiles.IgnoredOrFailedSetsNothing | api/pkg/env/env.go:63-73 | With FASTBUILD_IGNORE_ENV_FILES=true, and on every error, nothing is set and the environment is selected by the process |
| EnvFiles.FirstNonEmptyIsFirst | api/pkg/env/env.go:174-181 | The environment is selected by the first candidate that is not blank, trimmed, and stays empty exactly when all are blank |
| EnvFiles.IdentityIsPinned | api/pkg/env/env.go:127-136 | APP_ENV is the process value or else the selection; GO_ENV and GIN_MODE never come from files |
| EnvFiles.ProcessValuesWin | api/pkg/env/env.go:138-150 | A load changes no variable the process defines, and on failure none at all |
| EnvFiles.RemovalUndoesLoad | api/pkg/env/env.go:183-191 | Removing what a load set restores the process exactly |
| EnvFiles.OnlyUnchangedFileValuesGo | api/pkg/env/env.go:183-191 | A reload drops exactly the variables that a load set and that still have that value |
| EnvFiles.ReloadIsStable | api/pkg/env/env.go:53-61 | Reloading unchanged files leaves environment and state unchanged |
| EnvFiles.Loader.LoadOnce | api/pkg/env/env.go:38-48 | Loads once; later calls return the first result and touch nothing |
| EnvFiles.Loader.LoadFresh | api/pkg/env/env.go:53-61 | Equals a load into the process without the values that earlier loads set and nobody changed |
| EnvFiles.Loader.LoadEnvFiles | api/pkg/env/env.go:63-155 | Reading file by file and overlaying in turn leaves the process, loaded values, selection and error of the layered specification, on every error path |
| EnvFiles.Loader.PinIdentity | api/pkg/env/env.go:127-136 | Deleting and setting the identity keys gives the pinned values |
| EnvFiles.Loader.MergeEnv | api/pkg/env/env.go:168-172 | For every iteration order the result is the map union with the source on top |
| EnvFiles.Loader.Apply | api/pkg/env/env.go:138-151 | For every iteration order all missing values are set, or none when one cannot be set |
| EnvFiles.Loader.RemoveLoadedFileValues | api/pkg/env/env.go:183-191 | For every iteration order exactly the unchanged loaded values are unset |
| SensitiveKeys.DispatchIsPlainSuffixTest | api/pkg/redact/redact.go:51-86 | Dispatching on the last character equals the plain test against all suffixes |
| SensitiveKeys.QualifierIsDispatched | api/pkg/redact/redact.go:88-104 | The dispatch strips whichever qualifier the key ends in |
| SensitiveKeys.SensitiveMeansPlainly | api/pkg/redact/redact.go:34-49 | A key is sensitive if and only if it is listed, ends in a credential word, or does so before one qualifier |
| SensitiveKeys.CredentialWordsAre | api/pkg/redact/redact.go:20-104 | The credential words, listed names and qualifiers themselves |
| SensitiveKeys.QuerySensitiveMeansPlainly | api/pkg/redact/redact.go:286-292 | Query parameters have three names more: code, key and sig |
| SensitiveKeys.SuffixIs | api/pkg/redact/redact.go:88-104 | A suffix is what a key ends in, and trimming removes just that |
| SensitiveKeys.CanonicalGrows | api/pkg/redact/redact.go:294-302 | The canonical form is the sequence of the lower-case forms that are letters or digits |
| Redaction.StandardPolicyIsConsistent | api/pkg/redact/redact.go:286-292 | Every sensitive field name is a sensitive query parameter |
| Redaction.KeptInPlace | api/pkg/redact/redact.go:203-284 | Away from sensitive fields and less than eight levels down, every text, number, text list, nil and opaque value is found unchanged at its place in the copy, without the pointers |
| Redaction.ReplacedInPlace | api/pkg/redact/redact.go:191-201 | A sensitive field less than eight levels down holds the placeholder, whatever it held |
| Redaction.CutOffInPlace | api/pkg/redact/redact.go:204-206 | Eight levels down everything is replaced by the placeholder |
| Redaction.ParametersInPlace | api/pkg/redact/redact.go:209-212 | Headers and query values inside a value become maps of first values and placeholders |
| Redaction.RedactionIsIdempotent | api/pkg/redact/redact.go:203-284 | Redacting a redacted value, at the same depth or nearer the root, changes nothing |
| Redaction.RedactedIsClean | api/pkg/redact/redact.go:203-284 | No sensitive key at any depth keeps a value other than the placeholder if and only if the opaque values passed through are themselves clean |
| Redaction.SupportedValuesComeOutClean | api/pkg/redact/redact.go:106-117 | Maps, slices and pointers of any shape come out with every sensitive key redacted |
| Redaction.OpaqueValuesLeak | api/pkg/redact/redact.go:242-284 | A password in a field of an opaque value comes through as it is |
| Redaction.Map | api/pkg/redact/redact.go:107-112 | An empty map gives nil, any other its redaction |
| Redaction.MapValue | api/pkg/redact/redact.go:191-201 | For every iteration order the copied map is the redacted one |
| Redaction.RedactValue | api/pkg/redact/redact.go:203-284 | The case analysis and its recursion, ended by the depth bound, compute the redaction |
| Redaction.RedactList | api/pkg/redact/redact.go:235-240 | Every item is redacted one level deeper, in order |
| Redaction.Headers | api/pkg/redact/redact.go:120-135 | Sensitive headers are replaced, others keep their first value, and those without a value are dropped |
| Redaction.Query | api/pkg/redact/redact.go:138-153 | The same for query parameters, under the wider key test |
| Redaction.RedactTextLists | api/pkg/redact/redact.go:225-234 | A sensitive string list becomes a one-element placeholder list |
| Base64Url.AlphabetIs | web/src/lib/session-signing.ts:51-57 | The alphabet of table 1 of RFC 4648 |
| Base64Url.GroupIsPositional | web/src/lib/session-signing.ts:51-57 | Three bytes are written as the four base-64 digits of their 24-bit number |
| Base64Url.EncodingByGroups | web/src/lib/session-signing.ts:51-57 | Bytes are encoded group by group; a last partial group is filled with zero bits and cut |
| Base64Url.DecodingByGroups | web/src/lib/session-signing.ts:59-67 | Digits are decoded group by group, whatever bits a partial group leaves over |
| Base64Url.BtoaIsPadded | web/src/lib/session-signing.ts:56 | btoa fills the text up to whole groups of four with '=' |
| Base64Url.WithoutWhitespaceIs | web/src/lib/session-signing.ts:62 | atob skips tab, line feed, form feed, carriage return and space, and no other character |
| Base64Url.AtobReads | web/src/lib/session-signing.ts:62 | atob reads exactly unpadded or fully padded characters of the alphabet, up to white space |
| Base64Url.RawRoundTrip | web/src/lib/session-signing.ts:51-57 | Every byte string reads back from its unpadded base64 text |
| Base64Url.UrlEncodeIsUnpadded | web/src/lib/session-signing.ts:51-57 | Encoding gives the unpadded text in the url-safe alphabet, empty only for no bytes |
| Base64Url.AtobReadsPadded | web/src/lib/session-signing.ts:59-63 | Restoring the padding lets atob read the unpadded text |
| Base64Url.Base64UrlRoundTrip | web/src/lib/session-signing.ts:51-67 | Every byte string survives padding removal and restoration (section 5 of RFC 4648) |
| Session.Base64UrlEncode | web/src/lib/session-signing.ts:51-57 | The loop over a growing binary string computes the codec |
| Session.Base64UrlDecode | web/src/lib/session-signing.ts:59-67 | The loop over a byte view computes the inverse codec, with its failures |
| Session.RepairKeepsExactlyWellFormed | web/src/lib/session-signing.ts:75 | An encoder keeps a text if and only if all its surrogates are paired |
| Session.RepairedIs | web/src/lib/session-signing.ts:75 | An encoder replaces exactly the unpaired surrogates, each by U+FFFD |
| Session.WithoutMarkIs | web/src/lib/session-signing.ts:116 | A decoder swallows exactly one leading U+FEFF |
| Session.SplitIsUnique | web/src/lib/session-signing.ts:92-97 | The split at the last dot finds exactly the two halves that were joined |
| Session.Signer.GetSecret | web/src/lib/session-signing.ts:25-40 | The configured secret if it is not empty; otherwise none in production and the development secret elsewhere, with one warning ever |
| Session.Signer.SignSession | web/src/lib/session-signing.ts:73-83 | Without a secret nothing is signed; otherwise the encoded payload and its signature under that secret, joined by a dot |
| Session.Signer.VerifySession | web/src/lib/session-signing.ts:90-117 | Without a secret nothing is accepted; otherwise exactly the texts whose halves around the last dot decode to bytes and to their signature under that secret |
| Session.AcceptedExactlyWhenSigned | web/src/lib/session-signing.ts:90-117 | A text is accepted if and only if its halves decode to a payload and that payload's signature, and then gives that payload |
| Session.SignedCarries | web/src/lib/session-signing.ts:82 | A signed text carries its payload and no other, and nothing at all for the empty payload |
| Session.PayloadComesBackRepaired | web/src/lib/session-signing.ts:69-117 | Of a signed payload its repaired form without a leading byte order mark comes back, and nothing for the empty one |
| Session.SessionRoundTrip | web/src/lib/session-signing.ts:69-117 | Verifying a signed payload gives it back if and only if it is not empty, has no leading byte order mark and no unpaired surrogate |
| Session.SoundPlatformsExist | web/src/lib/session-signing.ts:69-117 | The laws assumed of the platform can be met |

## Left out

- Runs.StepKeepsInv: that each lease token is drawn once is what a fresh random UUID is trusted for; it enters as the legality of a claim's update.
- Driver.PostgresDriver.Claim: the token and the set of rows locked by other transactions are parameters, and the whole transaction is one step; Locks takes its moves apart.
- Driver.PostgresDriver.NewRow: the contract is about the row as built; the payload column is jsonb, which reorders object keys, so a payload read back need not have the stored fingerprint.
- Driver.PostgresDriver.PushTask: the JSON encoding and SHA-256 are abstract; equal fingerprints are taken to be what the hash compares, and no collision-freedom is used.
- Lifetimes.CancellationWins: each second recovery update must follow a first one with the same queue and clock reading that met all its rows, as Claim issues them; for transactions, which log the rows they found, LockRuns.LockedRunsHonorExactly says the same.
- Budgets.WorkersStrandNoRow: assumes that the hooks around a job do not change the payload's max_retries.
- Locks.LockedRunsAreLegal: a statement finds and locks all its rows in one step, and one that has waited runs on the table it finds afterwards; PostgreSQL locks row by row, so two updates may also deadlock, which ends in a rollback (Abort) and which LockRuns.ClaimsNeverDeadlock does not rule out.
- Locks.GuardedUpdateHitsOneRow: the guarded update and the commit are one move, with no failure between them.
- Pagination.StableRowsExactlyOnce: rows must be sorted by creation time under a keyword both readers understand alike; when that can be weakened is WalksReturnOnceExactly.
- Pagination.CursorPaginate: the base64 and JSON form of a cursor, keywords that carry further sort expressions, null columns, items without GetID or GetCreatedAt, and previous cursors are not modelled; how the database reads a keyword is a parameter.
- Snowflake.SnowflakeGenerator.GenerateInt64: the clock is a finite list of readings, so a call that would wait for ever is one that outlasts the list.
- Snowflake.SnowflakeGenerator.Generate: the source repeats the body of GenerateInt64 where the model calls it.
- SlogFields.FieldMap.AddAttr: resolving and rendering of attribute values is left out; a leaf carries its rendered text.
- EnvFiles.Loader.LoadEnvFiles: parsing of the files is left out; a file is missing, unreadable, or a map of values.
- LogRing.MemoryHandler.Handle: the copying of an entry's context map, and the lock, are left out.
- Redaction.RedactValue: the difference between nil and empty maps and slices inside a value is left out; Go's Unicode tables are a parameter.
- Starter.Catalog.Select: error texts, the nil receiver and the sorted list of available names are left out.
- Session.SessionRoundTrip: HMAC-SHA256 and the platform's UTF-8 encoder and decoder are parameters with the laws in Session.Sound; timing is left out.
- Session.Base64UrlEncode: the signed text is a sequence of Unicode characters rather than UTF-16 units; no text outside the base64 alphabet is accepted either way.
- Task ids are numbers, ordered as PostgreSQL orders uuids; malformed ids, database errors, lost connections and overflow of the 64-bit fencing token are left out.
- Pop, Size, Stats, ListTasks, Push and PushDelayed, Bootstrap and scheduling: reporting and delegation without a hard property.
- Catalog.OptionalNames and Entries, redact.URL and URLWithPath, the typed getters of the env package, UUID, short and nano ids.
- The rest of the repository: HTTP kernel and handlers, the admin and web applications beyond session signing, and the business modules.
