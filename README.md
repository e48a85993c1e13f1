# DbEventingRepo, modelled in Dafny

Resonance is a publish/subscribe eventing store kept in a relational database. Its abstract
repository `DbEventingRepo` (Resonance.Core/Repo/Database/DbEventingRepo.cs) has two
jobs. First, it coordinates nested transactions over one physical database transaction,
using a counter and a state flag. Second, it implements the lifecycle of a subscription
event:

- it is inserted for a subscription;
- it is selected by a consumer;
- it is leased with a compare-and-swap on its `DeliveryKey`;
- it ends as consumed or failed.

Consuming an event moves the row to the consumed ledger and records the last consumed
publication date of its functional key. Some steps are left to each database back end:
the clause that limits the result set, and whether a storage error is worth a retry.

The model has three layers.

- **Functions on values.**
  - `Transactions` is the coordinator over a session. The session holds the data, the
    running physical transaction (with the data it would restore), `_tranCount`,
    `_tranState`, and a ghost log of physical actions.
  - `EventTable`, `Selection` and `Completion` give the effect on the tables of each
    statement and each operation.
  - `Dialect` holds the overridable hooks.
  - The lemmas about these functions state the guarantees: the coordinator invariant,
    nested atomicity, lease exclusivity, what the selection query returns, the functional
    ordering an ordered subscription gets, atomic and terminal completion, and retries.
- **The object.** `Repository.DbEventingRepo` is a class. Its fields are the tables, the
  running transaction, the count and the state, and its methods update them in place.
  Each method's postcondition ties its new state and its result to the functions above,
  so the lemmas hold of the object. `MarkConsumed` keeps the source's retry loop as a
  `while` loop with invariants.
- **An end-to-end case.** `Scenario` works through an ordered subscription with three
  pending events of one functional key. The first poll offers only the oldest event. After
  that event is leased and consumed, the next poll offers the second event, and the third
  stays held back.

The environment is passed in as parameters:

- the current instant (`now`, one value per call);
- the new Guid (`newGuid`);
- the consumer's lease expiry;
- storage errors (`DbException`), as a `StorageFault` per attempt, or as a `fault`
  argument for single statements;
- the back end's `CanRetry`, as a function argument;
- the row count that the abstract `UpdateLastConsumedSubscriptionEvent` reports
  (`upsertRows`).

A fault script lists the attempts' faults; every attempt after its end runs without a
fault. This makes the retry loop terminate in the model.

The model follows the code where its behaviour is easy to misread:

- `RollbackTransaction` rolls the physical transaction back immediately, at any nesting
  depth (:115-121). The model does not wait for the outermost rollback. A rollback deep in
  a nested group therefore also undoes the outer members' writes.
- `TryLockConsumableEvent` does not check `MaxDeliveries` (:681-696). Only the selection
  query does (:715, :730). See `EventTable.LeaseIgnoresMaxDeliveries`.
- Functional ordering holds only among events of equal priority. The query sorts by
  priority first (:732). A newer event with a higher priority overtakes an older one of
  the same key. See `Selection.OrderedEarliestOfKeyWins`.
- The upsert's row count check (:806) rejects only 0 and counts above 2. A negative count
  is accepted. See `Completion.UpsertAcceptedCounts`.
- `Take(maxCount)` (:760) also caps the results of an ordered subscription, besides the
  SQL limit of `5 * maxCount`.
- `5 * maxCount` is unchecked 32-bit arithmetic (:700). A large `maxCount` wraps. A
  negative buffer size makes the query fail; a buffer size that wraps to a positive value
  just limits the query.
- A row whose `DeliveryKey` is NULL makes `MarkConsumed` and `MarkFailed` throw a null
  reference exception at :772 and :833. The model reports this as the error
  `NullDeliveryKey`.
- `se.InvisibleUntilUtc > now` is false when `InvisibleUntilUtc` is NULL (C# lifted
  comparison).
- `MaxDeliveries` comes from the joined `Subscription` row. `Ordered` and the id come
  from the caller's `Subscription` object.

## Model

| member | source | states |
|---|---|---|
| Transactions.Begin | Resonance.Core/Repo/Database/DbEventingRepo.cs:89-99 | opens the physical transaction only when none runs (failing, with nothing changed, if the connection refuses); always raises the count by one; keeps the data and the running transaction when nested; resets the state to `Unchanged` on the physical begin (corrected, see Findings) |
| Transactions.BeginAsWritten | Resonance.Core/Repo/Database/DbEventingRepo.cs:89-99 | the begin as written: `_tranState` keeps the previous group's value |
| Transactions.Rollback | Resonance.Core/Repo/Database/DbEventingRepo.cs:105-130 | fails, changing nothing, with no running transaction; otherwise lowers the count by one and sets the state to rolled back; the first rollback of a group restores the data at once and logs the physical rollback, later ones change no data; disposes and clears the transaction exactly when the count was 1 |
| Transactions.Commit | Resonance.Core/Repo/Database/DbEventingRepo.cs:136-160 | fails, changing nothing, with no running transaction or after a rollback of the group; otherwise lowers the count and marks the state committed, keeping the data; commits physically and disposes only at the outermost level; a failing physical commit changes nothing (corrected, see Findings) |
| Transactions.CommitAsWritten | Resonance.Core/Repo/Database/DbEventingRepo.cs:136-160 | the commit as written: the count is lowered before the physical commit can throw |
| Transactions.IdleInv | Resonance.Core/Repo/Database/DbEventingRepo.cs:44-47 | a freshly constructed repository satisfies the coordinator invariant: count 0 exactly when no transaction runs, the physical log made of whole groups plus at most one open one, and an open group rolled back physically exactly when the state says so |
| Transactions.BeginKeepsInv | Resonance.Core/Repo/Database/DbEventingRepo.cs:89-99 | `Begin` preserves the coordinator invariant |
| Transactions.RollbackKeepsInv | Resonance.Core/Repo/Database/DbEventingRepo.cs:105-130 | `Rollback` preserves the coordinator invariant |
| Transactions.CommitKeepsInv | Resonance.Core/Repo/Database/DbEventingRepo.cs:136-160 | `Commit` preserves the coordinator invariant |
| Transactions.AtMostOneEndPerGroup | Resonance.Core/Repo/Database/DbEventingRepo.cs:115-128 | between any two physical commits or rollbacks a new physical transaction was begun: each group ends physically at most once |
| Transactions.DoomedGroupCannotCommit | Resonance.Core/Repo/Database/DbEventingRepo.cs:146-147 | once a running group has been rolled back physically, `Commit` fails with "already rolled back" and changes nothing |
| Transactions.BeginRollbackRestores | Resonance.Core/Repo/Database/DbEventingRepo.cs:89-130 | `Begin` then `Rollback` succeeds and restores the count, from an idle coordinator in any state and at any depth of a group not yet rolled back; it restores the data the physical transaction started from and, from idle, leaves the coordinator idle |
| Transactions.NestedMemberInLiveGroup | Resonance.Core/Repo/Database/DbEventingRepo.cs:89-160 | a member begun inside a live group commits without any physical action, only marking the group committed; its rollback restores the caller's snapshot, marks the group rolled back and logs one physical rollback; either way the count and running transaction are the caller's again |
| Transactions.NestedMemberInDoomedGroup | Resonance.Core/Repo/Database/DbEventingRepo.cs:89-160 | a member begun inside a group already rolled back cannot commit ("already rolled back", nothing changed); its rollback changes only the count, keeps its writes, and keeps the invariant |
| Transactions.LiveMemberCommitKeepsInv | Resonance.Core/Repo/Database/DbEventingRepo.cs:136-160 | the end of a nested commit in a live group satisfies the coordinator invariant |
| Transactions.LiveMemberRollbackKeepsInv | Resonance.Core/Repo/Database/DbEventingRepo.cs:105-130 | the end of a nested rollback in a live group satisfies the coordinator invariant |
| Transactions.OuterRollbackUndoesInnerCommit | Resonance.Core/Repo/Database/DbEventingRepo.cs:89-160 | nested atomicity: whatever a committed inner member wrote is undone by the outer rollback, which leaves the coordinator idle |
| Transactions.FreshGroupCommits | Resonance.Core/Repo/Database/DbEventingRepo.cs:89-160 | from an idle coordinator, `Begin` then `Commit` succeeds and logs one physical begin, commit and dispose |
| Transactions.FailedCommitRollsBackCleanly | Resonance.Core/Repo/Database/DbEventingRepo.cs:136-160 | when the physical commit fails, the caller's rollback succeeds, restores the data and leaves the coordinator idle and consistent |
| Transactions.StaleStateDoomsNextGroup | Resonance.Core/Repo/Database/DbEventingRepo.cs:89-99 | as written, after a group is rolled back, the next group, begun and committed without any rollback, fails with "already rolled back" |
| Transactions.FailedCommitUnbalancesCount | Resonance.Core/Repo/Database/DbEventingRepo.cs:149-157 | as written, a physical commit that throws leaves count 0 with a running transaction; the caller's rollback takes the count to -1 and breaks the invariant |
| Common.Lower | Resonance.Core/Repo/Database/DbEventingRepo.cs:746 | lower-cases each ASCII letter and keeps every other character and the length |
| Common.NatStringRoundTrip | Resonance.Core/Repo/Database/DbEventingRepo.cs:197 | reading back the decimal digits written for a natural number gives that number |
| Common.DecimalStringRoundTrip | Resonance.Core/Repo/Database/DbEventingRepo.cs:197 | the decimal text written for any integer, with its minus sign, reads back as that integer |
| Dialect.DefaultResultsetLimit | Resonance.Core/Repo/Database/DbEventingRepo.cs:195-198 | the default clause is "TOP " followed by the limit in decimal, placed in the selector |
| Dialect.PlaceLimit | Resonance.Core/Repo/Database/DbEventingRepo.cs:702-704 | the clause goes either right after SELECT or at the end of the query, never both, and never lost |
| Dialect.BufferSize | Resonance.Core/Repo/Database/DbEventingRepo.cs:700 | the buffer is `maxCount` for unordered subscriptions, and five times `maxCount` under 32-bit wrap-around for ordered ones |
| Dialect.BufferSizeWraps | Resonance.Core/Repo/Database/DbEventingRepo.cs:700 | five times 500,000,000 wraps to a negative buffer size |
| Dialect.DefaultCanRetry | Resonance.Core/Repo/Database/DbEventingRepo.cs:206-209 | the default hook never allows a retry |
| EventTable.InsertSubscriptionEvent | Resonance.Core/Repo/Database/DbEventingRepo.cs:605-628 | the row is stored under the caller's id, or a new Guid, which is returned; it is born unleased with delivery count 0 and the caller's other columns; an id already present is rejected and nothing changes; no other row or table changes |
| EventTable.LockEvent | Resonance.Core/Repo/Database/DbEventingRepo.cs:681-696 | succeeds exactly when the row exists and its DeliveryKey is still the identifier's (NULL matching NULL); then sets the new key, delivery date and invisibility, raises the delivery count by one, and touches nothing else; otherwise changes nothing |
| EventTable.LeaseExclusive | Resonance.Core/Repo/Database/DbEventingRepo.cs:683-685 | of two consumers leasing with the same identifier, at most one succeeds, and the row keeps the winner's key |
| EventTable.DeliveryCountMonotone | Resonance.Core/Repo/Database/DbEventingRepo.cs:684 | no delivery count decreases; the leased row's rises by exactly one |
| EventTable.LeaseIgnoresMaxDeliveries | Resonance.Core/Repo/Database/DbEventingRepo.cs:681-696 | a matching lease succeeds even when the row has reached its subscription's MaxDeliveries |
| EventTable.InsertedEventIsLeasable | Resonance.Core/Repo/Database/DbEventingRepo.cs:605-696 | a freshly inserted event can be leased by an identifier with a NULL key, and then has delivery count 1 |
| Selection.Candidates | Resonance.Core/Repo/Database/DbEventingRepo.cs:706-734 | the candidates are exactly the stored rows that satisfy every condition of the WHERE clause |
| Selection.Sorted | Resonance.Core/Repo/Database/DbEventingRepo.cs:716 | the ids come in "Priority DESC, PublicationDateUtc ASC" order, with each given id exactly once |
| Selection.Fetch | Resonance.Core/Repo/Database/DbEventingRepo.cs:706-741 | the query returns the first `limit` candidates in delivery order (all of them when fewer), each as its identifier |
| Selection.FetchEligible | Resonance.Core/Repo/Database/DbEventingRepo.cs:706-741 | the query returns at most `limit` identifiers, each of a stored row satisfying the WHERE clause |
| Selection.FetchOrdered | Resonance.Core/Repo/Database/DbEventingRepo.cs:716 | the query returns each row once, with no returned row sorting before an earlier one |
| Selection.FetchIsPrefix | Resonance.Core/Repo/Database/DbEventingRepo.cs:708-717 | the limit cuts the sorted candidates: no candidate that sorts before a returned row is left out, and a short result holds every candidate |
| Selection.FirstOfEachKey | Resonance.Core/Repo/Database/DbEventingRepo.cs:745-759 | the grouping keeps one identifier per lower-cased functional key (NULL keys forming one group), the first of its group, in the order the groups first appear |
| Selection.Take | Resonance.Core/Repo/Database/DbEventingRepo.cs:760 | nothing for a count of zero or less, else the first `n` elements |
| Selection.FindConsumableEventsForSubscription | Resonance.Core/Repo/Database/DbEventingRepo.cs:698-765 | fails, with the database's refusal of a negative limit, exactly when the buffer size is negative; otherwise returns at most `maxCount` identifiers (none for a negative `maxCount`) |
| Selection.FindReturnsEligible | Resonance.Core/Repo/Database/DbEventingRepo.cs:698-765 | fails exactly when the buffer size is negative; otherwise returns nothing for `maxCount` of zero or less, else at most `maxCount` identifiers; each is a row of the subscription that may be delivered, has not expired, is not leased, is below MaxDeliveries, and (when ordered) is newer than its key's last consumed event |
| Selection.UnorderedIsSortedPrefix | Resonance.Core/Repo/Database/DbEventingRepo.cs:706-718 | an unordered subscription gets at most `maxCount` distinct rows in delivery order, leaving out no candidate that sorts before a returned one; a short result holds every candidate |
| Selection.OrderedKeepsFirstOfEachKey | Resonance.Core/Repo/Database/DbEventingRepo.cs:743-762 | an ordered subscription gets min(`maxCount`, number of groups) identifiers (none for zero or less), each the first of its group in the buffer, with pairwise different keys, in buffer order |
| Selection.BufferKeepsOrder | Resonance.Core/Repo/Database/DbEventingRepo.cs:732-751 | a buffered row of a group in which another candidate sorts strictly before it is not the first of its group |
| Selection.OrderedEarliestOfKeyWins | Resonance.Core/Repo/Database/DbEventingRepo.cs:720-762 | of two candidates of one functional key, the one that sorts later is never returned to an ordered subscription |
| Selection.OrderedOffersSomeCandidate | Resonance.Core/Repo/Database/DbEventingRepo.cs:743-762 | while there is a candidate and the buffer is positive, an ordered subscription gets at least one identifier |
| Selection.OrderedSingleKeyReturnsEarliest | Resonance.Core/Repo/Database/DbEventingRepo.cs:720-762 | when all candidates share one key and one of them sorts strictly first, exactly that one is returned |
| Selection.OrderedDistinctKeys | Resonance.Core/Repo/Database/DbEventingRepo.cs:745-761 | the identifiers an ordered subscription gets have pairwise different lower-cased functional keys |
| Selection.LeaseHidesUntilItExpires | Resonance.Core/Repo/Database/DbEventingRepo.cs:681-741 | while its lease lasts a leased row is no candidate; afterwards it is one exactly when its row, with the raised delivery count, is otherwise selectable |
| Completion.CheckLease | Resonance.Core/Repo/Database/DbEventingRepo.cs:769-774 | "not found" exactly for a missing row; "null key" exactly for a row with a NULL DeliveryKey; "locked again" exactly when the key differs ignoring case and the row is still invisible; otherwise the row as read |
| Completion.LeaseHolderOrExpiredPasses | Resonance.Core/Repo/Database/DbEventingRepo.cs:772-773 | the holder of the lease, whatever the letter case of its key, passes the check; so does anyone once the lease has expired |
| Completion.UpsertAcceptedCounts | Resonance.Core/Repo/Database/DbEventingRepo.cs:806 | the upsert's row count is accepted exactly when it is 1, 2 or negative |
| Completion.CompleteBody | Resonance.Core/Repo/Database/DbEventingRepo.cs:784-811 | the body succeeds exactly when no statement fails, the delete finds the row still under the key that was read, and the upsert (when it applies) reports an accepted count; the error is the failing statement's, "expired while completing", or "upsert rejected"; on success the row is gone, one ledger row is appended, and the key's last consumed date is set exactly when the event has a functional key |
| Completion.Attempt | Resonance.Core/Repo/Database/DbEventingRepo.cs:781-824 | one pass of the loop body: only a storage fault is caught as retryable; a failing begin changes nothing |
| Completion.Abort | Resonance.Core/Repo/Database/DbEventingRepo.cs:813-823 | the rollback of a `catch` clause: with no running transaction the rollback's own error replaces what was caught; otherwise what was caught is reported, the count drops by one, the group is marked rolled back, and the tables are the snapshot unless the group was already rolled back |
| Completion.AttemptFromIdle | Resonance.Core/Repo/Database/DbEventingRepo.cs:781-824 | from an idle coordinator one pass ends idle and consistent; it completes exactly when the body succeeds and neither begin nor commit fails; it leaves the body's tables on completion and the starting tables otherwise; a completed pass logs begin, commit, dispose, and any other pass after a successful begin logs begin, rollback, dispose; a failing begin changes and logs nothing |
| Completion.NestedAttemptInLiveGroup | Resonance.Core/Repo/Database/DbEventingRepo.cs:781-824 | inside a caller's group not yet rolled back, one pass completes exactly when the body succeeds; then it ends with the body's tables and the group marked committed, with no physical action; a pass that fails ends with the caller's snapshot restored, the group marked rolled back, and one physical rollback logged; the count and running transaction are the caller's in both cases |
| Completion.NestedAttemptInDoomedGroup | Resonance.Core/Repo/Database/DbEventingRepo.cs:781-824 | inside a caller's group already rolled back, one pass never completes and a passing body is refused with "already rolled back"; it ends with the body's writes, the group still rolled back, nothing logged, the count and running transaction the caller's, and the invariant kept |
| Completion.AttemptKeepsInv | Resonance.Core/Repo/Database/DbEventingRepo.cs:781-824 | from any consistent coordinator, idle or nested, one pass keeps the coordinator invariant and ends with the count and running transaction it started from |
| Completion.ConsumeLoopStep | Resonance.Core/Repo/Database/DbEventingRepo.cs:813-825 | after a caught storage fault the loop reruns exactly when `CanRetry` allows it; otherwise it stops with the attempt's outcome |
| Completion.ConsumeLoop | Resonance.Core/Repo/Database/DbEventingRepo.cs:779-825 | the do-while loop from a given pass on makes at least that pass |
| Completion.ConsumeLoopBounded | Resonance.Core/Repo/Database/DbEventingRepo.cs:779-825 | the loop makes at most one pass more than the fault script has faults, so it ends |
| Completion.ConsumeLoopFromIdle | Resonance.Core/Repo/Database/DbEventingRepo.cs:776-825 | the retry loop is atomic: it ends idle and consistent, with one fault-free completion's tables on success and the starting tables on failure; every rerun followed a caught fault that `CanRetry` allowed |
| Completion.MarkConsumed | Resonance.Core/Repo/Database/DbEventingRepo.cs:767-826 | a failed lease check changes nothing and runs no transaction; otherwise the transaction runs at least once |
| Completion.MarkConsumedFromIdle | Resonance.Core/Repo/Database/DbEventingRepo.cs:767-826 | from an idle coordinator, a failure leaves every table as it was; a success passed the lease check, deleted the row, appended its consumed ledger row, and set the last consumed date exactly when the event has a functional key |
| Completion.ConsumeLoopKeepsInv | Resonance.Core/Repo/Database/DbEventingRepo.cs:779-825 | however many passes the retry loop makes, it keeps the coordinator invariant from any consistent state and ends with the count and running transaction it started from |
| Completion.MarkConsumedKeepsInv | Resonance.Core/Repo/Database/DbEventingRepo.cs:767-826 | `MarkConsumed` keeps the coordinator invariant from any consistent state, idle or nested, with the count and running transaction unchanged |
| Completion.FaultFreeMarkConsumed | Resonance.Core/Repo/Database/DbEventingRepo.cs:767-826 | without storage faults, consuming succeeds exactly when the lease check passes and, for a keyed event, the upsert count is accepted; "upsert rejected" happens exactly otherwise; at most one run |
| Completion.DefaultCanRetryRunsOnce | Resonance.Core/Repo/Database/DbEventingRepo.cs:206-209 | with the default `CanRetry` the transaction runs exactly once after a passed lease check, and never otherwise |
| Completion.RetryAfterCommitFaultSucceeds | Resonance.Core/Repo/Database/DbEventingRepo.cs:810-825 | a retryable failing commit is followed by a second, fresh physical group that commits |
| Completion.MarkFailed | Resonance.Core/Repo/Database/DbEventingRepo.cs:828-835 | a failed lease check changes nothing and reports its error |
| Completion.MarkFailedFromIdle | Resonance.Core/Repo/Database/DbEventingRepo.cs:828-863 | from an idle coordinator, success happens exactly when the lease check passes and no statement, begin or commit fails; then the row is deleted and a failed ledger row with the reason appended; a failure changes no table; the consumed ledger and last consumed dates never change |
| Completion.MarkFailedKeepsInv | Resonance.Core/Repo/Database/DbEventingRepo.cs:828-863 | `MarkFailed` keeps the coordinator invariant from any consistent state, idle or nested, with the count and running transaction unchanged |
| Completion.CompletedEventIsGone | Resonance.Core/Repo/Database/DbEventingRepo.cs:767-863 | consumed and failed are terminal: after either succeeds, every later `MarkConsumed` or `MarkFailed` of the event fails with "not found" and changes nothing |
| Repository.DbEventingRepo.constructor | Resonance.Core/Repo/Database/DbEventingRepo.cs:44-58 | a repository attached to a connection whose tables already hold `db`: the tables are `db`, no transaction runs, the count is 0, the state `Unchanged`, and the coordinator invariant holds |
| Repository.DbEventingRepo.BeginTransaction | Resonance.Core/Repo/Database/DbEventingRepo.cs:89-99 | updates the fields exactly as `Transactions.Begin` and keeps the coordinator invariant |
| Repository.DbEventingRepo.PhysicalRollback | Resonance.Core/Repo/Database/DbEventingRepo.cs:117 | the database puts back the tables the running transaction started from and the physical rollback is logged; the coordinator fields stay |
| Repository.DbEventingRepo.RollbackTransaction | Resonance.Core/Repo/Database/DbEventingRepo.cs:105-130 | updates the fields exactly as `Transactions.Rollback` and keeps the coordinator invariant |
| Repository.DbEventingRepo.CommitTransaction | Resonance.Core/Repo/Database/DbEventingRepo.cs:136-160 | updates the fields exactly as `Transactions.Commit` and keeps the coordinator invariant |
| Repository.DbEventingRepo.AddSubscriptionEvent | Resonance.Core/Repo/Database/DbEventingRepo.cs:605-628 | stores the row and returns its id exactly as `EventTable.InsertSubscriptionEvent`, leaving the coordinator fields alone |
| Repository.DbEventingRepo.TryLockConsumableEvent | Resonance.Core/Repo/Database/DbEventingRepo.cs:681-696 | leases exactly as `EventTable.LockEvent` and returns whether a row was hit |
| Repository.DbEventingRepo.DeleteSubscriptionEvent | Resonance.Core/Repo/Database/DbEventingRepo.cs:787-792 | deletes the row only under the given key and reports 1 or 0 rows; a storage fault changes nothing |
| Repository.DbEventingRepo.AddConsumedSubscriptionEvent | Resonance.Core/Repo/Database/DbEventingRepo.cs:640-655 | appends the consumed ledger row (its columns taken from the event, consumed at `now`) and reports 1 row |
| Repository.DbEventingRepo.AddFailedSubscriptionEvent | Resonance.Core/Repo/Database/DbEventingRepo.cs:659-676 | appends the failed ledger row with the reason and reports 1 row |
| Repository.DbEventingRepo.UpdateLastConsumedSubscriptionEvent | Resonance.Core/Repo/Database/DbEventingRepo.cs:657 | reports the back end's row count and records the key's last consumed publication date unless 0 rows were reported |
| Repository.DbEventingRepo.ExecuteCompletion | Resonance.Core/Repo/Database/DbEventingRepo.cs:784-811 | runs the statements of the body and ends with the tables and outcome of `Completion.CompleteBody` |
| Repository.DbEventingRepo.RollbackAndReport | Resonance.Core/Repo/Database/DbEventingRepo.cs:813-823 | rolls back through `RollbackTransaction` and ends exactly as `Completion.Abort` |
| Repository.DbEventingRepo.AttemptCompletion | Resonance.Core/Repo/Database/DbEventingRepo.cs:781-824 | one pass of begin, body, commit or rollback, ending exactly as `Completion.Attempt`; keeps the coordinator invariant |
| Repository.DbEventingRepo.ConsumeAttempt | Resonance.Core/Repo/Database/DbEventingRepo.cs:781-824 | one pass of the loop: the transaction, then whether to retry; the rest of `Completion.ConsumeLoop` from this pass equals the loop from the next pass on a retry, and otherwise ends here with its outcome |
| Repository.DbEventingRepo.MarkConsumed | Resonance.Core/Repo/Database/DbEventingRepo.cs:767-826 | the do-while retry loop ends in the state, with the outcome and the number of attempts, of `Completion.MarkConsumed`; keeps the coordinator invariant |
| Repository.DbEventingRepo.MarkFailed | Resonance.Core/Repo/Database/DbEventingRepo.cs:828-863 | ends in the state and with the outcome of `Completion.MarkFailed`; keeps the coordinator invariant |
| Scenario.FirstPollOffersOldest | Resonance.Core/Repo/Database/DbEventingRepo.cs:698-765 | of three pending events of one key, an ordered poll for 10 offers only the oldest |
| Scenario.LeaseThenConsume | Resonance.Core/Repo/Database/DbEventingRepo.cs:681-826 | the offered event can be leased and then consumed; this removes it and records its publication date as its key's last consumed date |
| Scenario.SecondPollOffersNext | Resonance.Core/Repo/Database/DbEventingRepo.cs:698-765 | after that, the next poll offers the second event, not the third |
| Scenario.OrderedDeliveryScenario | Resonance.Core/Repo/Database/DbEventingRepo.cs:681-826 | the whole sequence of poll, lease, consume and poll, end to end |
| Scenario.LeaseDoesNotHoldBackItsKey | Resonance.Core/Repo/Database/DbEventingRepo.cs:698-765 | while the oldest event of a key is leased by another consumer, an ordered poll offers the next event of the same key, which the oldest precedes |

## Left out

- SQL text, Dapper mapping and `TranExecute`/`TranQuery` are out: each statement is
  modelled by its effect on the tables.
- `lock (_tranLock)` and concurrency are out: each call is atomic in the model. Races
  between consumers appear only as interleaved whole calls, as in
  `EventTable.LeaseExclusive`.
- `DateTime.UtcNow` and `Guid.NewGuid()` are parameters. Each call reads the clock once,
  so `ConsumedDateUtc`, the delivery date and the lease check see one instant.
- Headers/JSON, the catalog operations (topics, subscriptions and their topic links),
  payload storage, `AddTopicEvent`, `GetSubscriptionEvent`'s column mapping, `Dispose`
  and the `IEventingRepo` interface are not part of this model.
- A physical rollback or dispose that throws is not modelled.
- Statements issued inside a group after it was rolled back physically are applied to the
  tables in the model. In the source they go to a transaction that is already completed.
- Common.Lower: folds ASCII letters only. `ToLowerInvariant` and `OrdinalIgnoreCase` fold all
  of Unicode, and SQL collations may compare keys case-insensitively. The model compares
  keys exactly in four places: the delete's delivery key, the lease compare-and-swap, the
  last-consumed join on the functional key (:724-725, `Selection.NewerThanLastConsumed`),
  and the functional key of the last-consumed upsert in `Completion.CompleteBody`. A
  case-insensitive collation would match keys differing only in case in all four.
- The `DeliveryCount + 1` update is unbounded in the model; its 32-bit overflow is not
  modelled.
- A NULL `Reason` passed to `MarkFailed` is not modelled.
- Completion.MarkConsumed: retries are bounded by a finite fault script. An endless run of
  retryable faults, which would loop for ever in the source, is not modelled.
- Repository.DbEventingRepo.UpdateLastConsumedSubscriptionEvent: the method is abstract in
  the source. It is modelled as an overwrite of the key's last consumed date, with the
  reported row count as a parameter.
- Selection.FindReturnsEligible: `FindConsumableEventsForSubscription` is modelled as a
  ghost function on the tables rather than a method of the class. It only reads, and its
  row order among exact ties on both sort columns is left unspecified, as in SQL.
- The ledger insert's 0-row check (:799, :853) cannot fail in the model. An insert reports
  one row or throws.
- Selection.OrderedEarliestOfKeyWins: ordering holds only among eligible events. An older
  pending event of the same key that the query does not return (leased and not yet
  visible, delayed, or at `MaxDeliveries`) does not hold the younger one back, as in the
  query (:726-730). See `Scenario.LeaseDoesNotHoldBackItsKey`.
- Completion.MarkConsumed and Completion.MarkFailed use the corrected coordinator (see
  Findings), not the one as written.

## Findings

| source | as written | input that shows it | evidently intended | confidence | as-written member | corrected member |
|---|---|---|---|---|---|---|
| Resonance.Core/Repo/Database/DbEventingRepo.cs:89-99 | `_tranState` is set only at :47, :120 and :149; it is never reset when a new physical transaction begins | `BeginTransaction(); RollbackTransaction(); BeginTransaction(); CommitTransaction();` makes the last commit throw "already rolled back". This also dooms every `MarkConsumed` retry after a rolled back attempt | a new physical transaction starts with state `Unchanged` | medium, not executed | Transactions.StaleStateDoomsNextGroup | Transactions.Begin |
| Resonance.Core/Repo/Database/DbEventingRepo.cs:149-157 | the count is decremented before the physical `Commit()`, so a commit that throws leaves count 0 with the transaction still referenced | `BeginTransaction(); CommitTransaction()` with a failing physical commit, then the caller's `RollbackTransaction()`, leaves the count at -1 and the transaction never disposed | a failing physical commit leaves the count and the transaction for the caller's rollback to close | medium, not executed | Transactions.FailedCommitUnbalancesCount | Transactions.Commit |
