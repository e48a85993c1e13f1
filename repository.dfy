/** `DbEventingRepo` as an object: the tables it reaches through its connection and the
    three coordinator fields, updated in place by its methods. Each method is proved to move
    the object exactly as the functions of `Transactions`, `EventTable` and `Completion`
    say, so the properties proved there hold of the object. */
module Repository {
  import opened Common
  import opened Schema
  import opened Transactions
  import EventTable
  import Completion

  class DbEventingRepo {
    var subscriptionEvents: map<string, SubscriptionEvent>
    var consumedEvents: seq<ConsumedEvent>
    var failedEvents: seq<FailedEvent>
    var lastConsumed: map<(string, string), int>
    var subscriptions: map<string, Subscription>
    /** `_runningTransaction`, with the tables it would restore. */
    var runningTransaction: Option<Tables>
    var tranCount: int
    var tranState: TranState
    ghost var physicalLog: seq<PhysicalAction>

    function Db(): Tables
      reads this
    {
      Tables(subscriptionEvents, consumedEvents, failedEvents, lastConsumed, subscriptions)
    }

    ghost function State(): RepoState
      reads this
    {
      Session(Db(), runningTransaction, tranCount, tranState, physicalLog)
    }

    ghost predicate Valid()
      reads this
    {
      Inv(State())
    }

    /** `DbEventingRepo(conn)` (:53-58): attaches to a connection whose tables already hold
        `db`; the coordinator starts idle with count 0 and state `Unchanged`. */
    constructor(db: Tables)
      ensures State() == Idle(db)
      ensures Valid()
    {
      subscriptionEvents := db.events;
      consumedEvents := db.consumed;
      failedEvents := db.failed;
      lastConsumed := db.lastConsumed;
      subscriptions := db.subscriptions;
      runningTransaction := None;
      tranCount := 0;
      tranState := Unchanged;
      physicalLog := [];
      new;
      IdleInv(Db());
    }

    // -------------------------------------------------------------------------------------
    // The coordinator

    /** `BeginTransaction` (:89-99), corrected (see Findings); `fault` says the connection refuses a new transaction. */
    method BeginTransaction(fault: bool) returns (outcome: Outcome<TranError>)
      modifies this
      ensures State() == Begin(old(State()), fault).next && outcome == Begin(old(State()), fault).outcome
      ensures old(Valid()) ==> Valid()
    {
      ghost var s := State();
      if Inv(s) {
        BeginKeepsInv(s, fault);
      }
      if runningTransaction.None? {
        if fault {
          return Fail(PhysicalFault);
        }
        runningTransaction := Some(Db());
        tranState := Unchanged;
        physicalLog := physicalLog + [PhysBegin];
      }
      tranCount := tranCount + 1;
      outcome := Pass;
    }

    /** `_runningTransaction.Rollback()` (:117): the database puts back the tables the running
        transaction started from. */
    method PhysicalRollback()
      requires runningTransaction.Some?
      modifies this
      ensures Db() == old(runningTransaction.value)
      ensures physicalLog == old(physicalLog) + [PhysRollback]
      ensures runningTransaction == old(runningTransaction) && tranCount == old(tranCount)
      ensures tranState == old(tranState)
    {
      var snapshot := runningTransaction.value;
      subscriptionEvents, consumedEvents, failedEvents, lastConsumed, subscriptions :=
        snapshot.events, snapshot.consumed, snapshot.failed, snapshot.lastConsumed, snapshot.subscriptions;
      physicalLog := physicalLog + [PhysRollback];
    }

    /** `RollbackTransaction` (:105-130). */
    method RollbackTransaction() returns (outcome: Outcome<TranError>)
      modifies this
      ensures State() == Rollback(old(State())).next && outcome == Rollback(old(State())).outcome
      ensures old(Valid()) ==> Valid()
    {
      ghost var s := State();
      if runningTransaction.None? {
        outcome := Fail(NoRunningTransaction);
      } else {
        if tranState != Rollbacked {
          PhysicalRollback();
          tranState := Rollbacked;
        }
        tranCount := tranCount - 1;
        if tranCount == 0 {
          physicalLog := physicalLog + [PhysDispose];
          runningTransaction := None;
        }
        outcome := Pass;
      }
      if Inv(s) {
        RollbackKeepsInv(s);
      }
    }

    /** `CommitTransaction` (:136-160), corrected (see Findings); `fault` says the physical commit throws, in which case
        the coordinator is left as it was. */
    method CommitTransaction(fault: bool) returns (outcome: Outcome<TranError>)
      modifies this
      ensures State() == Commit(old(State()), fault).next && outcome == Commit(old(State()), fault).outcome
      ensures old(Valid()) ==> Valid()
    {
      ghost var s := State();
      if Inv(s) {
        CommitKeepsInv(s, fault);
      }
      if runningTransaction.None? {
        return Fail(NoRunningTransaction);
      }
      if tranState == Rollbacked {
        return Fail(AlreadyRolledBack);
      }
      if tranCount - 1 == 0 {
        if fault {
          return Fail(PhysicalFault);
        }
        physicalLog := physicalLog + [PhysCommit, PhysDispose];
        runningTransaction := None;
      }
      tranState := Committed;
      tranCount := tranCount - 1;
      outcome := Pass;
    }

    // -------------------------------------------------------------------------------------
    // Event writes outside completion

    /** `AddSubscriptionEvent` (:605-628); `newGuid` is the value `Guid.NewGuid()` yields. */
    method AddSubscriptionEvent(id: Option<string>, e: SubscriptionEvent, newGuid: string)
      returns (r: Result<string, RepoError>)
      modifies this
      ensures Db() == EventTable.InsertSubscriptionEvent(old(Db()), id, e, newGuid).0
      ensures r == EventTable.InsertSubscriptionEvent(old(Db()), id, e, newGuid).1
      ensures runningTransaction == old(runningTransaction) && tranCount == old(tranCount)
      ensures tranState == old(tranState) && physicalLog == old(physicalLog)
    {
      var key := if id.Some? then id.value else newGuid;
      if key in subscriptionEvents {
        return Err(DuplicateId);
      }
      subscriptionEvents := subscriptionEvents[key := e.(deliveryCount := 0, deliveryDateUtc := None,
                                                         deliveryKey := None, invisibleUntilUtc := None)];
      r := Ok(key);
    }

    /** `TryLockConsumableEvent` (:681-696) at instant `now`. */
    method TryLockConsumableEvent(sId: SubscriptionEventIdentifier, deliveryKey: Option<string>,
                                  invisibleUntilUtc: int, now: int) returns (locked: bool)
      modifies this
      ensures Db() == EventTable.LockEvent(old(Db()), sId, deliveryKey, invisibleUntilUtc, now).0
      ensures locked == EventTable.LockEvent(old(Db()), sId, deliveryKey, invisibleUntilUtc, now).1
      ensures runningTransaction == old(runningTransaction) && tranCount == old(tranCount)
      ensures tranState == old(tranState) && physicalLog == old(physicalLog)
    {
      var rowsUpdated := 0;
      if sId.id in subscriptionEvents && subscriptionEvents[sId.id].deliveryKey == sId.deliveryKey {
        var row := subscriptionEvents[sId.id];
        subscriptionEvents := subscriptionEvents[sId.id := row.(deliveryKey := deliveryKey, deliveryDateUtc := Some(now),
                                                                invisibleUntilUtc := Some(invisibleUntilUtc),
                                                                deliveryCount := row.deliveryCount + 1)];
        rowsUpdated := 1;
      }
      locked := rowsUpdated > 0;
    }

    // -------------------------------------------------------------------------------------
    // The statements of the completion body

    /** Deletes the event row, but only while it still carries the caller's delivery key. */
    method DeleteSubscriptionEvent(id: string, deliveryKey: Option<string>, fault: bool)
      returns (rows: Result<int, RepoError>)
      modifies this
      ensures fault ==> rows == Err(Storage(DeleteFault)) && Db() == old(Db())
      ensures !fault ==>
                && rows.Ok?
                && (rows.value == 1 <==> id in old(subscriptionEvents) && old(subscriptionEvents)[id].deliveryKey == deliveryKey)
                && (rows.value == 0 || rows.value == 1)
      ensures subscriptionEvents == if rows == Ok(1) then old(subscriptionEvents) - {id} else old(subscriptionEvents)
      ensures consumedEvents == old(consumedEvents) && failedEvents == old(failedEvents)
      ensures lastConsumed == old(lastConsumed) && subscriptions == old(subscriptions)
      ensures runningTransaction == old(runningTransaction) && tranCount == old(tranCount)
      ensures tranState == old(tranState) && physicalLog == old(physicalLog)
    {
      if fault {
        return Err(Storage(DeleteFault));
      }
      if id in subscriptionEvents && subscriptionEvents[id].deliveryKey == deliveryKey {
        subscriptionEvents := subscriptionEvents - {id};
        rows := Ok(1);
      } else {
        rows := Ok(0);
      }
    }

    /** `AddConsumedSubscriptionEvent` (:640-655). */
    method AddConsumedSubscriptionEvent(id: string, se: SubscriptionEvent, now: int, fault: bool)
      returns (rows: Result<int, RepoError>)
      modifies this
      ensures rows == if fault then Err(Storage(InsertFault)) else Ok(1)
      ensures consumedEvents == old(consumedEvents) + if fault then [] else [Completion.ConsumedRow(id, se, now)]
      ensures subscriptionEvents == old(subscriptionEvents) && failedEvents == old(failedEvents)
      ensures lastConsumed == old(lastConsumed) && subscriptions == old(subscriptions)
      ensures runningTransaction == old(runningTransaction) && tranCount == old(tranCount)
      ensures tranState == old(tranState) && physicalLog == old(physicalLog)
    {
      if fault {
        return Err(Storage(InsertFault));
      }
      consumedEvents := consumedEvents + [Completion.ConsumedRow(id, se, now)];
      rows := Ok(1);
    }

    /** `AddFailedSubscriptionEvent` (:659-677). */
    method AddFailedSubscriptionEvent(id: string, se: SubscriptionEvent, reason: Reason, now: int, fault: bool)
      returns (rows: Result<int, RepoError>)
      modifies this
      ensures rows == if fault then Err(Storage(InsertFault)) else Ok(1)
      ensures failedEvents == old(failedEvents) + if fault then [] else [Completion.FailedRow(id, se, reason, now)]
      ensures subscriptionEvents == old(subscriptionEvents) && consumedEvents == old(consumedEvents)
      ensures lastConsumed == old(lastConsumed) && subscriptions == old(subscriptions)
      ensures runningTransaction == old(runningTransaction) && tranCount == old(tranCount)
      ensures tranState == old(tranState) && physicalLog == old(physicalLog)
    {
      if fault {
        return Err(Storage(InsertFault));
      }
      failedEvents := failedEvents + [Completion.FailedRow(id, se, reason, now)];
      rows := Ok(1);
    }

    /** The backend's `UpdateLastConsumedSubscriptionEvent` (:657), for an event with a
        functional key: it stores the event's publication date for its key and reports
        `reportedRows` rows, writing nothing when it reports 0. */
    method UpdateLastConsumedSubscriptionEvent(se: SubscriptionEvent, reportedRows: int, fault: bool)
      returns (rows: Result<int, RepoError>)
      requires se.functionalKey.Some?
      modifies this
      ensures rows == if fault then Err(Storage(UpsertFault)) else Ok(reportedRows)
      ensures lastConsumed == if fault || reportedRows == 0 then old(lastConsumed)
                              else old(lastConsumed)[(se.subscriptionId, se.functionalKey.value) := se.publicationDateUtc]
      ensures subscriptionEvents == old(subscriptionEvents) && consumedEvents == old(consumedEvents)
      ensures failedEvents == old(failedEvents) && subscriptions == old(subscriptions)
      ensures runningTransaction == old(runningTransaction) && tranCount == old(tranCount)
      ensures tranState == old(tranState) && physicalLog == old(physicalLog)
    {
      if fault {
        return Err(Storage(UpsertFault));
      }
      if reportedRows != 0 {
        lastConsumed := lastConsumed[(se.subscriptionId, se.functionalKey.value) := se.publicationDateUtc];
      }
      rows := Ok(reportedRows);
    }

    /** The statements inside the `try` of `MarkConsumed` (:786-809) or of `MarkFailed`
        (:839-854), in order; the first failure ends them. */
    method ExecuteCompletion(id: string, se: SubscriptionEvent, now: int, fault: StorageFault, m: Completion.MarkAs)
      returns (outcome: Outcome<RepoError>)
      modifies this
      ensures (Db(), outcome) == Completion.CompleteBody(old(Db()), id, se, now, fault, m)
      ensures runningTransaction == old(runningTransaction) && tranCount == old(tranCount)
      ensures tranState == old(tranState) && physicalLog == old(physicalLog)
    {
      var deleted := DeleteSubscriptionEvent(id, se.deliveryKey, fault == DeleteFault);
      if deleted.Err? {
        return Fail(deleted.error);
      }
      if deleted.value == 0 {
        return Fail(ExpiredWhileCompleting);
      }
      var added;
      if m.AsConsumed? {
        added := AddConsumedSubscriptionEvent(id, se, now, fault == InsertFault);
      } else {
        added := AddFailedSubscriptionEvent(id, se, m.reason, now, fault == InsertFault);
      }
      if added.Err? {
        assert fault == InsertFault;
        assert Db() == old(Db()).(events := old(Db()).events - {id});
        return Fail(added.error);
      }
      if m.AsConsumed? && se.functionalKey.Some? {
        var upserted := UpdateLastConsumedSubscriptionEvent(se, m.upsertRows, fault == UpsertFault);
        if upserted.Err? {
          return Fail(upserted.error);
        }
        if upserted.value == 0 || upserted.value > 2 {
          return Fail(UpsertRejected);
        }
      }
      outcome := Pass;
    }

    /** A `catch` clause: roll back, then report what was caught unless the rollback threw. */
    method RollbackAndReport(caught: Completion.AttemptResult) returns (result: Completion.AttemptResult)
      modifies this
      ensures (State(), result) == Completion.Abort(old(State()), caught)
    {
      var rolledBack := RollbackTransaction();
      result := if rolledBack.Fail? then Completion.Thrown(Tran(rolledBack.error)) else caught;
    }

    /** One run of the transaction of `MarkConsumed` or `MarkFailed`. */
    method AttemptCompletion(id: string, se: SubscriptionEvent, now: int, fault: StorageFault, m: Completion.MarkAs)
      returns (result: Completion.AttemptResult)
      modifies this
      ensures (State(), result) == Completion.Attempt(old(State()), id, se, now, fault, m)
      ensures old(Valid()) ==> Valid()
    {
      ghost var s := State();
      var begun := BeginTransaction(fault == BeginFault);
      if begun.Fail? {
        result := Completion.Thrown(Storage(BeginFault));
      } else {
        var body := ExecuteCompletion(id, se, now, fault, m);
        if body.Fail? {
          result := RollbackAndReport(if body.error.Storage? then Completion.CaughtDb(body.error.fault)
                                      else Completion.Thrown(body.error));
        } else {
          var committed := CommitTransaction(fault == CommitFault);
          if committed.Pass? {
            result := Completion.Completed;
          } else if committed.error == PhysicalFault {
            result := RollbackAndReport(Completion.CaughtDb(CommitFault));
          } else {
            result := RollbackAndReport(Completion.Thrown(Tran(committed.error)));
          }
        }
      }
      if Inv(s) {
        Completion.AttemptKeepsInv(s, id, se, now, fault, m);
      }
    }

    // -------------------------------------------------------------------------------------
    // Completion

    /** One pass of the `do` loop of `MarkConsumed` (:781-824): the transaction, then the
        decision of the `catch` clauses. `attempts` passes were made before this one, so
        `canRetry` is asked with `attempts + 1`, as the source counts. */
    method ConsumeAttempt(id: string, se: SubscriptionEvent, now: int, faults: seq<StorageFault>,
                          upsertRows: int, canRetry: (StorageFault, int) -> bool, attempts: nat)
      returns (success: bool, allowRetry: bool, outcome: Outcome<RepoError>)
      modifies this
      ensures success ==> !allowRetry && outcome == Pass
      ensures allowRetry ==> attempts < |faults|
      ensures var goal := Completion.ConsumeLoop(old(State()), id, se, now, faults, upsertRows, canRetry, attempts);
              if allowRetry then goal == Completion.ConsumeLoop(State(), id, se, now, faults, upsertRows, canRetry, attempts + 1)
              else goal == Completion.Run(State(), outcome, attempts + 1)
    {
      var fault := Completion.FaultAt(faults, attempts);
      ghost var before := State();
      var result := AttemptCompletion(id, se, now, fault, Completion.AsConsumed(upsertRows));
      Completion.ConsumeLoopStep(before, id, se, now, faults, upsertRows, canRetry, attempts, (State(), result));
      success, allowRetry, outcome := false, false, Pass;
      match result {
        case Completed =>
          success := true;
        case CaughtDb(f) =>
          allowRetry := canRetry(f, attempts + 1);
          if !allowRetry {
            outcome := Fail(Storage(f));
          }
        case Thrown(e) =>
          outcome := Fail(e);
      }
    }

    /** `MarkConsumed(id, deliveryKey)` (:767-826) at instant `now`. `faults[k]` is the storage
        fault of attempt k, `upsertRows` the count the upsert reports, `canRetry` the
        backend's `CanRetry`. */
    method MarkConsumed(id: string, deliveryKey: Option<string>, now: int, faults: seq<StorageFault>,
                        upsertRows: int, canRetry: (StorageFault, int) -> bool)
      returns (outcome: Outcome<RepoError>, attempts: nat)
      modifies this
      ensures var r := Completion.MarkConsumed(old(State()), id, deliveryKey, now, faults, upsertRows, canRetry);
              State() == r.next && outcome == r.outcome && attempts == r.attempts
      ensures old(Valid()) ==> Valid()
    {
      ghost var s := State();
      if Inv(s) {
        Completion.MarkConsumedKeepsInv(s, id, deliveryKey, now, faults, upsertRows, canRetry);
      }
      var lease := Completion.CheckLease(Db(), id, deliveryKey, now);
      if lease.Err? {
        return Fail(lease.error), 0;
      }
      var se := lease.value;
      ghost var goal := Completion.ConsumeLoop(State(), id, se, now, faults, upsertRows, canRetry, 0);
      attempts := 0;
      var success := false;
      // The loop is a `do ... while`: the first pass always runs.
      var allowRetry := true;
      outcome := Pass;
      while !success && allowRetry
        invariant success ==> !allowRetry
        invariant allowRetry ==> attempts <= |faults|
        invariant allowRetry ==> goal == Completion.ConsumeLoop(State(), id, se, now, faults, upsertRows, canRetry, attempts)
        invariant !allowRetry ==> goal == Completion.Run(State(), outcome, attempts)
        decreases if allowRetry then |faults| - attempts + 1 else 0
      {
        success, allowRetry, outcome := ConsumeAttempt(id, se, now, faults, upsertRows, canRetry, attempts);
        attempts := attempts + 1;
      }
    }

    /** `MarkFailed(id, deliveryKey, reason)` (:828-863) at instant `now`. */
    method MarkFailed(id: string, deliveryKey: Option<string>, reason: Reason, now: int, fault: StorageFault)
      returns (outcome: Outcome<RepoError>)
      modifies this
      ensures var r := Completion.MarkFailed(old(State()), id, deliveryKey, reason, now, fault);
              State() == r.0 && outcome == r.1
      ensures old(Valid()) ==> Valid()
    {
      ghost var s := State();
      if Inv(s) {
        Completion.MarkFailedKeepsInv(s, id, deliveryKey, reason, now, fault);
      }
      var lease := Completion.CheckLease(Db(), id, deliveryKey, now);
      if lease.Err? {
        return Fail(lease.error);
      }
      var result := AttemptCompletion(id, lease.value, now, fault, Completion.AsFailed(reason));
      match result {
        case Completed => outcome := Pass;
        case CaughtDb(f) => outcome := Fail(Storage(f));
        case Thrown(e) => outcome := Fail(e);
      }
    }
  }
}
