/** Completion of a delivered event: `MarkConsumed` (:767-826) and `MarkFailed` (:828-863).
    Both check the lease on the row they read, then delete the row and write a ledger row
    inside a transaction of the coordinator; `MarkConsumed` also upserts the last consumed
    publication date of the event's functional key and reruns the transaction while
    `CanRetry` allows. Which storage statement throws is a parameter (`StorageFault`), as is
    the row count the backend-specific upsert reports. */
module Completion {
  import opened Common
  import opened Schema
  import opened Transactions
  import Dialect

  /** What the transaction body writes besides the delete: a consumed ledger row plus the
      upsert (reporting `upsertRows` rows), or a failed ledger row. */
  datatype MarkAs = AsConsumed(upsertRows: int) | AsFailed(reason: Reason)

  /** How one run of the transaction ends: committed, with a `DbException` caught, or with
      any other exception leaving the method. */
  datatype AttemptResult = Completed | CaughtDb(fault: StorageFault) | Thrown(error: RepoError)

  /** The end state of a call, its outcome and how many times the transaction ran. */
  datatype Run = Run(next: RepoState, outcome: Outcome<RepoError>, attempts: nat)

  /** The storage fault of attempt `k` (counted from 0); past the script, none. */
  function FaultAt(faults: seq<StorageFault>, k: int): (f: StorageFault)
    ensures f != NoFault ==> 0 <= k < |faults| && f == faults[k]
  {
    if 0 <= k < |faults| then faults[k] else NoFault
  }

  // ---------------------------------------------------------------------------------------
  // The lease check before the transaction

  /** The row is in someone else's current lease (:772-773): its DeliveryKey differs,
      ignoring case, from the caller's (a NULL caller key differs from every key) and its
      InvisibleUntilUtc lies in the future (a NULL one never does). */
  predicate LockedByAnother(rowKey: string, invisibleUntilUtc: Option<int>, deliveryKey: Option<string>, now: int)
  {
    && !(deliveryKey.Some? && EqualsIgnoreCase(rowKey, deliveryKey.value))
    && invisibleUntilUtc.Some? && invisibleUntilUtc.value > now
  }

  /** The checks of :769-774 and :830-835 on the row as read. A row whose DeliveryKey is NULL
      makes the key comparison throw. */
  function CheckLease(db: Tables, id: string, deliveryKey: Option<string>, now: int): (r: Result<SubscriptionEvent, RepoError>)
    ensures r == Err(NotFound) <==> id !in db.events
    ensures r == Err(NullDeliveryKey) <==> id in db.events && db.events[id].deliveryKey.None?
    ensures r == Err(LockedByOther) <==>
              id in db.events && db.events[id].deliveryKey.Some? &&
              LockedByAnother(db.events[id].deliveryKey.value, db.events[id].invisibleUntilUtc, deliveryKey, now)
    ensures r.Err? ==> r.error in {NotFound, NullDeliveryKey, LockedByOther}
    ensures r.Ok? ==> id in db.events && r.value == db.events[id] && r.value.deliveryKey.Some?
  {
    if id !in db.events then Err(NotFound)
    else
      var se := db.events[id];
      if se.deliveryKey.None? then Err(NullDeliveryKey)
      else if LockedByAnother(se.deliveryKey.value, se.invisibleUntilUtc, deliveryKey, now) then Err(LockedByOther)
      else Ok(se)
  }

  /** The holder of the lease passes the check, whatever the case of its key; so does
      anybody once the lease has run out. */
  lemma LeaseHolderOrExpiredPasses(db: Tables, id: string, deliveryKey: Option<string>, now: int)
    requires id in db.events && db.events[id].deliveryKey.Some?
    requires || (deliveryKey.Some? && Lower(deliveryKey.value) == Lower(db.events[id].deliveryKey.value))
             || db.events[id].invisibleUntilUtc.None?
             || db.events[id].invisibleUntilUtc.value <= now
    ensures CheckLease(db, id, deliveryKey, now) == Ok(db.events[id])
  {
  }

  // ---------------------------------------------------------------------------------------
  // The transaction body

  function ConsumedRow(id: string, se: SubscriptionEvent, now: int): ConsumedEvent
  {
    ConsumedEvent(id, se.subscriptionId, se.publicationDateUtc, se.functionalKey, se.priority,
                  se.payloadId, se.deliveryDateUtc, now)
  }

  function FailedRow(id: string, se: SubscriptionEvent, reason: Reason, now: int): FailedEvent
  {
    FailedEvent(id, se.subscriptionId, se.publicationDateUtc, se.functionalKey, se.priority,
                se.payloadId, se.deliveryDateUtc, now, reason.reasonType, reason.reasonText)
  }

  /** The upsert runs only for a consumed event with a functional key (:803). */
  predicate UpsertApplies(se: SubscriptionEvent, m: MarkAs)
  {
    m.AsConsumed? && se.functionalKey.Some?
  }

  /** The row count check of :806: 0 rows, or more than 2, is a failure. */
  predicate UpsertAccepted(rows: int)
  {
    !(rows == 0 || rows > 2)
  }

  /** One or two rows (an insert, or MySQL's update of a duplicate key) are accepted, and so
      is any negative count. */
  lemma UpsertAcceptedCounts(rows: int)
    ensures UpsertAccepted(rows) <==> rows == 1 || rows == 2 || rows < 0
  {
  }

  /** The statements inside the `try` (:784-811, :839-856) on the tables, for the row `se`
      read under `id`: the delete keyed on id and the DeliveryKey as read, the ledger insert,
      and for a consumed event with a functional key the upsert of its last consumed
      publication date, which writes unless it reports 0 rows. The first statement that
      fails ends the body; what the earlier ones wrote is left for the rollback. */
  function CompleteBody(db: Tables, id: string, se: SubscriptionEvent, now: int, fault: StorageFault, m: MarkAs)
    : (r: (Tables, Outcome<RepoError>))
    ensures r.1.Pass? <==>
              && fault != DeleteFault && fault != InsertFault
              && id in db.events && db.events[id].deliveryKey == se.deliveryKey
              && (UpsertApplies(se, m) ==> fault != UpsertFault && UpsertAccepted(m.upsertRows))
    ensures r.1.Fail? && r.1.error.Storage? ==> r.1.error.fault == fault
    ensures r.1.Fail? ==> r.1.error in {Storage(fault), ExpiredWhileCompleting, UpsertRejected}
    ensures r.1 == Fail(ExpiredWhileCompleting) <==>
              fault != DeleteFault && !(id in db.events && db.events[id].deliveryKey == se.deliveryKey)
    ensures r.1 == Fail(UpsertRejected) ==> UpsertApplies(se, m) && !UpsertAccepted(m.upsertRows)
    ensures r.0.subscriptions == db.subscriptions
    ensures r.1.Pass? ==>
              && r.0.events == db.events - {id}
              && r.0.consumed == db.consumed + (if m.AsConsumed? then [ConsumedRow(id, se, now)] else [])
              && r.0.failed == db.failed + (if m.AsFailed? then [FailedRow(id, se, m.reason, now)] else [])
              && r.0.lastConsumed ==
                   if UpsertApplies(se, m) then db.lastConsumed[(se.subscriptionId, se.functionalKey.value) := se.publicationDateUtc]
                   else db.lastConsumed
  {
    if fault == DeleteFault then (db, Fail(Storage(DeleteFault)))
    else if !(id in db.events && db.events[id].deliveryKey == se.deliveryKey) then (db, Fail(ExpiredWhileCompleting))
    else
      var deleted := db.(events := db.events - {id});
      // An insert with VALUES reports one row: the 0-row checks of :799 and :853 never fire.
      if fault == InsertFault then (deleted, Fail(Storage(InsertFault)))
      else
        var logged := if m.AsConsumed? then deleted.(consumed := deleted.consumed + [ConsumedRow(id, se, now)])
                      else deleted.(failed := deleted.failed + [FailedRow(id, se, m.reason, now)]);
        if !UpsertApplies(se, m) then (logged, Pass)
        else if fault == UpsertFault then (logged, Fail(Storage(UpsertFault)))
        else
          var upserted := if m.upsertRows == 0 then logged
                          else logged.(lastConsumed := logged.lastConsumed[(se.subscriptionId, se.functionalKey.value) := se.publicationDateUtc]);
          (upserted, if UpsertAccepted(m.upsertRows) then Pass else Fail(UpsertRejected))
  }

  // ---------------------------------------------------------------------------------------
  // One run of the transaction

  /** The `catch` clauses: roll back, then report what was caught. A rollback that throws
      replaces the exception. */
  function Abort(s: RepoState, caught: AttemptResult): (r: (RepoState, AttemptResult))
    ensures s.running.None? ==> r == (s, Thrown(Tran(NoRunningTransaction)))
    ensures s.running.Some? ==> r.1 == caught && r.0.tranCount == s.tranCount - 1 && r.0.tranState == Rollbacked
    ensures s.running.Some? ==> r.0.db == if s.tranState == Rollbacked then s.db else s.running.value
  {
    var rb := Rollback(s);
    if rb.outcome.Fail? then (rb.next, Thrown(Tran(rb.outcome.error))) else (rb.next, caught)
  }

  /** One pass through the body of the `do` loop (:781-824), or the body of `MarkFailed`
      (:837-862): begin (outside the `try`), run the statements, commit; on an exception roll
      back. A `DbException` from the body or from the physical commit is caught; any other
      exception, such as "already rolled back", is not. */
  function Attempt(s: RepoState, id: string, se: SubscriptionEvent, now: int, fault: StorageFault, m: MarkAs)
    : (r: (RepoState, AttemptResult))
    ensures r.1.CaughtDb? ==> fault != NoFault && r.1.fault == fault
    ensures r.1 == Thrown(Storage(BeginFault)) ==> r.0 == s
  {
    var b := Begin(s, fault == BeginFault);
    if b.outcome.Fail? then (s, Thrown(Storage(BeginFault)))
    else
      var inTran := b.next;
      var body := CompleteBody(inTran.db, id, se, now, fault, m);
      var written := inTran.(db := body.0);
      if body.1.Fail? then
        Abort(written, if body.1.error.Storage? then CaughtDb(body.1.error.fault) else Thrown(body.1.error))
      else
        var c := Commit(written, fault == CommitFault);
        if c.outcome.Pass? then (c.next, Completed)
        else if c.outcome.error == PhysicalFault then Abort(c.next, CaughtDb(CommitFault))
        else Abort(c.next, Thrown(Tran(c.outcome.error)))
  }

  /** From an idle coordinator, one attempt leaves it idle and consistent again, has either
      committed the body's tables or restored the tables it started from, and has logged
      one whole physical group: begin, commit, dispose when it completes, and begin,
      rollback, dispose when it does not. A begin that fails changes nothing and logs
      nothing. */
  lemma AttemptFromIdle(s: RepoState, id: string, se: SubscriptionEvent, now: int, fault: StorageFault, m: MarkAs)
    requires Inv(s) && s.running.None?
    ensures var r := Attempt(s, id, se, now, fault, m);
            && Inv(r.0) && r.0.running.None? && r.0.tranCount == 0
            && (r.1.Completed? <==> CompleteBody(s.db, id, se, now, fault, m).1.Pass? && fault != BeginFault && fault != CommitFault)
            && (r.1.Completed? ==> r.0.db == CompleteBody(s.db, id, se, now, fault, m).0
                                   && r.0.log == s.log + [PhysBegin, PhysCommit, PhysDispose])
            && (!r.1.Completed? ==> r.0.db == s.db)
            && (fault == BeginFault ==> r == (s, Thrown(Storage(BeginFault))))
            && (!r.1.Completed? && fault != BeginFault ==> r.0.log == s.log + [PhysBegin, PhysRollback, PhysDispose])
            && (r.1.Thrown? ==> r.1.error != Tran(AlreadyRolledBack) && r.1.error != Tran(NoRunningTransaction))
  {
    if fault != BeginFault {
      if CompleteBody(s.db, id, se, now, fault, m).1.Fail? {
        AttemptBodyFails(s, id, se, now, fault, m);
      } else {
        AttemptBodyPasses(s, id, se, now, fault, m);
      }
    }
  }

  /** What `AttemptFromIdle` states about the end `r` of an attempt from the idle `s` whose
      body ends in `body`. */
  ghost predicate AttemptEnds(s: RepoState, body: (Tables, Outcome<RepoError>), fault: StorageFault,
                              r: (RepoState, AttemptResult))
  {
    && Inv(r.0) && r.0.running.None? && r.0.tranCount == 0
    && (r.1.Completed? <==> body.1.Pass? && fault != BeginFault && fault != CommitFault)
    && (r.1.Completed? ==> r.0.db == body.0 && r.0.log == s.log + [PhysBegin, PhysCommit, PhysDispose])
    && (!r.1.Completed? ==> r.0.db == s.db)
    && (!r.1.Completed? ==> r.0.log == s.log + [PhysBegin, PhysRollback, PhysDispose])
    && (r.1.Thrown? ==> r.1.error != Tran(AlreadyRolledBack) && r.1.error != Tran(NoRunningTransaction))
  }

  /** A failing body is rolled back: the data and the coordinator are as before the begin. */
  lemma AttemptBodyFails(s: RepoState, id: string, se: SubscriptionEvent, now: int, fault: StorageFault, m: MarkAs)
    requires Inv(s) && s.running.None? && fault != BeginFault
    requires CompleteBody(s.db, id, se, now, fault, m).1.Fail?
    ensures AttemptEnds(s, CompleteBody(s.db, id, se, now, fault, m), fault, Attempt(s, id, se, now, fault, m))
  {
    var inTran := Begin(s, false).next;
    BeginKeepsInv(s, false);
    var written := inTran.(db := CompleteBody(s.db, id, se, now, fault, m).0);
    assert Inv(written);
    RollbackKeepsInv(written);
  }

  /** A passing body is committed, unless the physical commit fails and is rolled back. */
  lemma AttemptBodyPasses(s: RepoState, id: string, se: SubscriptionEvent, now: int, fault: StorageFault, m: MarkAs)
    requires Inv(s) && s.running.None? && fault != BeginFault
    requires CompleteBody(s.db, id, se, now, fault, m).1.Pass?
    ensures AttemptEnds(s, CompleteBody(s.db, id, se, now, fault, m), fault, Attempt(s, id, se, now, fault, m))
  {
    var inTran := Begin(s, false).next;
    BeginKeepsInv(s, false);
    var written := inTran.(db := CompleteBody(s.db, id, se, now, fault, m).0);
    assert Inv(written);
    CommitKeepsInv(written, fault == CommitFault);
    if fault == CommitFault {
      RollbackKeepsInv(Commit(written, true).next);
    }
  }

  /** Inside a live transaction (a nested call: the caller holds the group open and has not
      rolled back) the attempt only takes part in the caller's group: a passing body stays
      written and the group is marked committed with no physical action, while a failing body
      rolls the whole group back to the caller's snapshot and dooms it. The count and the
      running transaction are the caller's again either way. */
  lemma NestedAttemptInLiveGroup(s: RepoState, id: string, se: SubscriptionEvent, now: int, fault: StorageFault,
                                 m: MarkAs)
    requires Inv(s) && s.running.Some? && s.tranState != Rollbacked
    ensures var r := Attempt(s, id, se, now, fault, m);
            var body := CompleteBody(s.db, id, se, now, fault, m);
            && (r.1.Completed? <==> body.1.Pass?)
            && (r.1.Completed? ==> r.0 == s.(db := body.0, tranState := Committed))
            && (!r.1.Completed? ==> r.0 == s.(db := s.running.value, tranState := Rollbacked,
                                              log := s.log + [PhysRollback]))
  {
    NestedMemberInLiveGroup(s, CompleteBody(s.db, id, se, now, fault, m).0, fault == BeginFault, fault == CommitFault);
  }

  /** Inside a group the caller has already rolled back, the attempt cannot complete: a
      passing body is refused at the commit with "already rolled back", and the group stays
      doomed with no physical action; only the body's writes remain. The count and the
      running transaction are the caller's again. */
  lemma NestedAttemptInDoomedGroup(s: RepoState, id: string, se: SubscriptionEvent, now: int, fault: StorageFault,
                                   m: MarkAs)
    requires Inv(s) && s.running.Some? && s.tranState == Rollbacked
    ensures var r := Attempt(s, id, se, now, fault, m);
            var body := CompleteBody(s.db, id, se, now, fault, m);
            && Inv(r.0) && !r.1.Completed? && r.0 == s.(db := body.0)
            && (body.1.Pass? ==> r.1 == Thrown(Tran(AlreadyRolledBack)))
  {
    NestedMemberInDoomedGroup(s, CompleteBody(s.db, id, se, now, fault, m).0, fault == BeginFault, fault == CommitFault);
  }

  /** From any consistent coordinator, idle or inside a caller's transaction, one attempt
      leaves it consistent, with the count and the running transaction it started from. */
  lemma AttemptKeepsInv(s: RepoState, id: string, se: SubscriptionEvent, now: int, fault: StorageFault, m: MarkAs)
    requires Inv(s)
    ensures var r := Attempt(s, id, se, now, fault, m);
            Inv(r.0) && r.0.running == s.running && r.0.tranCount == s.tranCount
  {
    if s.running.None? {
      AttemptFromIdle(s, id, se, now, fault, m);
    } else if s.tranState == Rollbacked {
      NestedAttemptInDoomedGroup(s, id, se, now, fault, m);
    } else {
      NestedAttemptInLiveGroup(s, id, se, now, fault, m);
      LiveMemberCommitKeepsInv(s, CompleteBody(s.db, id, se, now, fault, m).0);
      LiveMemberRollbackKeepsInv(s);
    }
  }

  // ---------------------------------------------------------------------------------------
  // MarkConsumed

  /** The `do ... while (!success && allowRetry)` loop from attempt `attempts` on. A caught
      `DbException` reruns the transaction when `canRetry` allows it for the number of
      attempts made so far, and is rethrown otherwise. The loop ends because only a scripted
      fault can be caught. */
  function ConsumeLoop(s: RepoState, id: string, se: SubscriptionEvent, now: int, faults: seq<StorageFault>,
                       upsertRows: int, canRetry: (StorageFault, int) -> bool, attempts: nat): (r: Run)
    ensures r.attempts > attempts
    decreases |faults| - attempts
  {
    var a := Attempt(s, id, se, now, FaultAt(faults, attempts), AsConsumed(upsertRows));
    match a.1
    case Completed => Run(a.0, Pass, attempts + 1)
    case Thrown(e) => Run(a.0, Fail(e), attempts + 1)
    case CaughtDb(f) =>
      if canRetry(f, attempts + 1) then ConsumeLoop(a.0, id, se, now, faults, upsertRows, canRetry, attempts + 1)
      else Run(a.0, Fail(Storage(f)), attempts + 1)
  }

  /** One turn of the loop: how `ConsumeLoop` continues from the result `a` of the attempt
      it makes. A caught fault is always a scripted one. */
  lemma ConsumeLoopStep(s: RepoState, id: string, se: SubscriptionEvent, now: int, faults: seq<StorageFault>,
                        upsertRows: int, canRetry: (StorageFault, int) -> bool, attempts: nat,
                        a: (RepoState, AttemptResult))
    requires a == Attempt(s, id, se, now, FaultAt(faults, attempts), AsConsumed(upsertRows))
    ensures a.1.CaughtDb? ==> attempts < |faults|
    ensures var r := ConsumeLoop(s, id, se, now, faults, upsertRows, canRetry, attempts);
            && (a.1.Completed? ==> r == Run(a.0, Pass, attempts + 1))
            && (a.1.Thrown? ==> r == Run(a.0, Fail(a.1.error), attempts + 1))
            && (a.1.CaughtDb? && canRetry(a.1.fault, attempts + 1) ==>
                  r == ConsumeLoop(a.0, id, se, now, faults, upsertRows, canRetry, attempts + 1))
            && (a.1.CaughtDb? && !canRetry(a.1.fault, attempts + 1) ==>
                  r == Run(a.0, Fail(Storage(a.1.fault)), attempts + 1))
  {
  }

  /** The loop makes at most one pass more than the fault script has faults: a pass after
      the script's end runs without a fault, so it is never rerun. */
  lemma {:induction false} ConsumeLoopBounded(s: RepoState, id: string, se: SubscriptionEvent, now: int,
                                              faults: seq<StorageFault>, upsertRows: int,
                                              canRetry: (StorageFault, int) -> bool, attempts: nat)
    requires attempts <= |faults|
    ensures ConsumeLoop(s, id, se, now, faults, upsertRows, canRetry, attempts).attempts <= |faults| + 1
    decreases |faults| - attempts
  {
    var a := Attempt(s, id, se, now, FaultAt(faults, attempts), AsConsumed(upsertRows));
    if a.1.CaughtDb? && canRetry(a.1.fault, attempts + 1) {
      assert attempts < |faults|;
      ConsumeLoopBounded(a.0, id, se, now, faults, upsertRows, canRetry, attempts + 1);
    }
  }

  /** `MarkConsumed(id, deliveryKey)` at instant `now`: the lease check, then the loop. */
  function MarkConsumed(s: RepoState, id: string, deliveryKey: Option<string>, now: int, faults: seq<StorageFault>,
                        upsertRows: int, canRetry: (StorageFault, int) -> bool): (r: Run)
    ensures CheckLease(s.db, id, deliveryKey, now).Err? ==>
              r == Run(s, Fail(CheckLease(s.db, id, deliveryKey, now).error), 0)
    ensures CheckLease(s.db, id, deliveryKey, now).Ok? ==> r.attempts >= 1
  {
    match CheckLease(s.db, id, deliveryKey, now)
    case Err(e) => Run(s, Fail(e), 0)
    case Ok(se) => ConsumeLoop(s, id, se, now, faults, upsertRows, canRetry, 0)
  }

  /** From any consistent coordinator the loop leaves it consistent, with the count and the
      running transaction it started from, however many attempts it makes. */
  lemma {:induction false} ConsumeLoopKeepsInv(s: RepoState, id: string, se: SubscriptionEvent, now: int,
                                               faults: seq<StorageFault>, upsertRows: int,
                                               canRetry: (StorageFault, int) -> bool, attempts: nat)
    requires Inv(s)
    ensures var r := ConsumeLoop(s, id, se, now, faults, upsertRows, canRetry, attempts);
            Inv(r.next) && r.next.running == s.running && r.next.tranCount == s.tranCount
    decreases |faults| - attempts
  {
    var a := Attempt(s, id, se, now, FaultAt(faults, attempts), AsConsumed(upsertRows));
    AttemptKeepsInv(s, id, se, now, FaultAt(faults, attempts), AsConsumed(upsertRows));
    ConsumeLoopStep(s, id, se, now, faults, upsertRows, canRetry, attempts, a);
    if a.1.CaughtDb? && canRetry(a.1.fault, attempts + 1) {
      ConsumeLoopKeepsInv(a.0, id, se, now, faults, upsertRows, canRetry, attempts + 1);
    }
  }

  /** `MarkConsumed` keeps a consistent coordinator consistent, idle or nested. */
  lemma MarkConsumedKeepsInv(s: RepoState, id: string, deliveryKey: Option<string>, now: int,
                             faults: seq<StorageFault>, upsertRows: int, canRetry: (StorageFault, int) -> bool)
    requires Inv(s)
    ensures var r := MarkConsumed(s, id, deliveryKey, now, faults, upsertRows, canRetry);
            Inv(r.next) && r.next.running == s.running && r.next.tranCount == s.tranCount
  {
    if CheckLease(s.db, id, deliveryKey, now).Ok? {
      ConsumeLoopKeepsInv(s, id, CheckLease(s.db, id, deliveryKey, now).value, now, faults, upsertRows, canRetry, 0);
    }
  }

  /** From an idle coordinator the loop is atomic: it ends idle and consistent, with the
      tables of one fault-free completion on success and the tables it started from on
      failure; and every rerun follows a caught storage fault that `canRetry` allowed. */
  lemma ConsumeLoopFromIdle(s: RepoState, id: string, se: SubscriptionEvent, now: int,
                            faults: seq<StorageFault>, upsertRows: int,
                            canRetry: (StorageFault, int) -> bool, attempts: nat)
    requires Inv(s) && s.running.None?
    ensures var r := ConsumeLoop(s, id, se, now, faults, upsertRows, canRetry, attempts);
            && Inv(r.next) && r.next.running.None?
            && (r.outcome.Pass? ==> CompleteBody(s.db, id, se, now, NoFault, AsConsumed(upsertRows)).1.Pass?
                                    && r.next.db == CompleteBody(s.db, id, se, now, NoFault, AsConsumed(upsertRows)).0)
            && (r.outcome.Fail? ==> r.next.db == s.db)
            && (forall k :: attempts <= k < r.attempts - 1 ==>
                  FaultAt(faults, k) != NoFault && canRetry(FaultAt(faults, k), k + 1))
  {
    ConsumeLoopAtomic(s, id, se, now, faults, upsertRows, canRetry, attempts);
    ConsumeLoopReruns(s, id, se, now, faults, upsertRows, canRetry, attempts);
  }

  /** The state half of `ConsumeLoopFromIdle`. */
  lemma {:induction false} ConsumeLoopAtomic(s: RepoState, id: string, se: SubscriptionEvent, now: int,
                                             faults: seq<StorageFault>, upsertRows: int,
                                             canRetry: (StorageFault, int) -> bool, attempts: nat)
    requires Inv(s) && s.running.None?
    ensures var r := ConsumeLoop(s, id, se, now, faults, upsertRows, canRetry, attempts);
            && Inv(r.next) && r.next.running.None?
            && (r.outcome.Pass? ==> CompleteBody(s.db, id, se, now, NoFault, AsConsumed(upsertRows)).1.Pass?
                                    && r.next.db == CompleteBody(s.db, id, se, now, NoFault, AsConsumed(upsertRows)).0)
            && (r.outcome.Fail? ==> r.next.db == s.db)
    decreases |faults| - attempts
  {
    var fault := FaultAt(faults, attempts);
    var a := Attempt(s, id, se, now, fault, AsConsumed(upsertRows));
    AttemptFromIdle(s, id, se, now, fault, AsConsumed(upsertRows));
    if a.1.CaughtDb? && canRetry(a.1.fault, attempts + 1) {
      ConsumeLoopAtomic(a.0, id, se, now, faults, upsertRows, canRetry, attempts + 1);
    }
  }

  /** The retry half of `ConsumeLoopFromIdle`: every rerun follows a caught, scripted fault
      that `canRetry` allowed. */
  lemma {:induction false} ConsumeLoopReruns(s: RepoState, id: string, se: SubscriptionEvent, now: int,
                                             faults: seq<StorageFault>, upsertRows: int,
                                             canRetry: (StorageFault, int) -> bool, attempts: nat)
    ensures var r := ConsumeLoop(s, id, se, now, faults, upsertRows, canRetry, attempts);
            forall k :: attempts <= k < r.attempts - 1 ==>
              FaultAt(faults, k) != NoFault && canRetry(FaultAt(faults, k), k + 1)
    decreases |faults| - attempts
  {
    var a := Attempt(s, id, se, now, FaultAt(faults, attempts), AsConsumed(upsertRows));
    ConsumeLoopStep(s, id, se, now, faults, upsertRows, canRetry, attempts, a);
    var r := ConsumeLoop(s, id, se, now, faults, upsertRows, canRetry, attempts);
    if a.1.CaughtDb? && canRetry(a.1.fault, attempts + 1) {
      ConsumeLoopReruns(a.0, id, se, now, faults, upsertRows, canRetry, attempts + 1);
      forall k | attempts <= k < r.attempts - 1
        ensures FaultAt(faults, k) != NoFault && canRetry(FaultAt(faults, k), k + 1)
      {
        if k == attempts {
          assert FaultAt(faults, k) == a.1.fault;
        }
      }
    }
  }

  /** `MarkConsumed` from an idle coordinator: a rejected lease check changes nothing; a
      success deletes the row, appends its consumed ledger row, and upserts the last consumed
      publication date exactly when the event has a functional key; a failure leaves every
      table as it was. The coordinator ends idle and consistent. */
  lemma MarkConsumedFromIdle(s: RepoState, id: string, deliveryKey: Option<string>, now: int,
                             faults: seq<StorageFault>, upsertRows: int, canRetry: (StorageFault, int) -> bool)
    requires Inv(s) && s.running.None?
    ensures var r := MarkConsumed(s, id, deliveryKey, now, faults, upsertRows, canRetry);
            && Inv(r.next) && r.next.running.None?
            && (r.outcome.Fail? ==> r.next.db == s.db)
            && (r.outcome.Pass? ==>
                  var se := s.db.events[id];
                  && id in s.db.events
                  && CheckLease(s.db, id, deliveryKey, now).Ok?
                  && r.next.db.events == s.db.events - {id}
                  && r.next.db.consumed == s.db.consumed + [ConsumedRow(id, se, now)]
                  && r.next.db.failed == s.db.failed
                  && r.next.db.subscriptions == s.db.subscriptions
                  && (se.functionalKey.Some? ==>
                        r.next.db.lastConsumed == s.db.lastConsumed[(se.subscriptionId, se.functionalKey.value) := se.publicationDateUtc])
                  && (se.functionalKey.None? ==> r.next.db.lastConsumed == s.db.lastConsumed))
  {
    match CheckLease(s.db, id, deliveryKey, now)
    case Err(e) =>
    case Ok(se) =>
      ConsumeLoopFromIdle(s, id, se, now, faults, upsertRows, canRetry, 0);
  }

  /** Without storage faults, `MarkConsumed` from an idle coordinator succeeds exactly when
      the lease check passes and, for an event with a functional key, the upsert's row count
      is accepted; it runs the transaction once. */
  lemma FaultFreeMarkConsumed(s: RepoState, id: string, deliveryKey: Option<string>, now: int,
                              upsertRows: int, canRetry: (StorageFault, int) -> bool)
    requires Inv(s) && s.running.None?
    ensures var r := MarkConsumed(s, id, deliveryKey, now, [], upsertRows, canRetry);
            && (r.outcome.Pass? <==>
                  CheckLease(s.db, id, deliveryKey, now).Ok? &&
                  (s.db.events[id].functionalKey.Some? ==> UpsertAccepted(upsertRows)))
            && (r.outcome == Fail(UpsertRejected) <==>
                  CheckLease(s.db, id, deliveryKey, now).Ok? &&
                  s.db.events[id].functionalKey.Some? && !UpsertAccepted(upsertRows))
            && r.attempts <= 1
  {
    match CheckLease(s.db, id, deliveryKey, now)
    case Err(e) =>
    case Ok(se) =>
      AttemptFromIdle(s, id, se, now, NoFault, AsConsumed(upsertRows));
  }

  /** With the default `CanRetry` the transaction runs exactly once once the lease check
      has passed, and a caught storage error is rethrown. */
  lemma DefaultCanRetryRunsOnce(s: RepoState, id: string, deliveryKey: Option<string>, now: int,
                                faults: seq<StorageFault>, upsertRows: int)
    ensures var r := MarkConsumed(s, id, deliveryKey, now, faults, upsertRows, Dialect.DefaultCanRetry);
            r.attempts == if CheckLease(s.db, id, deliveryKey, now).Ok? then 1 else 0
  {
  }

  /** A retry can succeed: after a physical commit that throws and is judged retryable, the
      second run of the transaction starts a fresh group and commits, with the tables of one
      fault-free completion. */
  lemma RetryAfterCommitFaultSucceeds(s: RepoState, id: string, deliveryKey: Option<string>, now: int,
                                      upsertRows: int, canRetry: (StorageFault, int) -> bool)
    requires Inv(s) && s.running.None?
    requires CheckLease(s.db, id, deliveryKey, now).Ok?
    requires s.db.events[id].functionalKey.Some? ==> UpsertAccepted(upsertRows)
    requires canRetry(CommitFault, 1)
    ensures var r := MarkConsumed(s, id, deliveryKey, now, [CommitFault], upsertRows, canRetry);
            && r.outcome.Pass? && r.attempts == 2
            && r.next.log == s.log + [PhysBegin, PhysRollback, PhysDispose, PhysBegin, PhysCommit, PhysDispose]
  {
    var se := s.db.events[id];
    var m := AsConsumed(upsertRows);
    AttemptFromIdle(s, id, se, now, CommitFault, m);
    var a := Attempt(s, id, se, now, CommitFault, m);
    assert a.1 == CaughtDb(CommitFault);
    AttemptFromIdle(a.0, id, se, now, NoFault, m);
  }

  // ---------------------------------------------------------------------------------------
  // MarkFailed

  /** `MarkFailed(id, deliveryKey, reason)` at instant `now`: the lease check, then one run of
      the transaction with no retry; every exception leaves the method. */
  function MarkFailed(s: RepoState, id: string, deliveryKey: Option<string>, reason: Reason, now: int,
                      fault: StorageFault): (r: (RepoState, Outcome<RepoError>))
    ensures CheckLease(s.db, id, deliveryKey, now).Err? ==> r == (s, Fail(CheckLease(s.db, id, deliveryKey, now).error))
  {
    match CheckLease(s.db, id, deliveryKey, now)
    case Err(e) => (s, Fail(e))
    case Ok(se) =>
      var a := Attempt(s, id, se, now, fault, AsFailed(reason));
      match a.1
      case Completed => (a.0, Pass)
      case CaughtDb(f) => (a.0, Fail(Storage(f)))
      case Thrown(e) => (a.0, Fail(e))
  }

  /** `MarkFailed` from an idle coordinator: a success deletes the row and appends its failed
      ledger row with the reason; a failure leaves every table as it was; the consumed
      ledger and the last consumed dates never change. */
  lemma MarkFailedFromIdle(s: RepoState, id: string, deliveryKey: Option<string>, reason: Reason, now: int,
                           fault: StorageFault)
    requires Inv(s) && s.running.None?
    ensures var r := MarkFailed(s, id, deliveryKey, reason, now, fault);
            && Inv(r.0) && r.0.running.None?
            && r.0.db.lastConsumed == s.db.lastConsumed
            && r.0.db.consumed == s.db.consumed
            && (r.1.Fail? ==> r.0.db == s.db)
            && (r.1.Pass? <==> CheckLease(s.db, id, deliveryKey, now).Ok? &&
                               fault !in {BeginFault, DeleteFault, InsertFault, CommitFault})
            && (r.1.Pass? ==>
                  && r.0.db.events == s.db.events - {id}
                  && r.0.db.failed == s.db.failed + [FailedRow(id, s.db.events[id], reason, now)]
                  && r.0.db.subscriptions == s.db.subscriptions)
  {
    match CheckLease(s.db, id, deliveryKey, now)
    case Err(e) =>
    case Ok(se) =>
      AttemptFromIdle(s, id, se, now, fault, AsFailed(reason));
  }

  /** `MarkFailed` keeps a consistent coordinator consistent, idle or nested. */
  lemma MarkFailedKeepsInv(s: RepoState, id: string, deliveryKey: Option<string>, reason: Reason, now: int,
                           fault: StorageFault)
    requires Inv(s)
    ensures var r := MarkFailed(s, id, deliveryKey, reason, now, fault);
            Inv(r.0) && r.0.running == s.running && r.0.tranCount == s.tranCount
  {
    match CheckLease(s.db, id, deliveryKey, now)
    case Err(e) =>
    case Ok(se) =>
      AttemptKeepsInv(s, id, se, now, fault, AsFailed(reason));
  }

  // ---------------------------------------------------------------------------------------
  // Terminal states

  /** Consumed and failed are terminal: once either call has succeeded, the event is gone and
      every later `MarkConsumed` or `MarkFailed` of it fails with "not found" and changes
      nothing. */
  lemma CompletedEventIsGone(s: RepoState, id: string, deliveryKey: Option<string>, now: int,
                             faults: seq<StorageFault>, upsertRows: int, canRetry: (StorageFault, int) -> bool,
                             reason: Reason, fault: StorageFault,
                             key2: Option<string>, now2: int, faults2: seq<StorageFault>, rows2: int, reason2: Reason,
                             fault2: StorageFault)
    requires Inv(s) && s.running.None?
    ensures var c := MarkConsumed(s, id, deliveryKey, now, faults, upsertRows, canRetry);
            c.outcome.Pass? ==>
              && MarkConsumed(c.next, id, key2, now2, faults2, rows2, canRetry) == Run(c.next, Fail(NotFound), 0)
              && MarkFailed(c.next, id, key2, reason2, now2, fault2) == (c.next, Fail(NotFound))
    ensures var f := MarkFailed(s, id, deliveryKey, reason, now, fault);
            f.1.Pass? ==>
              && MarkConsumed(f.0, id, key2, now2, faults2, rows2, canRetry) == Run(f.0, Fail(NotFound), 0)
              && MarkFailed(f.0, id, key2, reason2, now2, fault2) == (f.0, Fail(NotFound))
  {
    MarkConsumedFromIdle(s, id, deliveryKey, now, faults, upsertRows, canRetry);
    MarkFailedFromIdle(s, id, deliveryKey, reason, now, fault);
  }
}
