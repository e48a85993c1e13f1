/** Functional ordering end to end: an ordered subscription with three pending events of one
    functional key is offered only the oldest; once that one is leased and consumed, the next
    poll offers the second and still holds back the third. */
module Scenario {
  import opened Common
  import opened Schema
  import opened Transactions
  import Dialect
  import EventTable
  import Selection
  import Completion

  /** An ordered subscription allowing three deliveries. */
  const Billing: Subscription := Subscription("billing", 3, true)

  /** A pending, unleased event of `Billing` for functional key "cust-1". */
  function Pending(publicationDateUtc: int): SubscriptionEvent
  {
    SubscriptionEvent("billing", "orders", publicationDateUtc, Some("cust-1"), 0, "payload",
                      None, None, 0, None, None, None)
  }

  /** Three such events, published at 1, 2 and 3. */
  const Start: Tables := Tables(map["se1" := Pending(1), "se2" := Pending(2), "se3" := Pending(3)],
                                [], [], map[], map["billing" := Billing])

  /** After the first event is consumed: the other two, and the last consumed date of the key. */
  const AfterFirst: Tables := Tables(map["se2" := Pending(2), "se3" := Pending(3)],
                                     [], [], map[("billing", "cust-1") := 1], map["billing" := Billing])

  /** The first poll offers only the oldest event of the key. */
  lemma FirstPollOffersOldest(now: int)
    ensures Selection.FindConsumableEventsForSubscription(Start, Billing, 10, now)
            == Ok([Selection.Identify("se1", Pending(1))])
  {
    assert Dialect.BufferSize(10, true) == 50;
    assert "se1" in Selection.Candidates(Start, Billing, now);
    Selection.OrderedSingleKeyReturnsEarliest(Start, Billing, 10, now, "se1");
  }

  /** The consumer leases the offered event and consumes it: the row goes, the key's last
      consumed date becomes its publication date. */
  lemma LeaseThenConsume(now: int, consumerKey: string, until: int)
    ensures var lock := EventTable.LockEvent(Start, Selection.Identify("se1", Pending(1)), Some(consumerKey), until, now);
            var consumed := Completion.MarkConsumed(Idle(lock.0), "se1", Some(consumerKey), now, [], 1,
                                                    Dialect.DefaultCanRetry);
            && lock.1
            && consumed.outcome.Pass?
            && consumed.next.db.events == AfterFirst.events
            && consumed.next.db.lastConsumed == AfterFirst.lastConsumed
            && consumed.next.db.subscriptions == AfterFirst.subscriptions
  {
    var lock := EventTable.LockEvent(Start, Selection.Identify("se1", Pending(1)), Some(consumerKey), until, now);
    assert lock.1;
    var leased := lock.0.events["se1"];
    assert lock.0.events == Start.events["se1" := leased];
    ConsumeLeased(lock.0, leased, now, consumerKey);
  }

  /** Consuming the leased first event, by the lease holder, from an idle coordinator. */
  lemma ConsumeLeased(db: Tables, leased: SubscriptionEvent, now: int, consumerKey: string)
    requires db.events == Start.events["se1" := leased]
    requires leased.deliveryKey == Some(consumerKey) && leased.functionalKey == Some("cust-1")
    requires leased.subscriptionId == "billing" && leased.publicationDateUtc == 1
    requires db.lastConsumed == map[] && db.subscriptions == Start.subscriptions
    ensures var consumed := Completion.MarkConsumed(Idle(db), "se1", Some(consumerKey), now, [], 1,
                                                    Dialect.DefaultCanRetry);
            && consumed.outcome.Pass?
            && consumed.next.db.events == AfterFirst.events
            && consumed.next.db.lastConsumed == AfterFirst.lastConsumed
            && consumed.next.db.subscriptions == AfterFirst.subscriptions
  {
    IdleInv(db);
    Completion.LeaseHolderOrExpiredPasses(db, "se1", Some(consumerKey), now);
    Completion.UpsertAcceptedCounts(1);
    Completion.FaultFreeMarkConsumed(Idle(db), "se1", Some(consumerKey), now, 1, Dialect.DefaultCanRetry);
    Completion.MarkConsumedFromIdle(Idle(db), "se1", Some(consumerKey), now, [], 1, Dialect.DefaultCanRetry);
    assert db.events - {"se1"} == AfterFirst.events;
  }

  /** The next poll offers the second event, not the third. */
  lemma SecondPollOffersNext(db: Tables, now: int)
    requires db.events == AfterFirst.events && db.lastConsumed == AfterFirst.lastConsumed
    requires db.subscriptions == AfterFirst.subscriptions
    ensures Selection.FindConsumableEventsForSubscription(db, Billing, 10, now)
            == Ok([Selection.Identify("se2", Pending(2))])
  {
    assert Dialect.BufferSize(10, true) == 50;
    assert "se2" in Selection.Candidates(db, Billing, now);
    Selection.OrderedSingleKeyReturnsEarliest(db, Billing, 10, now, "se2");
  }

  /** The whole sequence: poll, lease, consume, poll. */
  lemma OrderedDeliveryScenario(now: int, consumerKey: string, until: int)
    ensures Selection.FindConsumableEventsForSubscription(Start, Billing, 10, now)
            == Ok([Selection.Identify("se1", Pending(1))])
    ensures var lock := EventTable.LockEvent(Start, Selection.Identify("se1", Pending(1)), Some(consumerKey), until, now);
            var consumed := Completion.MarkConsumed(Idle(lock.0), "se1", Some(consumerKey), now, [], 1,
                                                    Dialect.DefaultCanRetry);
            && lock.1 && consumed.outcome.Pass?
            && Selection.FindConsumableEventsForSubscription(consumed.next.db, Billing, 10, now)
               == Ok([Selection.Identify("se2", Pending(2))])
  {
    FirstPollOffersOldest(now);
    LeaseThenConsume(now, consumerKey, until);
    var lock := EventTable.LockEvent(Start, Selection.Identify("se1", Pending(1)), Some(consumerKey), until, now);
    var consumed := Completion.MarkConsumed(Idle(lock.0), "se1", Some(consumerKey), now, [], 1, Dialect.DefaultCanRetry);
    SecondPollOffersNext(consumed.next.db, now);
  }

  /** The oldest event of the key, delivered at 40 and leased by another consumer until 100. */
  const LeasedOldest: SubscriptionEvent :=
    Pending(1).(deliveryCount := 1, deliveryDateUtc := Some(40), deliveryKey := Some("other"),
                invisibleUntilUtc := Some(100))

  /** Ordering holds only among the events the query can see: while the oldest event of the
      key is leased, the next poll offers the younger one of the same key, although the oldest
      is still pending and precedes it. */
  lemma LeaseDoesNotHoldBackItsKey()
    ensures var db := Tables(map["se1" := LeasedOldest, "se2" := Pending(2)], [], [], map[], map["billing" := Billing]);
            && Selection.Precedes(LeasedOldest, Pending(2))
            && Selection.GroupKey(Selection.Identify("se1", LeasedOldest))
               == Selection.GroupKey(Selection.Identify("se2", Pending(2)))
            && Selection.FindConsumableEventsForSubscription(db, Billing, 10, 50)
               == Ok([Selection.Identify("se2", Pending(2))])
  {
    var db := Tables(map["se1" := LeasedOldest, "se2" := Pending(2)], [], [], map[], map["billing" := Billing]);
    assert Dialect.BufferSize(10, true) == 50;
    assert "se1" !in Selection.Candidates(db, Billing, 50);
    assert "se2" in Selection.Candidates(db, Billing, 50);
    Selection.OrderedSingleKeyReturnsEarliest(db, Billing, 10, 50, "se2");
  }
}
