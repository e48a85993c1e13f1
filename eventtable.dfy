/** The two single-statement writes on the `SubscriptionEvent` table: the insert of
    `AddSubscriptionEvent` and the compare-and-swap update of `TryLockConsumableEvent`. */
module EventTable {
  import opened Common
  import opened Schema

  /** The id `AddSubscriptionEvent` stores the row under: the caller's, else a new Guid. */
  function ChosenId(id: Option<string>, newGuid: string): string
  {
    if id.Some? then id.value else newGuid
  }

  /** The insert of `AddSubscriptionEvent` (:605-628). The delivery columns are never taken
      from the caller: the row is born unleased. An id that is already stored is a primary key
      violation and inserts nothing. */
  function InsertSubscriptionEvent(db: Tables, id: Option<string>, e: SubscriptionEvent, newGuid: string)
    : (r: (Tables, Result<string, RepoError>))
    ensures r.1.Ok? <==> ChosenId(id, newGuid) !in db.events
    ensures r.1.Err? ==> r == (db, Err(DuplicateId))
    ensures r.1.Ok? ==> r.1.value == ChosenId(id, newGuid)
    ensures r.1.Ok? ==> r.0.events.Keys == db.events.Keys + {r.1.value}
    ensures r.1.Ok? ==> forall k :: k in db.events ==> r.0.events[k] == db.events[k]
    ensures r.1.Ok? ==>
              var row := r.0.events[r.1.value];
              && row.deliveryCount == 0 && row.deliveryDateUtc.None? && row.deliveryKey.None?
              && row.invisibleUntilUtc.None?
              && row.subscriptionId == e.subscriptionId && row.topicEventId == e.topicEventId
              && row.publicationDateUtc == e.publicationDateUtc && row.functionalKey == e.functionalKey
              && row.priority == e.priority && row.payloadId == e.payloadId
              && row.expirationDateUtc == e.expirationDateUtc
              && row.deliveryDelayedUntilUtc == e.deliveryDelayedUntilUtc
    ensures r.0.consumed == db.consumed && r.0.failed == db.failed
    ensures r.0.lastConsumed == db.lastConsumed && r.0.subscriptions == db.subscriptions
  {
    var k := ChosenId(id, newGuid);
    if k in db.events then (db, Err(DuplicateId))
    else
      var row := e.(deliveryCount := 0, deliveryDateUtc := None, deliveryKey := None, invisibleUntilUtc := None);
      (db.(events := db.events[k := row]), Ok(k))
  }

  /** The conditional update of `TryLockConsumableEvent` (:681-696): it hits the row with the
      identifier's id only while the row's DeliveryKey is still the identifier's (NULL
      matching NULL), and then takes the lease. */
  function LockEvent(db: Tables, sId: SubscriptionEventIdentifier, deliveryKey: Option<string>,
                     invisibleUntilUtc: int, now: int): (r: (Tables, bool))
    ensures r.1 <==> sId.id in db.events && db.events[sId.id].deliveryKey == sId.deliveryKey
    ensures !r.1 ==> r.0 == db
    ensures r.0.events.Keys == db.events.Keys
    ensures forall k :: k in db.events && k != sId.id ==> r.0.events[k] == db.events[k]
    ensures r.1 ==>
              var before := db.events[sId.id];
              var after := r.0.events[sId.id];
              && after.deliveryKey == deliveryKey && after.deliveryDateUtc == Some(now)
              && after.invisibleUntilUtc == Some(invisibleUntilUtc)
              && after.deliveryCount == before.deliveryCount + 1
              && after == before.(deliveryKey := after.deliveryKey, deliveryDateUtc := after.deliveryDateUtc,
                                  invisibleUntilUtc := after.invisibleUntilUtc, deliveryCount := after.deliveryCount)
    ensures r.0.consumed == db.consumed && r.0.failed == db.failed
    ensures r.0.lastConsumed == db.lastConsumed && r.0.subscriptions == db.subscriptions
  {
    if sId.id in db.events && db.events[sId.id].deliveryKey == sId.deliveryKey then
      var row := db.events[sId.id];
      var leased := row.(deliveryKey := deliveryKey, deliveryDateUtc := Some(now),
                         invisibleUntilUtc := Some(invisibleUntilUtc), deliveryCount := row.deliveryCount + 1);
      (db.(events := db.events[sId.id := leased]), true)
    else (db, false)
  }

  /** Lease exclusivity: of two consumers racing with the same identifier, the second fails
      once the first has changed the key, and the row keeps the first consumer's key. */
  lemma LeaseExclusive(db: Tables, sId: SubscriptionEventIdentifier, key1: Option<string>, key2: Option<string>,
                       until1: int, until2: int, now1: int, now2: int)
    requires key1 != sId.deliveryKey
    ensures var first := LockEvent(db, sId, key1, until1, now1);
            var second := LockEvent(first.0, sId, key2, until2, now2);
            !(first.1 && second.1) &&
            (first.1 ==> second.0 == first.0 && second.0.events[sId.id].deliveryKey == key1)
  {
  }

  /** DeliveryCount never decreases, and increases by exactly one on a successful lease. */
  lemma DeliveryCountMonotone(db: Tables, sId: SubscriptionEventIdentifier, key: Option<string>, until: int, now: int)
    ensures var r := LockEvent(db, sId, key, until, now);
            forall k :: k in db.events ==>
              r.0.events[k].deliveryCount == db.events[k].deliveryCount + (if r.1 && k == sId.id then 1 else 0)
  {
  }

  /** The lease does not look at MaxDeliveries: a row already delivered as often as its
      subscription allows is still leased by a matching compare-and-swap. */
  lemma LeaseIgnoresMaxDeliveries(db: Tables, sId: SubscriptionEventIdentifier, key: Option<string>, until: int, now: int)
    requires sId.id in db.events && db.events[sId.id].deliveryKey == sId.deliveryKey
    requires var sub := db.events[sId.id].subscriptionId;
             sub in db.subscriptions && 0 < db.subscriptions[sub].maxDeliveries <= db.events[sId.id].deliveryCount
    ensures LockEvent(db, sId, key, until, now).1
  {
  }

  /** A freshly inserted event can be leased by a consumer that saw it unleased. */
  lemma InsertedEventIsLeasable(db: Tables, id: Option<string>, e: SubscriptionEvent, newGuid: string,
                                key: Option<string>, until: int, now: int)
    requires ChosenId(id, newGuid) !in db.events
    ensures var ins := InsertSubscriptionEvent(db, id, e, newGuid);
            var sId := SubscriptionEventIdentifier(ins.1.value, None, e.functionalKey, e.payloadId);
            var lock := LockEvent(ins.0, sId, key, until, now);
            lock.1 && lock.0.events[ins.1.value].deliveryCount == 1
  {
  }
}
