/** The tables the consumption engine works on, as values, and the errors its operations
    report. Identifiers are strings; dates are integer instants; a `None` is SQL NULL. */
module Schema {
  import opened Common
  import Transactions

  /** A `SubscriptionEvent` row. Its `Id` is the key under which the row is stored. */
  datatype SubscriptionEvent = SubscriptionEvent(
    subscriptionId: string,
    topicEventId: string,
    publicationDateUtc: int,
    functionalKey: Option<string>,
    priority: int,
    payloadId: string,
    expirationDateUtc: Option<int>,
    deliveryDelayedUntilUtc: Option<int>,
    deliveryCount: int,
    deliveryDateUtc: Option<int>,
    deliveryKey: Option<string>,
    invisibleUntilUtc: Option<int>)

  /** A `ConsumedSubscriptionEvent` ledger row. */
  datatype ConsumedEvent = ConsumedEvent(
    id: string, subscriptionId: string, publicationDateUtc: int, functionalKey: Option<string>,
    priority: int, payloadId: string, deliveryDateUtc: Option<int>, consumedDateUtc: int)

  /** `Reason` of a failed delivery: its type (stored as its integer value) and free text. */
  datatype Reason = Reason(reasonType: int, reasonText: Option<string>)

  /** A `FailedSubscriptionEvent` ledger row. */
  datatype FailedEvent = FailedEvent(
    id: string, subscriptionId: string, publicationDateUtc: int, functionalKey: Option<string>,
    priority: int, payloadId: string, deliveryDateUtc: Option<int>, failedDateUtc: int,
    reason: int, reasonOther: Option<string>)

  /** The delivery settings of a `Subscription` the engine reads. */
  datatype Subscription = Subscription(id: string, maxDeliveries: int, ordered: bool)

  /** `SubscriptionEventIdentifier`: what candidate selection hands to consumers. */
  datatype SubscriptionEventIdentifier = SubscriptionEventIdentifier(
    id: string, deliveryKey: Option<string>, functionalKey: Option<string>, payloadId: string)

  /** The tables: pending subscription events by id, the two append-only ledgers, the last
      consumed publication date by (SubscriptionId, FunctionalKey), and the subscriptions by id. */
  datatype Tables = Tables(
    events: map<string, SubscriptionEvent>,
    consumed: seq<ConsumedEvent>,
    failed: seq<FailedEvent>,
    lastConsumed: map<(string, string), int>,
    subscriptions: map<string, Subscription>)

  /** Which storage statement throws a `DbException` during one attempt, if any. */
  datatype StorageFault = NoFault | BeginFault | DeleteFault | InsertFault | UpsertFault | CommitFault

  datatype RepoError =
    | Tran(tranError: Transactions.TranError)
    | Storage(fault: StorageFault)   // a DbException
    | NotFound                       // no event row has the given id
    | NullDeliveryKey                // the row's DeliveryKey is null: NullReferenceException
    | LockedByOther                  // the lease lapsed and another consumer has re-locked the row
    | ExpiredWhileCompleting         // the lease lapsed during the completion attempt
    | UpsertRejected                 // the last-consumed upsert reported 0 or more than 2 rows
    | DuplicateId                    // the insert hit an existing primary key
    | NegativeLimit                  // the database refuses a negative row limit

  /** The row/ledger state every operation acts on, with the coordinator around it. */
  type RepoState = Transactions.Session<Tables>
}
