/** Candidate selection, `FindConsumableEventsForSubscription` (:698-765): the query's filter,
    order and row limit (the relational meaning of the SQL text), and the grouping by
    functional key that follows it for an ordered subscription. */
module Selection {
  import opened Common
  import opened Schema
  import Dialect
  import EventTable

  predicate NullOrBefore(t: Option<int>, now: int)
  {
    t.None? || t.value < now
  }

  predicate NullOrAfter(t: Option<int>, now: int)
  {
    t.None? || t.value > now
  }

  /** The left join on LastConsumedSubscriptionEvent (:724-725, :731): no row for the event's
      (SubscriptionId, FunctionalKey), or one published strictly earlier. A NULL key joins
      nothing. */
  predicate NewerThanLastConsumed(lastConsumed: map<(string, string), int>, e: SubscriptionEvent)
  {
    || e.functionalKey.None?
    || (e.subscriptionId, e.functionalKey.value) !in lastConsumed
    || lastConsumed[(e.subscriptionId, e.functionalKey.value)] < e.publicationDateUtc
  }

  /** Every condition of the WHERE clause but the lease (:710-715, :723-731). The joined
      Subscription row supplies MaxDeliveries; the caller's subscription supplies Ordered. */
  predicate Selectable(db: Tables, subscription: Subscription, e: SubscriptionEvent, now: int)
  {
    && e.subscriptionId == subscription.id
    && e.subscriptionId in db.subscriptions
    && NullOrBefore(e.deliveryDelayedUntilUtc, now)
    && NullOrAfter(e.expirationDateUtc, now)
    && (db.subscriptions[e.subscriptionId].maxDeliveries == 0
        || db.subscriptions[e.subscriptionId].maxDeliveries > e.deliveryCount)
    && (subscription.ordered ==> NewerThanLastConsumed(db.lastConsumed, e))
  }

  /** The whole WHERE clause: selectable and not made invisible by a lease (:714, :729). */
  predicate Eligible(db: Tables, subscription: Subscription, e: SubscriptionEvent, now: int)
  {
    Selectable(db, subscription, e, now) && NullOrBefore(e.invisibleUntilUtc, now)
  }

  ghost function Candidates(db: Tables, subscription: Subscription, now: int): (c: set<string>)
    ensures c <= db.events.Keys
    ensures forall k :: k in c <==> k in db.events && Eligible(db, subscription, db.events[k], now)
  {
    set k | k in db.events && Eligible(db, subscription, db.events[k], now)
  }

  /** `a` sorts strictly before `b` under "order by Priority DESC, PublicationDateUtc ASC". */
  predicate Precedes(a: SubscriptionEvent, b: SubscriptionEvent)
  {
    a.priority > b.priority || (a.priority == b.priority && a.publicationDateUtc < b.publicationDateUtc)
  }

  ghost predicate InDeliveryOrder(events: map<string, SubscriptionEvent>, ids: seq<string>)
    requires forall i :: 0 <= i < |ids| ==> ids[i] in events
  {
    forall i, j :: 0 <= i < j < |ids| ==> !Precedes(events[ids[j]], events[ids[i]])
  }

  lemma {:induction false} MinimalExists(events: map<string, SubscriptionEvent>, ids: set<string>)
    requires ids != {} && ids <= events.Keys
    ensures exists m :: m in ids && forall y :: y in ids ==> !Precedes(events[y], events[m])
    decreases |ids|
  {
    var x :| x in ids;
    if ids != {x} {
      MinimalExists(events, ids - {x});
      var m :| m in ids - {x} && forall y :: y in ids - {x} ==> !Precedes(events[y], events[m]);
      if Precedes(events[x], events[m]) {
        assert forall y :: y in ids ==> !Precedes(events[y], events[x]);
      } else {
        assert forall y :: y in ids ==> !Precedes(events[y], events[m]);
      }
    } else {
      assert forall y :: y in ids ==> y == x;
    }
  }

  /** The ids in delivery order. Rows that tie on both sort columns come in an unspecified
      order, as they do from the database. */
  ghost function Sorted(events: map<string, SubscriptionEvent>, ids: set<string>): (r: seq<string>)
    requires ids <= events.Keys
    ensures |r| == |ids|
    ensures forall k :: k in r <==> k in ids
    ensures forall i, j :: 0 <= i < j < |r| ==> r[i] != r[j]
    ensures forall i :: 0 <= i < |r| ==> r[i] in events
    ensures InDeliveryOrder(events, r)
    decreases |ids|
  {
    if ids == {} then []
    else
      MinimalExists(events, ids);
      var m :| m in ids && forall y :: y in ids ==> !Precedes(events[y], events[m]);
      var rest := Sorted(events, ids - {m});
      MinimalFirst(events, ids, m, rest);
      [m] + rest
  }

  /** Putting a minimal id in front of the others in delivery order keeps delivery order. */
  lemma MinimalFirst(events: map<string, SubscriptionEvent>, ids: set<string>, m: string, rest: seq<string>)
    requires ids <= events.Keys && m in ids
    requires forall y :: y in ids ==> !Precedes(events[y], events[m])
    requires |rest| == |ids - {m}|
    requires forall k :: k in rest <==> k in ids - {m}
    requires forall i, j :: 0 <= i < j < |rest| ==> rest[i] != rest[j]
    requires forall i :: 0 <= i < |rest| ==> rest[i] in events
    requires InDeliveryOrder(events, rest)
    ensures |[m] + rest| == |ids|
    ensures forall k :: k in [m] + rest <==> k in ids
    ensures forall i, j :: 0 <= i < j < |[m] + rest| ==> ([m] + rest)[i] != ([m] + rest)[j]
    ensures forall i :: 0 <= i < |[m] + rest| ==> ([m] + rest)[i] in events
    ensures InDeliveryOrder(events, [m] + rest)
  {
    var r := [m] + rest;
    assert ids == (ids - {m}) + {m};
    forall i, j | 0 <= i < j < |r|
      ensures r[i] != r[j] && !Precedes(events[r[j]], events[r[i]])
    {
      assert r[j] == rest[j - 1];
      if i > 0 {
        assert r[i] == rest[i - 1];
      } else {
        assert rest[j - 1] in rest;
      }
    }
  }

  function Identify(id: string, e: SubscriptionEvent): SubscriptionEventIdentifier
  {
    SubscriptionEventIdentifier(id, e.deliveryKey, e.functionalKey, e.payloadId)
  }

  /** All candidates in delivery order. */
  ghost function Ranked(db: Tables, subscription: Subscription, now: int): (order: seq<string>)
    ensures forall i :: 0 <= i < |order| ==>
              order[i] in db.events && Eligible(db, subscription, db.events[order[i]], now)
    ensures forall k :: k in Candidates(db, subscription, now) ==> k in order
    ensures forall i, j :: 0 <= i < j < |order| ==>
              order[i] != order[j] && !Precedes(db.events[order[j]], db.events[order[i]])
  {
    Sorted(db.events, Candidates(db, subscription, now))
  }

  /** The rows the query returns: the first `limit` candidates in delivery order. Where the
      dialect puts its limit clause does not change this. */
  ghost function Fetch(db: Tables, subscription: Subscription, limit: nat, now: int): (r: seq<SubscriptionEventIdentifier>)
    ensures |r| == if limit < |Ranked(db, subscription, now)| then limit else |Ranked(db, subscription, now)|
    ensures forall i :: 0 <= i < |r| ==>
              r[i] == Identify(Ranked(db, subscription, now)[i], db.events[Ranked(db, subscription, now)[i]])
  {
    var order := Ranked(db, subscription, now);
    var n := if limit < |order| then limit else |order|;
    seq(n, i requires 0 <= i < n => Identify(order[i], db.events[order[i]]))
  }

  /** Some identifier in `r` names the row `k`. */
  predicate Returned(r: seq<SubscriptionEventIdentifier>, k: string)
  {
    exists j :: 0 <= j < |r| && r[j].id == k
  }

  /** The query returns at most `limit` identifiers, each of an eligible row. */
  lemma FetchEligible(db: Tables, subscription: Subscription, limit: nat, now: int)
    ensures var r := Fetch(db, subscription, limit, now);
            && |r| <= limit
            && (forall i :: 0 <= i < |r| ==>
                  r[i].id in db.events && Eligible(db, subscription, db.events[r[i].id], now)
                  && r[i] == Identify(r[i].id, db.events[r[i].id]))
  {
    var order := Ranked(db, subscription, now);
    var r := Fetch(db, subscription, limit, now);
    forall i | 0 <= i < |r|
      ensures r[i].id == order[i]
    {
    }
  }

  /** The query returns each row once, ordered by priority descending, then publication date
      ascending. */
  lemma FetchOrdered(db: Tables, subscription: Subscription, limit: nat, now: int)
    ensures var r := Fetch(db, subscription, limit, now);
            forall i, j :: 0 <= i < j < |r| ==>
              r[i].id != r[j].id && r[i].id in db.events && r[j].id in db.events &&
              !Precedes(db.events[r[j].id], db.events[r[i].id])
  {
    var order := Ranked(db, subscription, now);
    var r := Fetch(db, subscription, limit, now);
    forall i | 0 <= i < |r|
      ensures r[i].id == order[i]
    {
    }
  }

  /** The limit cuts the sorted candidates: no left-out candidate sorts before a returned
      row, and when fewer than `limit` rows come back, every candidate came back. */
  lemma FetchIsPrefix(db: Tables, subscription: Subscription, limit: nat, now: int)
    ensures var r := Fetch(db, subscription, limit, now);
            && (forall k, i :: (k in Candidates(db, subscription, now) && 0 <= i < |r| && r[i].id in db.events
                                && Precedes(db.events[k], db.events[r[i].id])) ==> Returned(r, k))
            && (|r| < limit ==> forall k :: k in Candidates(db, subscription, now) ==> Returned(r, k))
  {
    var order := Ranked(db, subscription, now);
    var r := Fetch(db, subscription, limit, now);
    var n := |r|;
    forall i | 0 <= i < n
      ensures r[i].id == order[i]
    {
    }
    forall k, i | k in Candidates(db, subscription, now) && 0 <= i < n && r[i].id in db.events
                  && Precedes(db.events[k], db.events[r[i].id])
      ensures Returned(r, k)
    {
      var p :| 0 <= p < |order| && order[p] == k;
      if n <= p {
        assert false;
      }
      assert r[p].id == k;
    }
    if n < limit {
      forall k | k in Candidates(db, subscription, now)
        ensures Returned(r, k)
      {
        var p :| 0 <= p < |order| && order[p] == k;
        assert r[p].id == k;
      }
    }
  }

  // ---------------------------------------------------------------------------------------
  // Grouping of an ordered subscription's buffer (:743-762)

  /** The grouping key: the lower-cased functional key; all NULL keys form one group. */
  function GroupKey(x: SubscriptionEventIdentifier): Option<string>
  {
    if x.functionalKey.Some? then Some(Lower(x.functionalKey.value)) else None
  }

  /** `b[j]` is the first element of its group in `b`. */
  predicate FirstOfGroup(b: seq<SubscriptionEventIdentifier>, j: int)
    requires 0 <= j < |b|
  {
    forall k :: 0 <= k < j ==> GroupKey(b[k]) != GroupKey(b[j])
  }

  /** The positions `GroupBy(...).Select(g => g.First())` keeps in `b[..n]`: one per group,
      that group's first position, in order of first appearance. */
  function FirstIndices(b: seq<SubscriptionEventIdentifier>, n: nat): (idx: seq<nat>)
    requires n <= |b|
    ensures forall i :: 0 <= i < |idx| ==> idx[i] < n && FirstOfGroup(b, idx[i])
    ensures forall i, j :: 0 <= i < j < |idx| ==> idx[i] < idx[j]
    ensures forall j :: 0 <= j < n && FirstOfGroup(b, j) ==> j in idx
  {
    if n == 0 then []
    else FirstIndices(b, n - 1) + (if FirstOfGroup(b, n - 1) then [n - 1] else [])
  }

  /** `GroupBy` on the grouping key followed by `Select(g => g.First())`. */
  function FirstOfEachKey(b: seq<SubscriptionEventIdentifier>): (r: seq<SubscriptionEventIdentifier>)
    ensures |r| == |FirstIndices(b, |b|)|
    ensures forall i :: 0 <= i < |r| ==> r[i] == b[FirstIndices(b, |b|)[i]]
    ensures forall i, j :: 0 <= i < j < |r| ==> GroupKey(r[i]) != GroupKey(r[j])
    ensures forall j :: 0 <= j < |b| ==> exists i :: 0 <= i < |r| && GroupKey(r[i]) == GroupKey(b[j])
  {
    var idx := FirstIndices(b, |b|);
    var r := seq(|idx|, i requires 0 <= i < |idx| => b[idx[i]]);
    forall j | 0 <= j < |b|
      ensures exists i :: 0 <= i < |r| && GroupKey(r[i]) == GroupKey(b[j])
    {
      FirstOfGroupExists(b, j);
      var f :| 0 <= f <= j && FirstOfGroup(b, f) && GroupKey(b[f]) == GroupKey(b[j]);
      var i :| 0 <= i < |idx| && idx[i] == f;
      assert GroupKey(r[i]) == GroupKey(b[j]);
    }
    r
  }

  /** Every element's group has a first element at or before it. */
  lemma {:induction false} FirstOfGroupExists(b: seq<SubscriptionEventIdentifier>, j: int)
    requires 0 <= j < |b|
    ensures exists f :: 0 <= f <= j && FirstOfGroup(b, f) && GroupKey(b[f]) == GroupKey(b[j])
    decreases j
  {
    if !FirstOfGroup(b, j) {
      var k :| 0 <= k < j && GroupKey(b[k]) == GroupKey(b[j]);
      FirstOfGroupExists(b, k);
    }
  }

  /** LINQ `Take(n)`: nothing for n <= 0, else the first n elements. */
  function Take<T>(s: seq<T>, n: int): (r: seq<T>)
    ensures |r| <= |s| && (n <= 0 ==> r == []) && (n > 0 ==> |r| == if n < |s| then n else |s|)
    ensures r == s[..|r|]
  {
    if n <= 0 then [] else if n < |s| then s[..n] else s
  }

  /** `FindConsumableEventsForSubscription` at instant `now`. A negative buffer size makes
      the database refuse the query. */
  ghost function FindConsumableEventsForSubscription(db: Tables, subscription: Subscription, maxCount: int, now: int)
    : (r: Result<seq<SubscriptionEventIdentifier>, RepoError>)
    requires IsInt32(maxCount)
    ensures r.Err? <==> Dialect.BufferSize(maxCount, subscription.ordered) < 0
    ensures r.Err? ==> r.error == NegativeLimit
    ensures r.Ok? ==> |r.value| <= if maxCount < 0 then 0 else maxCount
  {
    var bufferSize := Dialect.BufferSize(maxCount, subscription.ordered);
    if bufferSize < 0 then Err(NegativeLimit)
    else
      var fetched := Fetch(db, subscription, bufferSize, now);
      if subscription.ordered then Ok(Take(FirstOfEachKey(fetched), maxCount)) else Ok(fetched)
  }

  // ---------------------------------------------------------------------------------------
  // What candidate selection promises

  /** The query is refused exactly when the buffer size is negative; otherwise at most
      `maxCount` identifiers come back (none for a `maxCount` of zero or less), each for an
      eligible row of the subscription (for an ordered subscription: not yet superseded by
      its key's last consumed event). */
  lemma FindReturnsEligible(db: Tables, subscription: Subscription, maxCount: int, now: int)
    requires IsInt32(maxCount)
    ensures var r := FindConsumableEventsForSubscription(db, subscription, maxCount, now);
            && (r.Err? <==> Dialect.BufferSize(maxCount, subscription.ordered) < 0)
            && (r.Ok? ==> if maxCount <= 0 then r.value == [] else |r.value| <= maxCount)
            && (r.Ok? ==> forall i :: 0 <= i < |r.value| ==>
                  var e := db.events[r.value[i].id];
                  && r.value[i].id in db.events && r.value[i] == Identify(r.value[i].id, e)
                  && e.subscriptionId == subscription.id
                  && NullOrBefore(e.deliveryDelayedUntilUtc, now)
                  && NullOrAfter(e.expirationDateUtc, now)
                  && NullOrBefore(e.invisibleUntilUtc, now)
                  && (db.subscriptions[subscription.id].maxDeliveries == 0
                      || e.deliveryCount < db.subscriptions[subscription.id].maxDeliveries)
                  && (subscription.ordered ==> NewerThanLastConsumed(db.lastConsumed, e)))
  {
    var bufferSize := Dialect.BufferSize(maxCount, subscription.ordered);
    if bufferSize >= 0 {
      var fetched := Fetch(db, subscription, bufferSize, now);
      FetchEligible(db, subscription, bufferSize, now);
      if subscription.ordered {
        OrderedKeepsFirstOfEachKey(db, subscription, maxCount, now);
      }
    }
  }

  /** Unordered subscriptions get the query's rows as they are: sorted by priority
      descending then publication date ascending, at most `maxCount`, no eligible row that
      sorts before a returned one is left out, and a short result holds every candidate. */
  lemma UnorderedIsSortedPrefix(db: Tables, subscription: Subscription, maxCount: int, now: int)
    requires IsInt32(maxCount) && maxCount >= 0 && !subscription.ordered
    ensures var r := FindConsumableEventsForSubscription(db, subscription, maxCount, now);
            && r.Ok? && |r.value| <= maxCount
            && (forall i :: 0 <= i < |r.value| ==> r.value[i].id in db.events)
            && (forall i, j :: 0 <= i < j < |r.value| ==>
                  r.value[i].id != r.value[j].id
                  && !Precedes(db.events[r.value[j].id], db.events[r.value[i].id]))
            && (forall k, i :: (k in Candidates(db, subscription, now) && 0 <= i < |r.value| &&
                                Precedes(db.events[k], db.events[r.value[i].id])) ==> Returned(r.value, k))
            && (|r.value| < maxCount ==> forall k :: k in Candidates(db, subscription, now) ==> Returned(r.value, k))
  {
    FetchEligible(db, subscription, maxCount, now);
    FetchOrdered(db, subscription, maxCount, now);
    FetchIsPrefix(db, subscription, maxCount, now);
  }

  /** Ordered subscriptions: the buffer is five times `maxCount` (wrapping as a 32-bit int),
      and the result holds at most `maxCount` events (none for zero or less) with pairwise
      different grouping keys, each the first of its group in the buffer, in the order the
      groups first appear. */
  lemma OrderedKeepsFirstOfEachKey(db: Tables, subscription: Subscription, maxCount: int, now: int)
    requires IsInt32(maxCount) && subscription.ordered
    requires Dialect.BufferSize(maxCount, true) >= 0
    ensures var buffer := Fetch(db, subscription, Dialect.BufferSize(maxCount, true), now);
            var idx := FirstIndices(buffer, |buffer|);
            var r := FindConsumableEventsForSubscription(db, subscription, maxCount, now);
            && r.Ok? && |r.value| <= |idx|
            && (if maxCount <= 0 then r.value == [] else |r.value| == if maxCount < |idx| then maxCount else |idx|)
            && (forall i :: 0 <= i < |r.value| ==>
                  idx[i] < |buffer| && r.value[i] == buffer[idx[i]] && FirstOfGroup(buffer, idx[i]))
            && (forall i, j :: 0 <= i < j < |r.value| ==> idx[i] < idx[j] && GroupKey(r.value[i]) != GroupKey(r.value[j]))
  {
    var buffer := Fetch(db, subscription, Dialect.BufferSize(maxCount, true), now);
    assert FindConsumableEventsForSubscription(db, subscription, maxCount, now) == Ok(Take(FirstOfEachKey(buffer), maxCount));
    TakeFirstOfEachKey(buffer, maxCount);
  }

  /** `Take(n)` after the grouping, on any buffer. */
  lemma TakeFirstOfEachKey(buffer: seq<SubscriptionEventIdentifier>, n: int)
    ensures var idx := FirstIndices(buffer, |buffer|);
            var r := Take(FirstOfEachKey(buffer), n);
            && |r| <= |idx|
            && (if n <= 0 then r == [] else |r| == if n < |idx| then n else |idx|)
            && (forall i :: 0 <= i < |r| ==> idx[i] < |buffer| && r[i] == buffer[idx[i]] && FirstOfGroup(buffer, idx[i]))
            && (forall i, j :: 0 <= i < j < |r| ==> idx[i] < idx[j] && GroupKey(r[i]) != GroupKey(r[j]))
  {
    var firsts := FirstOfEachKey(buffer);
    var r := Take(firsts, n);
    forall i | 0 <= i < |r|
      ensures r[i] == firsts[i]
    {
    }
  }

  /** A candidate of the buffer that some candidate of its group sorts strictly before is
      not the first of its group there. */
  lemma BufferKeepsOrder(db: Tables, subscription: Subscription, limit: nat, now: int, k1: string, k2: string)
    requires k1 in Candidates(db, subscription, now) && k2 in db.events
    requires GroupKey(Identify(k1, db.events[k1])) == GroupKey(Identify(k2, db.events[k2]))
    requires Precedes(db.events[k1], db.events[k2])
    ensures var buffer := Fetch(db, subscription, limit, now);
            forall p :: 0 <= p < |buffer| && buffer[p].id == k2 ==> !FirstOfGroup(buffer, p)
  {
    var order := Ranked(db, subscription, now);
    var buffer := Fetch(db, subscription, limit, now);
    var q :| 0 <= q < |order| && order[q] == k1;
    forall p | 0 <= p < |buffer| && buffer[p].id == k2
      ensures !FirstOfGroup(buffer, p)
    {
      assert order[p] == k2;
      if p <= q {
        assert false;
      }
      assert buffer[q] == Identify(k1, db.events[k1]);
      assert GroupKey(buffer[q]) == GroupKey(buffer[p]);
    }
  }

  /** Per-key ordering as far as the code provides it: for two eligible events of one group,
      the one that sorts strictly first is the one an ordered subscription may return; the
      other is never returned beside or instead of it. With equal priorities that is the
      older one; a higher priority lets a newer event overtake an older one. */
  lemma OrderedEarliestOfKeyWins(db: Tables, subscription: Subscription, maxCount: int, now: int,
                                 k1: string, k2: string)
    requires IsInt32(maxCount) && subscription.ordered
    requires k1 in Candidates(db, subscription, now) && k2 in Candidates(db, subscription, now)
    requires GroupKey(Identify(k1, db.events[k1])) == GroupKey(Identify(k2, db.events[k2]))
    requires Precedes(db.events[k1], db.events[k2])
    ensures var r := FindConsumableEventsForSubscription(db, subscription, maxCount, now);
            r.Ok? ==> !Returned(r.value, k2)
  {
    var bufferSize := Dialect.BufferSize(maxCount, true);
    if bufferSize >= 0 {
      OrderedKeepsFirstOfEachKey(db, subscription, maxCount, now);
      BufferKeepsOrder(db, subscription, bufferSize, now, k1, k2);
    }
  }

  /** Some candidate is always offered: while there is a candidate, an ordered
      subscription asked for at least one event with a positive buffer size gets one. */
  lemma OrderedOffersSomeCandidate(db: Tables, subscription: Subscription, maxCount: int, now: int)
    requires IsInt32(maxCount) && subscription.ordered && maxCount > 0
    requires Dialect.BufferSize(maxCount, true) > 0
    requires Candidates(db, subscription, now) != {}
    ensures var r := FindConsumableEventsForSubscription(db, subscription, maxCount, now);
            r.Ok? && |r.value| > 0
  {
    var k :| k in Candidates(db, subscription, now);
    var buffer := Fetch(db, subscription, Dialect.BufferSize(maxCount, true), now);
    OrderedKeepsFirstOfEachKey(db, subscription, maxCount, now);
    assert k in Ranked(db, subscription, now);
    assert |buffer| > 0 && FirstOfGroup(buffer, 0);
    assert 0 in FirstIndices(buffer, |buffer|);
  }

  /** When every other candidate shares the grouping key of `k1` and sorts after it, an
      ordered subscription gets exactly `k1`. */
  lemma OrderedSingleKeyReturnsEarliest(db: Tables, subscription: Subscription, maxCount: int, now: int, k1: string)
    requires IsInt32(maxCount) && subscription.ordered && maxCount > 0
    requires Dialect.BufferSize(maxCount, true) > 0
    requires k1 in Candidates(db, subscription, now)
    requires forall k :: k in Candidates(db, subscription, now) && k != k1 ==>
               GroupKey(Identify(k, db.events[k])) == GroupKey(Identify(k1, db.events[k1])) &&
               Precedes(db.events[k1], db.events[k])
    ensures FindConsumableEventsForSubscription(db, subscription, maxCount, now) == Ok([Identify(k1, db.events[k1])])
  {
    var r := FindConsumableEventsForSubscription(db, subscription, maxCount, now);
    OnlyEarliestOfSingleKey(db, subscription, maxCount, now, k1);
    OrderedOffersSomeCandidate(db, subscription, maxCount, now);
    var x := Identify(k1, db.events[k1]);
    var buffer := Fetch(db, subscription, Dialect.BufferSize(maxCount, true), now);
    FetchEligible(db, subscription, Dialect.BufferSize(maxCount, true), now);
    OrderedKeepsFirstOfEachKey(db, subscription, maxCount, now);
    forall i | 0 <= i < |buffer|
      ensures GroupKey(buffer[i]) == GroupKey(x)
    {
      assert buffer[i].id in Candidates(db, subscription, now);
    }
    FirstIndicesOfOneKey(buffer, |buffer|);
    assert r.value == [x];
  }

  /** In a buffer whose elements all share one grouping key, only the first position is the
      first of its group. */
  lemma {:induction false} FirstIndicesOfOneKey(b: seq<SubscriptionEventIdentifier>, n: nat)
    requires 1 <= n <= |b|
    requires forall i :: 0 <= i < |b| ==> GroupKey(b[i]) == GroupKey(b[0])
    ensures FirstIndices(b, n) == [0]
    decreases n
  {
    if n > 1 {
      FirstIndicesOfOneKey(b, n - 1);
      assert GroupKey(b[0]) == GroupKey(b[n - 1]);
    }
  }

  /** The events an ordered subscription gets have pairwise different grouping keys. */
  lemma OrderedDistinctKeys(db: Tables, subscription: Subscription, maxCount: int, now: int)
    requires IsInt32(maxCount) && subscription.ordered
    ensures var r := FindConsumableEventsForSubscription(db, subscription, maxCount, now);
            r.Ok? ==> forall i, j :: 0 <= i < j < |r.value| ==> GroupKey(r.value[i]) != GroupKey(r.value[j])
  {
    if Dialect.BufferSize(maxCount, true) >= 0 {
      OrderedKeepsFirstOfEachKey(db, subscription, maxCount, now);
    }
  }

  /** Under the hypotheses of `OrderedSingleKeyReturnsEarliest`, nothing but `k1` is returned. */
  lemma OnlyEarliestOfSingleKey(db: Tables, subscription: Subscription, maxCount: int, now: int, k1: string)
    requires IsInt32(maxCount) && subscription.ordered
    requires k1 in Candidates(db, subscription, now)
    requires forall k :: k in Candidates(db, subscription, now) && k != k1 ==>
               GroupKey(Identify(k, db.events[k])) == GroupKey(Identify(k1, db.events[k1])) &&
               Precedes(db.events[k1], db.events[k])
    ensures var r := FindConsumableEventsForSubscription(db, subscription, maxCount, now);
            r.Ok? ==> forall i :: 0 <= i < |r.value| ==> r.value[i] == Identify(k1, db.events[k1])
  {
    var r := FindConsumableEventsForSubscription(db, subscription, maxCount, now);
    if r.Ok? {
      FindReturnsEligible(db, subscription, maxCount, now);
      forall k | k in Candidates(db, subscription, now) && k != k1
        ensures !Returned(r.value, k)
      {
        OrderedEarliestOfKeyWins(db, subscription, maxCount, now, k1, k);
      }
      forall i | 0 <= i < |r.value|
        ensures r.value[i] == Identify(k1, db.events[k1])
      {
        assert Returned(r.value, r.value[i].id);
      }
    }
  }

  /** While its lease lasts, a leased event is not a candidate; once `InvisibleUntilUtc` has
      passed it is one again exactly when it is otherwise selectable with its delivery count
      raised by the lease. */
  lemma LeaseHidesUntilItExpires(db: Tables, sId: SubscriptionEventIdentifier, key: Option<string>,
                                 until: int, now: int, subscription: Subscription, later: int)
    requires EventTable.LockEvent(db, sId, key, until, now).1
    ensures var after := EventTable.LockEvent(db, sId, key, until, now).0;
            var before := db.events[sId.id];
            && (later <= until ==> sId.id !in Candidates(after, subscription, later))
            && (later > until ==>
                  (sId.id in Candidates(after, subscription, later) <==>
                   Selectable(db, subscription, before.(deliveryCount := before.deliveryCount + 1), later)))
  {
  }
}
