/** The backend-specific hooks of `DbEventingRepo`: the result-set limiting clause and where
    it goes in a query, retry classification, and the buffer size that candidate selection
    asks the limit for. */
module Dialect {
  import opened Common
  import opened Schema

  /** `ResultsetLimitQueryPart`: the clause text, and whether it goes right after SELECT. */
  datatype ResultsetLimitQueryPart = ResultsetLimitQueryPart(queryPart: string, inSelector: bool)

  /** The default `GetQueryPart_ResultsetLimit`: "TOP {limit}" right after the selector. */
  function DefaultResultsetLimit(limit: int): (p: ResultsetLimitQueryPart)
    ensures p.inSelector
    ensures |p.queryPart| > 4 && p.queryPart[..4] == "TOP " && p.queryPart[4..] == DecimalString(limit)
  {
    ResultsetLimitQueryPart("TOP " + DecimalString(limit), true)
  }

  /** The selector part and the end part of the query (:702-704): the clause lands in
      exactly one of them, and the other is empty. */
  function PlaceLimit(p: ResultsetLimitQueryPart): (r: (string, string))
    ensures r.0 + r.1 == p.queryPart
    ensures p.inSelector ==> r == (p.queryPart, "")
    ensures !p.inSelector ==> r == ("", p.queryPart)
  {
    (if p.inSelector then p.queryPart else "", if !p.inSelector then p.queryPart else "")
  }

  /** The default `CanRetry`: no storage error is worth a retry. */
  function DefaultCanRetry(fault: StorageFault, attempts: int): (r: bool)
    ensures !r
  {
    false
  }

  /** `bufferSize` of `FindConsumableEventsForSubscription` (:700): `maxCount`, or five times
      `maxCount` in unchecked 32-bit arithmetic for an ordered subscription. */
  function BufferSize(maxCount: int, ordered: bool): (r: int)
    requires IsInt32(maxCount)
    ensures IsInt32(r)
    ensures !ordered ==> r == maxCount
    ensures ordered && IsInt32(5 * maxCount) ==> r == 5 * maxCount
    ensures ordered ==> (5 * maxCount - r) % 0x1_0000_0000 == 0
  {
    if ordered then Wrap32(maxCount * 5) else maxCount
  }

  /** Five times a count that is too large wraps around to a negative buffer size. */
  lemma BufferSizeWraps()
    ensures BufferSize(500_000_000, true) == -1_794_967_296
  {
  }
}
