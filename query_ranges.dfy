/** The time bounds of the timeline queries: an interval in epoch milliseconds becomes a
    half-open range of epoch seconds, widened so that it is never empty. */
module QueryRanges {

  /** Java's long division by 1000, which truncates toward zero (getStartMillis() / 1000). */
  function MillisToSeconds(millis: int): (r: int)
    ensures millis >= 0 ==> 0 <= millis - 1000 * r < 1000
    ensures millis < 0 ==> -1000 < millis - 1000 * r <= 0
  {
    if millis >= 0 then millis / 1000 else -((-millis) / 1000)
  }

  lemma MillisToSecondsMonotonic(a: int, b: int)
    requires a <= b
    ensures MillisToSeconds(a) <= MillisToSeconds(b)
  {
    if a < 0 && b < 0 {
      assert (-b) / 1000 <= (-a) / 1000;
    } else if a >= 0 {
      assert a / 1000 <= b / 1000;
    }
  }

  /** The end bound of getEventIDs, getCombinedEvents and countEventsByType: equal bounds
      are widened by one second. */
  function WidenEqualEnd(start: int, end: int): (r: int)
    ensures start <= end ==> start < r
    ensures start != end ==> r == end
    ensures r <= end + 1
  {
    if start == end then end + 1 else end
  }

  /** The end bound of getEventStripes: Math.max(end, start + 1). */
  function WidenStripeEnd(start: int, end: int): (r: int)
    ensures start < r && end <= r
    ensures start < end ==> r == end
  {
    if end >= start + 1 then end else start + 1
  }

  /** On a well-formed range the two widenings agree. */
  lemma WideningsAgree(start: int, end: int)
    requires start <= end
    ensures WidenEqualEnd(start, end) == WidenStripeEnd(start, end)
  {
  }

  /** The second bounds [start, end) that getEventIDs and getCombinedEvents query for an
      interval given in milliseconds. */
  function QueryBounds(startMillis: int, endMillis: int): (r: (int, int))
    ensures startMillis <= endMillis ==> r.0 < r.1
    ensures r.0 == MillisToSeconds(startMillis)
  {
    var start := MillisToSeconds(startMillis);
    var end := MillisToSeconds(endMillis);
    assert startMillis <= endMillis ==> start <= end by {
      if startMillis <= endMillis { MillisToSecondsMonotonic(startMillis, endMillis); }
    }
    (start, WidenEqualEnd(start, end))
  }

  /** A zero-width interval at a whole second t queries the same range as [t, t + 1s). */
  lemma ZeroWidthQueriesOneSecond(t: int)
    ensures QueryBounds(t * 1000, t * 1000) == QueryBounds(t * 1000, (t + 1) * 1000)
    ensures QueryBounds(t * 1000, t * 1000) == (t, t + 1)
  {
    if t < 0 {
      assert (-(t * 1000)) / 1000 == -t;
      if t + 1 < 0 {
        assert (-((t + 1) * 1000)) / 1000 == -(t + 1);
      }
    } else {
      assert (t * 1000) / 1000 == t;
      assert ((t + 1) * 1000) / 1000 == t + 1;
    }
  }
}
