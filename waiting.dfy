/**
 The wait-time formula of the rate limiter, applied to the running total left
 after expiration. Capacity is what the maximum rate allows over one interval;
 a transfer that would push the total past it waits for the overflow to drain
 at the maximum rate, but never for more than the total currently outstanding.
 */
module Waiting {

  /** The average rate over the window when `total` is outstanding. */
  function Average(total: real, interval: real): (rate: real)
    requires interval > 0.0
    ensures rate * interval == total
    ensures total >= 0.0 ==> rate >= 0.0
  {
    total / interval
  }

  /** Minutes to wait before transferring `size` when `total` is outstanding. */
  function WaitFor(total: real, size: real, maxRate: real, interval: real): (w: real)
    requires maxRate > 0.0
    ensures total >= 0.0 ==> w >= 0.0
  {
    var maxTransfer := maxRate * interval;
    if total + size < maxTransfer then 0.0
    else
      var dataToFill := total + size - maxTransfer;
      var data := if dataToFill > total then total else dataToFill;
      data / maxRate
  }

  /**
   Waiting `w` minutes is enough: in that time `maxRate * w` of the total drains,
   and what is left plus `size` fits in the capacity, or the whole total has drained.
   */
  ghost predicate Drained(total: real, size: real, maxRate: real, interval: real, w: real)
  {
    w >= 0.0 && (total - maxRate * w + size <= maxRate * interval || maxRate * w >= total)
  }

  /** The formula gives the least wait that is enough. */
  lemma WaitIsLeastDrain(total: real, size: real, maxRate: real, interval: real)
    requires maxRate > 0.0 && total >= 0.0
    ensures Drained(total, size, maxRate, interval, WaitFor(total, size, maxRate, interval))
    ensures forall w :: Drained(total, size, maxRate, interval, w) ==>
      WaitFor(total, size, maxRate, interval) <= w
  {
    var wait := WaitFor(total, size, maxRate, interval);
    var capacity := maxRate * interval;
    var overflow := total + size - capacity;
    if total + size >= capacity {
      var data := if overflow > total then total else overflow;
      assert maxRate * wait == data;
      forall w | Drained(total, size, maxRate, interval, w) ensures wait <= w {
        assert maxRate * w >= data;
        assert maxRate * (w - wait) >= 0.0;
      }
    }
  }

  /** The wait is never negative and never longer than draining the whole total. */
  lemma WaitBounds(total: real, size: real, maxRate: real, interval: real)
    requires maxRate > 0.0 && total >= 0.0
    ensures 0.0 <= WaitFor(total, size, maxRate, interval) <= total / maxRate
  {
    var capacity := maxRate * interval;
    if total + size >= capacity {
      var overflow := total + size - capacity;
      var data := if overflow > total then total else overflow;
      assert 0.0 <= data <= total;
      assert data / maxRate <= total / maxRate;
    }
  }

  /**
   There is no wait exactly when the transfer fits in the capacity or nothing is
   outstanding; in particular a transfer larger than the whole capacity does
   not wait when the total is zero.
   */
  lemma WaitZeroIff(total: real, size: real, maxRate: real, interval: real)
    requires maxRate > 0.0 && total >= 0.0
    ensures WaitFor(total, size, maxRate, interval) == 0.0
        <==> total + size <= maxRate * interval || total == 0.0
  {
    var capacity := maxRate * interval;
    if total + size >= capacity {
      var overflow := total + size - capacity;
      var data := if overflow > total then total else overflow;
      assert WaitFor(total, size, maxRate, interval) * maxRate == data;
    }
  }

  /** A larger transfer never waits less. */
  lemma WaitMonotone(total: real, size1: real, size2: real, maxRate: real, interval: real)
    requires maxRate > 0.0 && total >= 0.0 && size1 <= size2
    ensures WaitFor(total, size1, maxRate, interval) <= WaitFor(total, size2, maxRate, interval)
  {
    WaitIsLeastDrain(total, size1, maxRate, interval);
    WaitIsLeastDrain(total, size2, maxRate, interval);
    assert Drained(total, size1, maxRate, interval, WaitFor(total, size2, maxRate, interval));
  }
}
