/**
 The rate limiter object. It keeps a time-ordered queue of transfer events and
 a running total of the amounts still counted in the window, and updates both
 in place. The clock is not read here: every operation takes the current time
 `now` in minutes, and Transfer also takes `later`, the time after its wait.
 */
module Limiter {
  import opened Events
  import opened Expiry
  import opened Waiting

  /**
   Partway through the pass the queue is the part of the original queue not
   visited yet, followed by the residuals appended so far. An expired front is
   then the next original event, and taking it off and appending its residual
   keeps that shape.
   */
  lemma ShiftFront(q: seq<Event>, k: nat, carried: seq<Event>, res: seq<Event>, expireTime: real)
    requires k <= |q| && Later(carried, expireTime) && q[k..] + carried != []
    ensures (q[k..] + carried)[0].time <= expireTime ==>
      && k < |q| && (q[k..] + carried)[0] == q[k]
      && (q[k..] + carried)[1..] + res == q[k + 1..] + (carried + res)
    ensures |q[k..] + carried| == 1 && k < |q| ==> carried == [] && k + 1 == |q|
  {
    if k < |q| {
      assert (q[k..] + carried)[1..] == q[k + 1..] + carried;
    } else {
      assert q[k..] + carried == carried;
    }
  }

  /** Appending residuals that are live keeps every appended event live. */
  lemma LaterAppend(carried: seq<Event>, res: seq<Event>, expireTime: real)
    requires Later(carried, expireTime) && Later(res, expireTime)
    ensures Later(carried + res, expireTime)
  {
    var r := carried + res;
    assert forall i :: 0 <= i < |r| ==> r[i] == if i < |carried| then carried[i] else res[i - |carried|];
  }

  /** What the expiration pass keeps, applied to the state it started from. */
  lemma ExpireFacts(start: Ledger, now: real, interval: real, maxRate: real)
    requires interval > 0.0
    requires Consistent(start) && Ordered(start.events) && NotAfter(start.events, now)
    ensures var r := Expire(start, now, interval, maxRate);
      && Consistent(r) && r.transferred >= 0.0
      && Ordered(r.events) && NotAfter(r.events, now) && Later(r.events, now - interval)
  {
    ExpireAccounting(start, now, interval, maxRate);
    ExpireOrdered(start, now, interval, maxRate);
    ExpireLeavesLive(start, now, interval, maxRate);
  }

  class MaxRate {
    /** The maximum rate, in amount per minute. */
    const maxRate: real
    /** The length of the averaging window, in minutes. */
    const interval: real
    /** The amount transferred over the window. */
    var transferred: real
    /** The events, oldest first. */
    var events: seq<Event>

    /** The accounting state as a value. */
    function Current(): Ledger
      reads this
    {
      Ledger(events, transferred)
    }

    /** The object invariant: positive settings, a consistent total and an ordered queue. */
    ghost predicate Valid()
      reads this
    {
      maxRate > 0.0 && interval > 0.0 && Consistent(Current()) && Ordered(events)
    }

    /** A limiter with nothing transferred. */
    constructor (rate: real, interval: real)
      requires rate > 0.0 && interval > 0.0
      ensures Valid()
      ensures maxRate == rate && this.interval == interval
      ensures events == [] && transferred == 0.0
    {
      maxRate := rate;
      this.interval := interval;
      transferred := 0.0;
      events := [];
    }

    /**
     Drops the events dated at or before `now - interval`, from the front, and
     stops at the first later one. Each dropped event is credited in full, or,
     when it was too fast, credited at the maximum rate with the rest appended
     as a residual dated `now`. The object invariant survives, and every event
     left is live.
     */
    method RemoveExpired(now: real)
      requires Valid() && NotAfter(events, now)
      modifies this
      ensures Valid() && NotAfter(events, now)
      ensures Current() == Expire(old(Current()), now, interval, maxRate)
      ensures Later(events, now - interval) && transferred >= 0.0
    {
      ghost var start := Current();
      ExpirePass(now);
      ExpireFacts(start, now, interval, maxRate);
    }

    /**
     The loop of RemoveExpired. The cursor is always the front of the queue; it
     notes whether another event follows before it appends a residual, so a
     residual appended on the last turn is not visited.
     */
    method ExpirePass(now: real)
      requires interval > 0.0
      modifies this
      ensures Current() == Expire(old(Current()), now, interval, maxRate)
    {
      ghost var start := Current();
      ghost var q := events;
      ghost var k := 0;
      ghost var carried: seq<Event> := [];
      var expireTime := now - interval;
      var more := |events| > 0;
      assert events == q[k..] + carried;
      while more
        invariant k <= |q| && events == q[k..] + carried && Later(carried, expireTime)
        invariant Expire(Current(), now, interval, maxRate) == Expire(start, now, interval, maxRate)
        invariant more ==> events != []
        invariant !more ==> k == |q|
        decreases |q| - k
      {
        var e := events[0];
        more := |events| > 1;
        ghost var res := Residue(e, now, maxRate);
        ShiftFront(q, k, carried, res, expireTime);
        if e.time > expireTime {
          break;
        }
        ghost var cur := Current();
        ExpireFront(now);
        ExpireStep(cur, now, interval, maxRate);
        ResidueLater(e, now, interval, maxRate);
        LaterAppend(carried, res, expireTime);
        carried := carried + res;
        k := k + 1;
      }
      ExpireStops(Current(), now, interval, maxRate);
    }

    /**
     Expires the front event: appends its residual when it was too fast, takes
     its credit off the total, and removes it.
     */
    method ExpireFront(now: real)
      requires events != [] && events[0].time < now
      modifies this
      ensures Current() == ExpireHead(old(Current()), now, maxRate)
    {
      var e := events[0];
      var elapsed := now - e.time;
      var credited: real;
      TooFastIsRate(e, now, maxRate);
      if e.amount / elapsed > maxRate {
        credited := maxRate * elapsed;
        events := events + [Event(e.amount - credited, now)];
        assert events[1..] == old(events)[1..] + [Event(e.amount - credited, now)];
        assert |Residue(e, now, maxRate)| == 1;
        assert Residue(e, now, maxRate)[0] == Event(e.amount - credited, now);
      } else {
        credited := e.amount;
        assert events[1..] + [] == events[1..];
      }
      transferred := transferred - credited;
      events := events[1..];
    }

    /**
     Expires old events, then returns the minutes to wait before transferring
     `size`. Nothing is queued.
     */
    method WaitTime(size: real, now: real) returns (wait: real)
      requires Valid() && NotAfter(events, now)
      modifies this
      ensures Valid() && NotAfter(events, now)
      ensures Current() == Expire(old(Current()), now, interval, maxRate)
      ensures wait == WaitFor(transferred, size, maxRate, interval) && wait >= 0.0
    {
      RemoveExpired(now);
      wait := WaitFor(transferred, size, maxRate, interval);
    }

    /**
     Waits as long as WaitTime says, then records `size` as transferred at
     `later`, the time the wait ended.
     */
    method Transfer(size: real, now: real, later: real)
      requires Valid() && NotAfter(events, now) && size >= 0.0
      requires later >= now + WaitFor(Expire(Current(), now, interval, maxRate).transferred,
                                       size, maxRate, interval)
      modifies this
      ensures Valid() && NotAfter(events, later)
      ensures var expired := Expire(old(Current()), now, interval, maxRate);
        && events == expired.events + [Event(size, later)]
        && transferred == expired.transferred + size
    {
      var wait := WaitTime(size, now);
      transferred := transferred + size;
      events := events + [Event(size, later)];
      SumConcat(old(Expire(Current(), now, interval, maxRate)).events, [Event(size, later)]);
    }

    /** Expires old events, then returns the average rate over the window. */
    method AverageRate(now: real) returns (rate: real)
      requires Valid() && NotAfter(events, now)
      modifies this
      ensures Valid() && NotAfter(events, now)
      ensures Current() == Expire(old(Current()), now, interval, maxRate)
      ensures rate == Average(transferred, interval) && rate >= 0.0
    {
      RemoveExpired(now);
      rate := Average(transferred, interval);
    }

    /**
     Records `size` as transferred at `time` without waiting or expiring, to
     seed a known history. The caller keeps the queue ordered.
     */
    method TstTransfer(size: real, time: real)
      requires Valid() && size >= 0.0
      requires events == [] || events[|events| - 1].time <= time
      modifies this
      ensures Valid()
      ensures transferred == old(transferred) + size
      ensures events == old(events) + [Event(size, time)]
    {
      transferred := transferred + size;
      events := events + [Event(size, time)];
      SumConcat(old(events), [Event(size, time)]);
    }
  }
}
