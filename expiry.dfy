/**
 The expiration pass of the rate limiter, stated as functions on values.

 An event older than the averaging interval leaves the window. If it was
 transferred no faster than the maximum rate, its whole amount is credited
 (taken off the running total). If it was too fast, only what the maximum rate
 allows over the elapsed time is credited, and the rest is carried forward as a
 new event dated `now` at the back of the queue.
 */
module Expiry {
  import opened Events

  /** The limiter's accounting state: its queue of events and its running total. */
  datatype Ledger = Ledger(events: seq<Event>, transferred: real)

  /** The running total is the sum of the queued amounts, none of them negative. */
  ghost predicate Consistent(l: Ledger)
  {
    l.transferred == Sum(l.events) && NonNegative(l.events)
  }

  /**
   Whether `e`, looked at `now`, was transferred faster than `maxRate`: its
   amount exceeds what that rate allows over the time elapsed since it.
   */
  predicate TooFast(e: Event, now: real, maxRate: real)
  {
    e.amount > maxRate * Elapsed(e, now)
  }

  /** The comparison is the limiter's own: the event's rate over the elapsed time against the maximum. */
  lemma TooFastIsRate(e: Event, now: real, maxRate: real)
    requires e.time < now
    ensures TooFast(e, now, maxRate) <==> e.amount / Elapsed(e, now) > maxRate
  {
    var elapsed := Elapsed(e, now);
    assert e.amount == (e.amount / elapsed) * elapsed;
    if e.amount / elapsed > maxRate {
      assert (e.amount / elapsed - maxRate) * elapsed > 0.0;
    } else {
      assert (maxRate - e.amount / elapsed) * elapsed >= 0.0;
    }
  }

  /** The part of an expiring event taken off the running total. */
  function Credit(e: Event, now: real, maxRate: real): (c: real)
    ensures c <= e.amount && c <= maxRate * Elapsed(e, now)
    ensures c == e.amount || c == maxRate * Elapsed(e, now)
  {
    if TooFast(e, now, maxRate) then maxRate * Elapsed(e, now) else e.amount
  }

  /** What an expiring event leaves in the queue: nothing, or the residual dated `now`. */
  function Residue(e: Event, now: real, maxRate: real): (r: seq<Event>)
    ensures |r| <= 1
    ensures forall i :: 0 <= i < |r| ==> r[i].time == now && r[i].amount > 0.0
  {
    if TooFast(e, now, maxRate) then [Event(e.amount - maxRate * Elapsed(e, now), now)] else []
  }

  /**
   One turn of the pass on a ledger whose front event has expired: the front is
   taken off the queue and its credit off the total, and its residual, if any,
   is appended at the back.
   */
  function ExpireHead(l: Ledger, now: real, maxRate: real): (h: Ledger)
    requires l.events != []
    ensures |h.events| <= |l.events|
    ensures h.transferred - Sum(h.events) == l.transferred - Sum(l.events)
  {
    var e := l.events[0];
    SumConcat(l.events[1..], Residue(e, now, maxRate));
    ResidueSum(e, now, maxRate);
    Ledger(l.events[1..] + Residue(e, now, maxRate), l.transferred - Credit(e, now, maxRate))
  }

  /** One expiring event: removed and credited in full, or split into a legal part and a residual. */
  lemma ExpireOne(e: Event, now: real, interval: real, maxRate: real)
    requires maxRate > 0.0 && interval > 0.0 && e.time <= now - interval
    ensures !TooFast(e, now, maxRate) ==>
      Credit(e, now, maxRate) == e.amount && Residue(e, now, maxRate) == []
    ensures TooFast(e, now, maxRate) ==>
      && Credit(e, now, maxRate) == maxRate * Elapsed(e, now)
      && |Residue(e, now, maxRate)| == 1
      && Residue(e, now, maxRate)[0].time == now
      && 0.0 < Residue(e, now, maxRate)[0].amount < e.amount
    ensures Credit(e, now, maxRate) + Sum(Residue(e, now, maxRate)) == e.amount
    ensures Credit(e, now, maxRate) <= maxRate * Elapsed(e, now)
    ensures e.amount >= 0.0 ==> Credit(e, now, maxRate) >= 0.0
  {
    if TooFast(e, now, maxRate) {
      var r := Event(e.amount - maxRate * Elapsed(e, now), now);
      assert Residue(e, now, maxRate) == [r];
    }
    ResidueSum(e, now, maxRate);
  }

  /** The credit and the residual together make up the event's amount. */
  lemma ResidueSum(e: Event, now: real, maxRate: real)
    ensures Credit(e, now, maxRate) + Sum(Residue(e, now, maxRate)) == e.amount
  {
    if TooFast(e, now, maxRate) {
      assert Sum(Residue(e, now, maxRate)) == e.amount - maxRate * Elapsed(e, now);
    } else {
      assert Sum(Residue(e, now, maxRate)) == 0.0;
    }
  }

  /** The length of the leading run of events dated at or before `expireTime`. */
  function ExpiredCount(q: seq<Event>, expireTime: real): (n: nat)
    ensures n <= |q|
    ensures forall i :: 0 <= i < n ==> q[i].time <= expireTime
    ensures n < |q| ==> q[n].time > expireTime
  {
    if q == [] || q[0].time > expireTime then 0 else 1 + ExpiredCount(q[1..], expireTime)
  }

  /** The residuals left by a run of expiring events, in the order they are appended. */
  function Carried(p: seq<Event>, now: real, maxRate: real): (r: seq<Event>)
    ensures |r| <= |p|
  {
    if p == [] then []
    else Carried(p[..|p| - 1], now, maxRate) + Residue(p[|p| - 1], now, maxRate)
  }

  /** The total credited for a run of expiring events. */
  function Credited(p: seq<Event>, now: real, maxRate: real): (c: real)
    ensures c <= Sum(p)
  {
    if p == [] then 0.0
    else
      SumLast(p);
      Credited(p[..|p| - 1], now, maxRate) + Credit(p[|p| - 1], now, maxRate)
  }

  /**
   The state after the expiration pass at `now`: the leading expired events are
   gone, the events from the first live one on are kept in place, and the
   residuals follow them.
   */
  function Expire(l: Ledger, now: real, interval: real, maxRate: real): (r: Ledger)
    requires interval > 0.0
    ensures |r.events| <= |l.events|
  {
    var n := ExpiredCount(l.events, now - interval);
    Ledger(l.events[n..] + Carried(l.events[..n], now, maxRate),
           l.transferred - Credited(l.events[..n], now, maxRate))
  }

  /** Residuals and credits together make up the amounts of the run. */
  lemma {:induction false} CarriedAccounting(p: seq<Event>, now: real, maxRate: real)
    ensures Sum(Carried(p, now, maxRate)) + Credited(p, now, maxRate) == Sum(p)
  {
    if p != [] {
      var init, last := p[..|p| - 1], p[|p| - 1];
      var c, res := Carried(init, now, maxRate), Residue(last, now, maxRate);
      CarriedAccounting(init, now, maxRate);
      ResidueSum(last, now, maxRate);
      assert Carried(p, now, maxRate) == c + res;
      assert Credited(p, now, maxRate) == Credited(init, now, maxRate) + Credit(last, now, maxRate);
      SumConcat(c, res);
      SumLast(p);
    }
  }

  /** Every residual of a run is dated `now` and positive. */
  lemma {:induction false} CarriedLive(p: seq<Event>, now: real, maxRate: real)
    ensures forall i :: 0 <= i < |Carried(p, now, maxRate)| ==>
      Carried(p, now, maxRate)[i].time == now && Carried(p, now, maxRate)[i].amount > 0.0
  {
    if p != [] {
      var init := p[..|p| - 1];
      var c: seq<Event> := Carried(init, now, maxRate);
      var res: seq<Event> := Residue(p[|p| - 1], now, maxRate);
      var r: seq<Event> := c + res;
      CarriedLive(init, now, maxRate);
      assert Carried(p, now, maxRate) == r;
      forall i | 0 <= i < |r| ensures r[i].time == now && r[i].amount > 0.0 {
        if i < |c| {
          assert r[i] == c[i];
        } else {
          assert r[i] == res[i - |c|];
        }
      }
    }
  }

  /** Taking the first event off a run splits its residuals at the front. */
  lemma {:induction false} CarriedFront(p: seq<Event>, now: real, maxRate: real)
    requires p != []
    ensures Carried(p, now, maxRate) == Residue(p[0], now, maxRate) + Carried(p[1..], now, maxRate)
  {
    if |p| == 1 {
      assert p[..0] == [] && p[1..] == [];
    } else {
      var init, tail, last := p[..|p| - 1], p[1..], p[|p| - 1];
      CarriedFront(init, now, maxRate);
      assert init[0] == p[0] && tail[..|tail| - 1] == init[1..] && tail[|tail| - 1] == last;
      var first, middle := Residue(p[0], now, maxRate), Carried(init[1..], now, maxRate);
      assert Carried(tail, now, maxRate) == middle + Residue(last, now, maxRate);
      ConcatAssoc(first, middle, Residue(last, now, maxRate));
    }
  }

  /** Taking the first event off a run splits its credits at the front. */
  lemma {:induction false} CreditedFront(p: seq<Event>, now: real, maxRate: real)
    requires p != []
    ensures Credited(p, now, maxRate) == Credit(p[0], now, maxRate) + Credited(p[1..], now, maxRate)
  {
    if |p| == 1 {
      assert p[..0] == [] && p[1..] == [];
    } else {
      var init, tail, last := p[..|p| - 1], p[1..], p[|p| - 1];
      CreditedFront(init, now, maxRate);
      assert init[0] == p[0] && tail[..|tail| - 1] == init[1..] && tail[|tail| - 1] == last;
      assert Credited(tail, now, maxRate) == Credited(init[1..], now, maxRate) + Credit(last, now, maxRate);
    }
  }

  /** Expiration keeps the running total equal to the queued amounts, and non-negative. */
  lemma ExpireAccounting(l: Ledger, now: real, interval: real, maxRate: real)
    requires interval > 0.0 && Consistent(l)
    ensures Consistent(Expire(l, now, interval, maxRate))
    ensures Expire(l, now, interval, maxRate).transferred >= 0.0
  {
    var q := l.events;
    var n := ExpiredCount(q, now - interval);
    var kept, done := q[n..], q[..n];
    var c := Carried(done, now, maxRate);
    var r := Expire(l, now, interval, maxRate);
    assert r.events == kept + c;
    assert r.transferred == l.transferred - Credited(done, now, maxRate);
    CarriedAccounting(done, now, maxRate);
    CarriedLive(done, now, maxRate);
    assert q == done + kept;
    SumConcat(done, kept);
    SumConcat(kept, c);
    assert Sum(r.events) == r.transferred;
    KeptNonNegative(q, n, c);
    SumNonNegative(r.events);
  }

  lemma KeptNonNegative(q: seq<Event>, n: nat, c: seq<Event>)
    requires n <= |q| && NonNegative(q)
    requires forall i :: 0 <= i < |c| ==> c[i].amount > 0.0
    ensures NonNegative(q[n..] + c)
  {
    var r := q[n..] + c;
    forall i | 0 <= i < |r| ensures r[i].amount >= 0.0 {
      if i >= |q| - n {
        assert r[i] == c[i - (|q| - n)];
      } else {
        assert r[i] == q[n + i];
      }
    }
  }

  /** On an ordered queue with nothing dated after `now`, expiration keeps both properties. */
  lemma ExpireOrdered(l: Ledger, now: real, interval: real, maxRate: real)
    requires interval > 0.0
    requires Ordered(l.events) && NotAfter(l.events, now)
    ensures Ordered(Expire(l, now, interval, maxRate).events)
    ensures NotAfter(Expire(l, now, interval, maxRate).events, now)
  {
    var q := l.events;
    var n := ExpiredCount(q, now - interval);
    var c := Carried(q[..n], now, maxRate);
    CarriedLive(q[..n], now, maxRate);
    assert Ordered(q[n..]) && NotAfter(q[n..], now) by {
      assert forall i :: 0 <= i < |q[n..]| ==> q[n..][i] == q[n + i];
    }
    OrderedAppend(q[n..], c, now);
  }

  /** A suffix of an ordered queue, followed by events all dated `now`, is ordered and not after `now`. */
  lemma OrderedAppend(kept: seq<Event>, c: seq<Event>, now: real)
    requires Ordered(kept) && NotAfter(kept, now)
    requires forall i :: 0 <= i < |c| ==> c[i].time == now
    ensures Ordered(kept + c) && NotAfter(kept + c, now)
  {
    var r := kept + c;
    assert forall i :: 0 <= i < |r| ==> r[i] == if i < |kept| then kept[i] else c[i - |kept|];
  }

  /** After expiration of an ordered queue, every event left is later than `now - interval`. */
  lemma ExpireLeavesLive(l: Ledger, now: real, interval: real, maxRate: real)
    requires interval > 0.0 && Ordered(l.events)
    ensures Later(Expire(l, now, interval, maxRate).events, now - interval)
  {
    var q := l.events;
    var n := ExpiredCount(q, now - interval);
    var kept, done := q[n..], q[..n];
    var c := Carried(done, now, maxRate);
    CarriedLive(done, now, maxRate);
    var r := kept + c;
    forall i | 0 <= i < |r| ensures r[i].time > now - interval {
      if i < |kept| {
        assert r[i] == q[n + i] && q[n].time <= q[n + i].time;
      } else {
        assert r[i] == c[i - |kept|];
      }
    }
  }

  /** Expiration with nothing to expire leaves the state alone. */
  lemma ExpireStops(l: Ledger, now: real, interval: real, maxRate: real)
    requires interval > 0.0
    requires l.events == [] || l.events[0].time > now - interval
    ensures Expire(l, now, interval, maxRate) == l
  {
    assert l.events[..0] == [] && l.events[0..] == l.events;
  }

  /**
   Expiration with an expired event at the front is one step of the pass: take
   off that event and its credit, append its residual at the back, and expire
   the rest.
   */
  lemma ExpireStep(l: Ledger, now: real, interval: real, maxRate: real)
    requires interval > 0.0
    requires l.events != [] && l.events[0].time <= now - interval
    ensures Expire(l, now, interval, maxRate) == Expire(ExpireHead(l, now, maxRate), now, interval, maxRate)
  {
    var q, e := l.events, l.events[0];
    var n := ExpiredCount(q, now - interval);
    var res, carried := Residue(e, now, maxRate), Carried(q[1..n], now, maxRate);
    ExpireFrontSplit(l, now, interval, maxRate);
    ExpireHeadSplit(l, now, interval, maxRate);
    ConcatAssoc(q[n..], res, carried);
  }

  /** Expiration of a queue whose front is expired: the front's credit and residual come first. */
  lemma ExpireFrontSplit(l: Ledger, now: real, interval: real, maxRate: real)
    requires interval > 0.0
    requires l.events != [] && l.events[0].time <= now - interval
    ensures var q, e := l.events, l.events[0];
      var n := ExpiredCount(q, now - interval);
      && 1 <= n <= |q|
      && Expire(l, now, interval, maxRate)
         == Ledger(q[n..] + (Residue(e, now, maxRate) + Carried(q[1..n], now, maxRate)),
                   l.transferred - (Credit(e, now, maxRate) + Credited(q[1..n], now, maxRate)))
  {
    var q := l.events;
    var n := ExpiredCount(q, now - interval);
    assert q == q[..n] + q[n..];
    ExpireSplit(l, now, interval, maxRate, q[..n], q[n..]);
    CarriedFront(q[..n], now, maxRate);
    CreditedFront(q[..n], now, maxRate);
    assert q[..n][1..] == q[1..n];
  }

  /** Expiration after the front step: the rest of the expired run, then the residual behind what is kept. */
  lemma ExpireHeadSplit(l: Ledger, now: real, interval: real, maxRate: real)
    requires interval > 0.0
    requires l.events != [] && l.events[0].time <= now - interval
    ensures var q, e := l.events, l.events[0];
      var n := ExpiredCount(q, now - interval);
      && 1 <= n <= |q|
      && Expire(ExpireHead(l, now, maxRate), now, interval, maxRate)
         == Ledger((q[n..] + Residue(e, now, maxRate)) + Carried(q[1..n], now, maxRate),
                   (l.transferred - Credit(e, now, maxRate)) - Credited(q[1..n], now, maxRate))
  {
    var q, e := l.events, l.events[0];
    var res := Residue(e, now, maxRate);
    var n := ExpiredCount(q, now - interval);
    ResidueStep(q, now, interval, maxRate);
    assert ExpireHead(l, now, maxRate) == Ledger(q[1..] + res, l.transferred - Credit(e, now, maxRate));
    ExpireSplit(ExpireHead(l, now, maxRate), now, interval, maxRate, q[1..n], q[n..] + res);
  }

  /** Expiration of a queue split into its expired prefix and the rest. */
  lemma ExpireSplit(l: Ledger, now: real, interval: real, maxRate: real, expired: seq<Event>, kept: seq<Event>)
    requires interval > 0.0
    requires l.events == expired + kept && ExpiredCount(l.events, now - interval) == |expired|
    ensures Expire(l, now, interval, maxRate)
         == Ledger(kept + Carried(expired, now, maxRate), l.transferred - Credited(expired, now, maxRate))
  {
    assert l.events[..|expired|] == expired && l.events[|expired|..] == kept;
  }

  /** The step of ExpireStep on the queue: the residual of the front event lands behind what is kept. */
  lemma ResidueStep(q: seq<Event>, now: real, interval: real, maxRate: real)
    requires interval > 0.0
    requires q != [] && q[0].time <= now - interval
    ensures var n := ExpiredCount(q, now - interval);
      var res := Residue(q[0], now, maxRate);
      var q' := q[1..] + res;
      && 1 <= n <= |q|
      && ExpiredCount(q', now - interval) == n - 1
      && q' == q[1..n] + (q[n..] + res)
  {
    var n := ExpiredCount(q, now - interval);
    var res := Residue(q[0], now, maxRate);
    ResidueLater(q[0], now, interval, maxRate);
    StepExpiredCount(q, res, now - interval);
    SplitConcat(q, res, n);
  }

  /** A residual is dated after the expiry time of the pass that made it. */
  lemma ResidueLater(e: Event, now: real, interval: real, maxRate: real)
    requires interval > 0.0
    ensures Later(Residue(e, now, maxRate), now - interval)
  {
  }

  /** After one step the expired run is one shorter, whatever live events are appended. */
  lemma StepExpiredCount(q: seq<Event>, res: seq<Event>, expireTime: real)
    requires q != [] && q[0].time <= expireTime && Later(res, expireTime)
    ensures ExpiredCount(q[1..] + res, expireTime) == ExpiredCount(q, expireTime) - 1
  {
    ExpiredCountConcat(q[1..], res, expireTime);
  }

  /** Concatenation of queues is associative. */
  lemma ConcatAssoc(a: seq<Event>, b: seq<Event>, c: seq<Event>)
    ensures a + (b + c) == (a + b) + c
  {
  }

  /** Cutting a queue without its front, followed by more events, after its first `m` events. */
  lemma SplitConcat(q: seq<Event>, res: seq<Event>, m: nat)
    requires 1 <= m <= |q|
    ensures q[1..] + res == q[1..m] + (q[m..] + res)
  {
    assert q[1..] == q[1..m] + q[m..];
  }

  /** Appending events dated after `expireTime` behind a queue leaves the length of its expired run alone. */
  lemma {:induction false} ExpiredCountConcat(a: seq<Event>, b: seq<Event>, expireTime: real)
    requires Later(b, expireTime)
    ensures ExpiredCount(a + b, expireTime) == ExpiredCount(a, expireTime)
  {
    if a == [] {
      assert a + b == b;
    } else {
      assert (a + b)[1..] == a[1..] + b;
      ExpiredCountConcat(a[1..], b, expireTime);
    }
  }

  /** Running the expiration pass twice at the same time changes nothing the second time. */
  lemma ExpireIdempotent(l: Ledger, now: real, interval: real, maxRate: real)
    requires interval > 0.0
    ensures Expire(Expire(l, now, interval, maxRate), now, interval, maxRate)
         == Expire(l, now, interval, maxRate)
  {
    var q := l.events;
    var n := ExpiredCount(q, now - interval);
    var c := Carried(q[..n], now, maxRate);
    CarriedLive(q[..n], now, maxRate);
    var r := Expire(l, now, interval, maxRate);
    if r.events != [] {
      if n < |q| {
        assert r.events[0] == q[n];
      } else {
        assert r.events[0] == c[0];
      }
    }
    ExpireStops(r, now, interval, maxRate);
  }
}
