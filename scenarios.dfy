/**
 The two table cases of the limiter's test, seeded with TstTransfer and observed
 at minute 0 (times are minutes relative to that instant). Each WaitTime call is
 made at the same instant, so the expiration it runs first finds nothing more
 to do.
 */
module Scenarios {
  import opened Events
  import opened Expiry
  import opened Waiting
  import opened Limiter

  /**
   Rate 2, interval 5, events 3 at -8, 14 at -6 and 4 at -3, expired at 0: the
   first expires in full, the second was too fast and leaves 2 dated 0, the
   third is live, and 6 remains.
   */
  lemma CapacityWindow()
    ensures Expire(Ledger([Event(3.0, -8.0), Event(14.0, -6.0), Event(4.0, -3.0)], 21.0), 0.0, 5.0, 2.0)
         == Ledger([Event(4.0, -3.0), Event(2.0, 0.0)], 6.0)
  {
    var start := Ledger([Event(3.0, -8.0), Event(14.0, -6.0), Event(4.0, -3.0)], 21.0);
    ExpireStep(start, 0.0, 5.0, 2.0);
    assert Residue(Event(3.0, -8.0), 0.0, 2.0) == [];
    assert start.events[1..] + [] == [Event(14.0, -6.0), Event(4.0, -3.0)];
    var once := Ledger([Event(14.0, -6.0), Event(4.0, -3.0)], 18.0);
    ExpireStep(once, 0.0, 5.0, 2.0);
    assert Residue(Event(14.0, -6.0), 0.0, 2.0) == [Event(2.0, 0.0)];
    var twice := Ledger([Event(4.0, -3.0), Event(2.0, 0.0)], 6.0);
    assert once.events[1..] + [Event(2.0, 0.0)] == twice.events;
    ExpireStops(twice, 0.0, 5.0, 2.0);
  }

  /** Rate 1, interval 1, one event of 0.7 at -2, expired at 0: nothing remains. */
  lemma FullyExpiredWindow()
    ensures Expire(Ledger([Event(0.7, -2.0)], 0.7), 0.0, 1.0, 1.0) == Ledger([], 0.0)
  {
    var start := Ledger([Event(0.7, -2.0)], 0.7);
    ExpireStep(start, 0.0, 1.0, 1.0);
    assert Residue(Event(0.7, -2.0), 0.0, 1.0) == [];
    assert start.events[1..] + [] == [];
    ExpireStops(Ledger([], 0.0), 0.0, 1.0, 1.0);
  }

  /**
   The case of rate 2 and interval 5: an average of 1.2, and waits of 0, 1 and 3 minutes for sizes
   1, 6 and 16.
   */
  method CapacityScenario() returns (avg: real, waits: seq<real>)
    ensures avg == 1.2
    ensures waits == [0.0, 1.0, 3.0]
  {
    var m := new MaxRate(2.0, 5.0);
    m.TstTransfer(3.0, -8.0);
    m.TstTransfer(14.0, -6.0);
    m.TstTransfer(4.0, -3.0);
    var seeded := Ledger([Event(3.0, -8.0), Event(14.0, -6.0), Event(4.0, -3.0)], 21.0);
    var window := Ledger([Event(4.0, -3.0), Event(2.0, 0.0)], 6.0);
    assert m.Current() == seeded;
    avg := m.AverageRate(0.0);
    assert m.Current() == Expire(seeded, 0.0, 5.0, 2.0);
    CapacityWindow();
    assert m.Current() == window;
    assert avg == Average(6.0, 5.0) == 1.2;
    ExpireStops(window, 0.0, 5.0, 2.0);
    var w1 := m.WaitTime(1.0, 0.0);
    assert m.Current() == Expire(window, 0.0, 5.0, 2.0) == window;
    assert w1 == WaitFor(6.0, 1.0, 2.0, 5.0) == 0.0;
    var w2 := m.WaitTime(6.0, 0.0);
    assert m.Current() == Expire(window, 0.0, 5.0, 2.0) == window;
    assert w2 == WaitFor(6.0, 6.0, 2.0, 5.0) == 1.0;
    var w3 := m.WaitTime(16.0, 0.0);
    assert m.Current() == Expire(window, 0.0, 5.0, 2.0) == window;
    assert w3 == WaitFor(6.0, 16.0, 2.0, 5.0) == 3.0;
    waits := [w1, w2, w3];
  }

  /**
   The case of rate 1 and interval 1: an average of 0, and no wait for sizes 0.5 and 1.5, the
   latter above the whole capacity, because nothing is outstanding.
   */
  method FullyExpiredScenario() returns (avg: real, waits: seq<real>)
    ensures avg == 0.0
    ensures waits == [0.0, 0.0]
  {
    var m := new MaxRate(1.0, 1.0);
    m.TstTransfer(0.7, -2.0);
    assert m.Current() == Ledger([Event(0.7, -2.0)], 0.7);
    avg := m.AverageRate(0.0);
    FullyExpiredWindow();
    assert m.Current() == Ledger([], 0.0);
    assert avg == 0.0;
    var w1 := IdleWait(m, 0.5);
    var w2 := IdleWait(m, 1.5);
    waits := [w1, w2];
  }

  /** A wait asked of the emptied limiter of the rate-1 case, at the same instant. */
  method IdleWait(m: MaxRate, size: real) returns (w: real)
    requires m.Valid() && m.Current() == Ledger([], 0.0) && m.maxRate == 1.0 && m.interval == 1.0
    modifies m
    ensures m.Valid() && m.Current() == Ledger([], 0.0) && m.maxRate == 1.0 && m.interval == 1.0
    ensures w == 0.0
  {
    w := m.WaitTime(size, 0.0);
    assert m.events == [] && m.transferred == 0.0;
  }
}
