/**
 Transfer events and the facts the rate limiter keeps about its queue of them.
 Times are minutes on one clock, amounts are whatever unit the caller transfers.
 */
module Events {

  /** An amount transferred at a point in time. */
  datatype Event = Event(amount: real, time: real)

  /** The time elapsed from `e` to `now`. */
  function Elapsed(e: Event, now: real): real
  {
    now - e.time
  }

  /** The total amount held by a queue of events. */
  function Sum(q: seq<Event>): real
  {
    if q == [] then 0.0 else q[0].amount + Sum(q[1..])
  }

  lemma {:induction false} SumConcat(a: seq<Event>, b: seq<Event>)
    ensures Sum(a + b) == Sum(a) + Sum(b)
  {
    if a == [] {
      assert a + b == b;
    } else {
      assert (a + b)[1..] == a[1..] + b;
      SumConcat(a[1..], b);
    }
  }

  /** The total of a queue is the total before its last event plus that event's amount. */
  lemma SumLast(q: seq<Event>)
    requires q != []
    ensures Sum(q) == Sum(q[..|q| - 1]) + q[|q| - 1].amount
  {
    assert q == q[..|q| - 1] + [q[|q| - 1]];
    SumConcat(q[..|q| - 1], [q[|q| - 1]]);
  }

  /** No event carries a negative amount. */
  ghost predicate NonNegative(q: seq<Event>)
  {
    forall i :: 0 <= i < |q| ==> q[i].amount >= 0.0
  }

  lemma {:induction false} SumNonNegative(q: seq<Event>)
    requires NonNegative(q)
    ensures Sum(q) >= 0.0
  {
    if q != [] {
      assert NonNegative(q[1..]) by {
        forall i | 0 <= i < |q[1..]| ensures q[1..][i].amount >= 0.0 {
          assert q[1..][i] == q[i + 1];
        }
      }
      SumNonNegative(q[1..]);
    }
  }

  /** Events appear in non-decreasing order of time. */
  ghost predicate Ordered(q: seq<Event>)
  {
    forall i, j :: 0 <= i <= j < |q| ==> q[i].time <= q[j].time
  }

  /** No event is dated after `now`. */
  ghost predicate NotAfter(q: seq<Event>, now: real)
  {
    forall i :: 0 <= i < |q| ==> q[i].time <= now
  }

  /** Every event is dated strictly after `t`. */
  ghost predicate Later(q: seq<Event>, t: real)
  {
    forall i :: 0 <= i < |q| ==> q[i].time > t
  }
}
