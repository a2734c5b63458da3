# maxrate in Dafny

A model of the `maxrate` package: a sliding-window transfer-rate limiter. A
`MaxRate` object holds a queue of transfer events `(amount, time)`, oldest
first, and a running total `transferred` of the amounts still counted in the
window. Before answering any question the limiter expires old events: an event
dated at or before `now - interval` leaves the window and its amount is taken
off the total, unless it was transferred faster than the maximum rate. Then
only what the maximum rate allows over the time elapsed since the event is
taken off, and the rest comes back as a new event dated `now` at the back of
the queue. `WaitTime` says how long to wait before a transfer of a given size,
`Transfer` waits that long and records the transfer, and `AverageRate` reports
the total over the interval.

Modules:

- `Events` (`events.dfy`): the event datatype, the sum of a queue of events, and
  the ordering predicates on queues.
- `Expiry` (`expiry.dfy`): the expiration pass as functions on a `Ledger` value
  (queue plus total). `Expire` is the state after the whole pass, `ExpireHead` one
  turn of the loop. The lemmas prove what the pass keeps and how it ends.
- `Waiting` (`waiting.dfy`): the wait formula and the average.
- `Limiter` (`maxrate.dfy`): the `MaxRate` class. Its fields are updated in place.
  The loop of `removeExpired` is a `while` loop proved against `Expire`.
- `Scenarios` (`scenarios.dfy`): the two table cases of the package's test, seeded
  with `TstTransfer`, with the expected averages and waits proved.

Times and amounts are `real`, and times are in minutes. The clock is a
parameter: every operation takes `now`, and `Transfer` also takes `later`, the
time read after its wait. The test loop runs only the second table case
(`if n != 1 { continue }` at maxrate_test.go:95-98). The model proves the values
the code yields for the first case as well.

## Model

| member | source | states |
|---|---|---|
| Expiry.TooFastIsRate | maxrate.go:41-42 | The "too fast" test, written as amount > maxRate × elapsed, holds exactly when amount / elapsed > maxRate, the limiter's own comparison, whenever time has elapsed since the event |
| Expiry.ExpireOne | maxrate.go:40-50 | An expired event that was not too fast is credited in full and leaves no residual. One that was too fast is credited maxRate × elapsed and leaves exactly one residual, dated `now`, strictly between 0 and its amount. Credit plus residual equal the amount, the credit never exceeds the allowance, and it is non-negative for a non-negative amount |
| Expiry.ResidueSum | maxrate.go:42-48 | What is credited plus what is carried forward is the event's whole amount |
| Expiry.TooFast | maxrate.go:42 | The too-fast test: the amount exceeds what the maximum rate allows over the time elapsed since the event. It has no contract of its own; its agreement with the source's division is `Expiry.TooFastIsRate` |
| Expiry.Credit | maxrate.go:42-48 | What an expiring event takes off the total is the smaller of its amount and the allowance maxRate × elapsed: it exceeds neither and equals one of them |
| Expiry.Residue | maxrate.go:42-45 | An expiring event leaves at most one residual, dated `now` and positive |
| Expiry.ExpireHead | maxrate.go:40-50 | One turn of the loop removes the front event, appends its residual and subtracts its credit. The queue does not grow, and the difference between the total and the sum of the queue is unchanged, so a consistent total stays consistent |
| Expiry.Carried | maxrate.go:31-51 | The residuals of an expired run, in the order the loop appends them, are no more than the run's events |
| Expiry.Credited | maxrate.go:40-48 | The total credited for an expired run never exceeds the run's sum |
| Expiry.ExpiredCount | maxrate.go:31-38 | The length of the leading run of events at or before the expiry time: all of them are expired and the next one, if any, is not |
| Expiry.Expire | maxrate.go:25-52 | The pass never lengthens the queue |
| Expiry.CarriedAccounting | maxrate.go:40-50 | Over a run of expired events, the residuals' sum plus the credits equal the run's sum |
| Expiry.CarriedLive | maxrate.go:44 | Every residual of a run is dated `now` and positive |
| Expiry.ExpireAccounting | maxrate.go:40-50 | If the total equals the sum of a queue of non-negative amounts, that still holds after the pass, and the total stays non-negative |
| Expiry.ExpireOrdered | maxrate.go:30-51 | If the queue is time-ordered with nothing after `now`, both still hold after the pass |
| Expiry.ExpireLeavesLive | maxrate.go:27-51 | After the pass on an ordered queue, every event left is dated after `now - interval` |
| Expiry.ExpireStops | maxrate.go:36-38 | When the front event is live, or the queue is empty, the pass changes nothing |
| Expiry.ExpireStep | maxrate.go:31-51 | With an expired event at the front, the pass equals one turn followed by the pass on the result: remove the front, take its credit off the total, append its residual |
| Expiry.ResidueStep | maxrate.go:34-44 | After one turn the expired run is one event shorter, and the residual lands behind the kept events |
| Expiry.ExpireIdempotent | maxrate.go:25-52 | A second pass at the same instant changes nothing |
| Waiting.Average | maxrate.go:90 | The average times the interval is the total, and it is non-negative for a non-negative total |
| Waiting.WaitFor | maxrate.go:58-73 | The wait is non-negative when the total is |
| Waiting.WaitIsLeastDrain | maxrate.go:58-73 | The wait is the least time after which draining at the maximum rate makes room for the transfer, or drains the whole total |
| Waiting.WaitBounds | maxrate.go:58-73 | 0 ≤ wait ≤ total / maxRate |
| Waiting.WaitZeroIff | maxrate.go:60-71 | The wait is 0 exactly when total + size fits in the capacity maxRate × interval or the total is 0, so an oversized transfer does not wait on an empty window |
| Waiting.WaitMonotone | maxrate.go:58-73 | A larger transfer never waits less |
| Limiter.MaxRate.constructor | maxrate.go:94-100 | A new limiter has the given rate and interval, an empty queue, a zero total, and satisfies the invariant |
| Limiter.MaxRate.RemoveExpired | maxrate.go:25-52 | The new state is `Expire` of the old one. The invariant holds (total = sum of the queue, amounts non-negative, time order) and every event left is live |
| Limiter.MaxRate.ExpirePass | maxrate.go:30-51 | The loop, whose cursor is always the queue's front and which notes whether another event follows before it appends a residual, ends in the state `Expire` gives |
| Limiter.MaxRate.ExpireFront | maxrate.go:40-50 | One loop turn with the division of the source: the state becomes `ExpireHead` of the old one |
| Limiter.MaxRate.WaitTime | maxrate.go:56-74 | Expires, then returns `WaitFor` of the new total. Nothing is queued |
| Limiter.MaxRate.Transfer | maxrate.go:78-85 | After expiring, adds exactly `size` to the total and appends exactly one event `(size, later)` behind the expired queue, with `later` at least `now` plus the wait. The invariant holds |
| Limiter.MaxRate.AverageRate | maxrate.go:88-91 | Expires, then returns total / interval |
| Limiter.MaxRate.TstTransfer | internal_test.go:20-23 | Adds exactly `size` to the total and appends exactly one event with the caller's time, with no expiry and no other change to the queue. The invariant holds when the time is not before the last event's |
| Scenarios.CapacityWindow | maxrate_test.go:60-76 | Rate 2, interval 5, events 3@-8, 14@-6, 4@-3 expired at 0 leave 4@-3 and a residual 2@0, total 6 |
| Scenarios.CapacityScenario | maxrate_test.go:60-117 | That case yields an average of 1.2 and waits of 0, 1 and 3 minutes for sizes 1, 6 and 16 |
| Scenarios.FullyExpiredWindow | maxrate_test.go:39-47 | Rate 1, interval 1, event 0.7@-2 expired at 0 leaves nothing |
| Scenarios.FullyExpiredScenario | maxrate_test.go:39-58 | That case yields an average of 0 and waits of 0 for sizes 0.5 and 1.5 |
| Scenarios.IdleWait | maxrate_test.go:49-58 | On the emptied limiter of that case a wait is 0 at any size and the state is unchanged |

## Left out

- Wall clock and sleep: `time.Now()` (maxrate.go:26, 84) and `time.Sleep` (maxrate.go:80-82) are not modelled. Every operation takes `now`. `Transfer` takes `later`, the time after its wait, and requires that `later` is at least `now` plus the wait.
- Floating point and `time.Duration`: amounts and times are exact reals in minutes. The float64 rounding and the nanosecond conversions and truncation (maxrate.go:27, 41, 73) are not modelled.
- `container/list` and the type assertion on its elements (maxrate.go:30-34, 44, 50): the list is a `seq<Event>` field that the methods reassign.
- Concurrency: the package has no locking and one caller at a time is assumed.
- Limiter.MaxRate.constructor: `New` does not check `rate > 0` or `interval > 0` (maxrate.go:94-100). The model requires both, so it does not capture what the source does with an interval of 0 (or one under a nanosecond, which truncates to a zero `time.Duration` at maxrate.go:27): the expiry time is then `now` (maxrate.go:27), a residual dated `now` is not after it (maxrate.go:36) and so is expired again, its elapsed time is 0, so float64 division gives +Inf, which exceeds `maxRate` (maxrate.go:41-42), and it pushes another residual (maxrate.go:44). `removeExpired` then never returns once two or more events in one pass were too fast, e.g. `New(1, 0)`, two `TstTransfer(5, …)` at one and half a minute ago, then `AverageRate()`: the cursor reaches a residual while another residual follows it, and each turn rotates the two. With a single residual the pass still ends, because the cursor read `Next` (nil) before the push (maxrate.go:34, 44).
- Limiter.MaxRate.ExpirePass: its termination argument (`decreases |q| - k`, with no residual ever expired in the same pass) rests on `interval > 0`, which makes every residual dated `now` live. Without it the source loop can fail to terminate, as the line above describes.
- Limiter.MaxRate.Transfer: requires `size >= 0`, so that the total stays the sum of non-negative amounts.
- Limiter.MaxRate.TstTransfer: requires `size >= 0` and a time not before the last queued event's. The tests seed in that order.
- Limiter.MaxRate.RemoveExpired: requires that no queued event is dated after `now`, i.e. the clock never runs backwards. The same holds for `WaitTime`, `Transfer` and `AverageRate`.
- Limiter.MaxRate.WaitTime: its `ensures` gives the wait as `WaitFor` and states only that it is non-negative. The upper bound, minimality and monotonicity are stated about `WaitFor` by `Waiting.WaitBounds`, `Waiting.WaitIsLeastDrain` and `Waiting.WaitMonotone`.
- Expiry.TooFast: stated as a product (amount > maxRate × elapsed) rather than the source's division. `Expiry.TooFastIsRate` proves the two agree whenever time has elapsed, and `Limiter.MaxRate.ExpireFront` uses the division itself.
- The `closeEnough` tolerance of the tests (maxrate_test.go:22-26), the empty `TestTransfer` (maxrate_test.go:122-124) and the commented-out `TstNew` (internal_test.go:9-15) carry no behaviour.
