# Federation server statistics: backoff and blacklisting

This project models `federationapi/statistics/statistics.go`. That file is the
component that tracks, for each remote federated server, whether to keep
sending to it, how long to back off after a failure, and when to stop
(blacklist it). It is a Dafny model and the model is proved.

- `Statistics` is the registry. It holds `servers` (name → record), the pending
  backoff timers `backoffTimers` (name → timer) and a store of blacklisted
  names. `FailuresUntilBlacklist` is the number of consecutive failures that
  blacklists a server.
- `ServerStatistics` is one server's record. Its fields are `blacklisted`,
  `backoffStarted`, `backoffUntil`, `backoffCount`, `successCounter` and a
  backoff notifier. It is updated in place by `Success`, `Failure`,
  `MarkServerAlive` (`removeBlacklist`), `ClearBackoff`, `backoffFinished`
  and `AssignBackoffNotifier`. It is read by `Blacklisted`, `BackoffInfo`
  and `SuccessCount`.

The project has three files:

- `backoff.dfy` (module `Backoff`) holds the backoff length `duration`. The
  jitter is an integer in thousandths, in [800, 1400), so a duration is
  `2^count * jitter` milliseconds. The same module holds Go's 32-bit counter
  increment and Go's int64 wrap-around.
- `server_state.dfy` (module `ServerStateMachine`) describes one server as a
  value, `Peer`. A `Peer` holds the record's fields, the server's entry in
  the timer map (the instant the timer fires) and whether the store lists
  the server. Each operation is a function on `Peer`, named after the Go
  method: `Created`, `ClearBackoff`, `Cancel`, `Success`, `Failure`,
  `MarkServerAlive`, `BackoffFinished` and `AssignBackoffNotifier`.
  `Inv` is the invariant every reachable record satisfies. The lemmas state
  what each operation promises and what sequences of operations lead to.
- `statistics.dfy` (module `FederationStatistics`) holds the two classes,
  with the Go fields. Each mutating method is proved to change its server's
  `View()` exactly as a transition function does (the one of the same
  name; for `StartBackoff`, `Blacklist` and `ScheduleBackoff`, the branches
  of `Failure`; for `RemoveBlacklist`, `MarkServerAlive`), and to leave
  every other server's timer entry and store membership alone. The exported
  methods (`Success`, `Failure`, `MarkServerAlive`, `AssignBackoffNotifier`,
  `ClearBackoff`) and the timer callback `BackoffFinished` keep
  `Statistics.Valid()`; `ClearBackoff` keeps it whenever it held before the
  call. The private `Cancel` does not keep it on its own: applied to a
  server blacklisted at the threshold, it leaves an unblacklisted record
  whose count is still the threshold. Its callers `Success` and
  `RemoveBlacklist` reset the count straight afterwards, which restores it.
  `Valid()` says the following:
  - every record is registered under its own name;
  - every timer belongs to a registered server;
  - every record satisfies `Inv`.

Conventions:
- Time is an integer `now` in milliseconds since Go's zero `time.Time`, and
  `ZeroTime` is 0.
- A timer firing is a call of `BackoffFinished`. The callback it invokes is
  its result.
- Whether a call to the store fails is a parameter of the operation that
  makes the call.

## Model

| member | source | states |
|---|---|---|
| `Backoff.Inc32` | federationapi/statistics/statistics.go:141 | `backoffCount.Inc()` adds one, and wraps to 0 only from 2^32 − 1. |
| `Backoff.Pow2` | federationapi/statistics/statistics.go:95 | `math.Exp2(count)` on whole counts is at least 1. |
| `Backoff.Duration` | federationapi/statistics/statistics.go:87-96 | The backoff for failure count k, with any jitter in [0.8, 1.4), lies in [0.8·2^k, 1.4·2^k) seconds, so it is always positive. |
| `Backoff.DurationWindowDoubles` | federationapi/statistics/statistics.go:91-96 | Each further failure doubles both bounds of the backoff window. |
| `Backoff.DurationNanosAsWritten` | federationapi/statistics/statistics.go:95 | The source's int64 nanosecond product, wrapped like Go's int64 multiplication, always lies in the int64 range. |
| `Backoff.MillisInInt64Range` | federationapi/statistics/statistics.go:95 | The millisecond count converted to `time.Duration` fits in an int64 exactly when the failure count is at most 52, or is 53 with a jitter below 1.024. |
| `Backoff.AsWrittenExactUpTo32` | federationapi/statistics/statistics.go:95 | Up to count 32 the source's nanosecond duration does not wrap. It equals 10^6 times `Duration` and is positive. |
| `Backoff.AsWrittenNegativeAt34` | federationapi/statistics/statistics.go:95 | At count 34 with jitter 0.8 the source's duration is negative. The intended duration is positive. |
| `Backoff.AsWrittenTooShortAt34` | federationapi/statistics/statistics.go:95 | At count 34 with jitter 1.3 the source's duration wraps to a positive value below the intended one. |
| `ServerStateMachine.Created` | federationapi/statistics/statistics.go:55-66 | Definition, no contract: the record `ForServer` builds, hydrated from the store. Its properties are proved in `CreatedSatisfiesInv`. |
| `ServerStateMachine.ClearBackoff` | federationapi/statistics/statistics.go:176-186 | Definition, no contract: ends the backoff and drops this server's timer entry. Proved in `ClearBackoffIdempotent` and `OperationsKeepInv`. |
| `ServerStateMachine.Cancel` | federationapi/statistics/statistics.go:100-105 | Definition, no contract: unblacklists, stores the zero time, then `ClearBackoff`. Its effect is proved through `SuccessResets` and `MarkServerAliveResets`, its only callers. |
| `ServerStateMachine.Success` | federationapi/statistics/statistics.go:121-124 | Definition, no contract: `Cancel`, then count 0. Proved in `SuccessResets`, `FailureAfterSuccessCountsOne` and `OperationsKeepInv`. |
| `ServerStateMachine.Failure` | federationapi/statistics/statistics.go:130-166 | Definition, no contract: the three branches of `Failure` (blacklisted, backoff running, backoff started by this call, which either blacklists or schedules). Each branch is proved in `FailureWhileBlacklisted`, `FailureCoalesces`, `FailureReachesThreshold` and `FailureStartsBackoff`. |
| `ServerStateMachine.MarkServerAlive` | federationapi/statistics/statistics.go:218-229 | Definition, no contract: store removal only when blacklisted, then the `Success` reset. Proved in `MarkServerAliveResets`. |
| `ServerStateMachine.BackoffFinished` | federationapi/statistics/statistics.go:189-198 | Definition, no contract: `ClearBackoff` and the notifier to invoke. Proved in `BackoffFinishedNotifiesOnce`. |
| `ServerStateMachine.AssignBackoffNotifier` | federationapi/statistics/statistics.go:109-113 | Definition, no contract: replaces the notifier. Its effect on `Inv` is proved in `OperationsKeepInv`. |
| `Backoff.WrapInt64` | federationapi/statistics/statistics.go:95 | The result lies in the int64 range, is congruent to the input modulo 2^64, and equals the input when that is already in range. This is Go's signed 64-bit wrap-around. |
| `ServerStateMachine.Apply` | federationapi/statistics/statistics.go:121-198 | Any single operation on a server keeps `Inv` and leaves `successCounter` unchanged. |
| `ServerStateMachine.Run` | federationapi/statistics/statistics.go:75-85 | Every state reached by any sequence of operations satisfies `Inv`, so no count wraps. The success counter never changes, because nothing in the file increments it. |
| `ServerStateMachine.RunAppend` | federationapi/statistics/statistics.go:121-198 | Running two sequences one after the other is running their concatenation. |
| `ServerStateMachine.StoredInstantPersists` | federationapi/statistics/statistics.go:200-207 | Once `backoffUntil` holds an instant, no sequence of calls makes it absent again. So `BackoffInfo` returns nil only before the first store. |
| `ServerStateMachine.CreatedSatisfiesInv` | federationapi/statistics/statistics.go:53-66 | A new record has count 0 and no `backoffUntil`. It is blacklisted exactly when the store lists it and the lookup succeeds, and it satisfies `Inv`. |
| `ServerStateMachine.OperationsKeepInv` | federationapi/statistics/statistics.go:100-198 | `Success` and `MarkServerAlive` establish `Inv` from any state. `Failure`, `ClearBackoff`, `backoffFinished` and `AssignBackoffNotifier` preserve it. |
| `ServerStateMachine.FailureWhileBlacklisted` | federationapi/statistics/statistics.go:130-134 | A failure against a blacklisted server returns (zero time, true) and changes no field, no timer entry and no store entry. |
| `ServerStateMachine.FailureStartsBackoff` | federationapi/statistics/statistics.go:140-165 | With no backoff running and the new count below the threshold, the effects are: `backoffStarted` set, count up by exactly one, `backoffUntil` and this server's timer both at now + 0.8 to 1.4 × 2^count s, that instant returned with false. Nothing else changes. |
| `ServerStateMachine.FailureCoalesces` | federationapi/statistics/statistics.go:140-165 | A failure while a backoff runs leaves count, instant, timer and every other field unchanged. It returns the stored `backoffUntil` with false. |
| `ServerStateMachine.FailureReachesThreshold` | federationapi/statistics/statistics.go:141-151 | When the incremented count reaches the threshold, the server is blacklisted with the incremented count. It has no backoff running and no timer. The store gains the name only when there is a store and the add succeeds; the flag is set either way. The failure returns (zero time, true). |
| `ServerStateMachine.SuccessResets` | federationapi/statistics/statistics.go:100-124 | `Success` from any state gives a state that is not blacklisted and has no backoff running. `backoffUntil` is the zero time, there is no timer and the count is 0. Nothing else changes, and a second `Success` is a no-op. |
| `ServerStateMachine.FailureAfterSuccessCountsOne` | federationapi/statistics/statistics.go:121-162 | After `Success`, the next failure is counted as the first. It backs off 1.6 to 2.8 s. |
| `ServerStateMachine.MarkServerAliveResets` | federationapi/statistics/statistics.go:218-229 | `MarkServerAlive` returns the prior `blacklisted`. The store removes the name only when the server was blacklisted and the removal succeeds. Otherwise the result is exactly the reset of `Success`, including count 0 for a server that was not blacklisted. |
| `ServerStateMachine.ClearBackoffIdempotent` | federationapi/statistics/statistics.go:176-186 | `ClearBackoff` is idempotent. It leaves no backoff running and no timer, and it keeps `Inv`. |
| `ServerStateMachine.BackoffFinishedNotifiesOnce` | federationapi/statistics/statistics.go:189-198 | When the timer fires, the backoff ends and its timer entry goes. The notifier assigned at that moment is invoked once, and count and `backoffUntil` are kept. |
| `ServerStateMachine.RepeatedFailuresCoalesce` | federationapi/statistics/statistics.go:136-165 | Any number of failures during one running backoff leave the record unchanged. |
| `ServerStateMachine.WaitedFailuresCount` | federationapi/statistics/statistics.go:140-162 | Failures that each come after the previous backoff fired are counted one by one. Below the threshold, the server ends with no backoff running, not blacklisted, and its count raised by the number of failures. |
| `ServerStateMachine.BlacklistedAfterThreshold` | federationapi/statistics/statistics.go:27-30 | From count 0, threshold − 1 waited-out failures followed by one more blacklist the server. The last failure returns (zero time, true) and leaves count = threshold and no timer. Any further failure returns (zero time, true) and changes nothing. |
| `ServerStateMachine.EndToEndScenario` | federationapi/statistics/statistics.go:121-198 | With a threshold of 3, the three failures give: backoff 1.6–2.8 s then the notifier fires, backoff 3.2–5.6 s then the notifier fires, then blacklisted with (zero time, true). `Success` then restores a healthy server with count 0. |
| `FederationStatistics.Statistics.constructor` | federationapi/statistics/statistics.go:33-43 | `NewStatistics` creates a valid registry with no servers and no timers. |
| `FederationStatistics.Statistics.ForServer` | federationapi/statistics/statistics.go:47-69 | An existing name returns its record with nothing changed. A new name gets a fresh record, hydrated from the store unless the lookup fails. No entry is ever removed or replaced, and the registry stays valid. |
| `FederationStatistics.ServerStatistics.constructor` | federationapi/statistics/statistics.go:55-58 | The struct literal: every field zero or empty, bound to its registry and name. |
| `FederationStatistics.ServerStatistics.ClearBackoff` | federationapi/statistics/statistics.go:176-186 | Removes exactly this server's timer entry and clears `backoffStarted`. It works from any state and keeps the registry valid when it was. |
| `FederationStatistics.ServerStatistics.Cancel` | federationapi/statistics/statistics.go:100-105 | Unblacklists, stores the zero time and clears the backoff. |
| `FederationStatistics.ServerStatistics.AssignBackoffNotifier` | federationapi/statistics/statistics.go:109-113 | Replaces the notifier and changes nothing else. |
| `FederationStatistics.ServerStatistics.Success` | federationapi/statistics/statistics.go:121-124 | Moves the server as `ServerStateMachine.Success` does. Other servers' timer and store entries are untouched, and the registry stays valid. |
| `FederationStatistics.ServerStatistics.Failure` | federationapi/statistics/statistics.go:130-166 | The new state and both results are those of `ServerStateMachine.Failure`. Other servers' entries are untouched, and the registry stays valid. |
| `FederationStatistics.ServerStatistics.StartBackoff` | federationapi/statistics/statistics.go:140-162 | The winner of the compare-and-swap counts the failure, then either blacklists the server or starts a backoff, as `ServerStateMachine.Failure` does. |
| `FederationStatistics.ServerStatistics.Blacklist` | federationapi/statistics/statistics.go:141-151 | Count up by one, flag set, store updated unless there is none or the add fails, and no timer entry left for this server. |
| `FederationStatistics.ServerStatistics.ScheduleBackoff` | federationapi/statistics/statistics.go:154-162 | `backoffUntil` and this server's timer are both set to now + `Duration` of the incremented count. |
| `FederationStatistics.ServerStatistics.MarkServerAlive` | federationapi/statistics/statistics.go:170-172 | Delegates to `RemoveBlacklist`; same contract. |
| `FederationStatistics.ServerStatistics.RemoveBlacklist` | federationapi/statistics/statistics.go:218-229 | The new state and the result are those of `ServerStateMachine.MarkServerAlive`. Other servers' entries are untouched, and the registry stays valid. |
| `FederationStatistics.ServerStatistics.BackoffFinished` | federationapi/statistics/statistics.go:189-198 | Clears the backoff and returns the notifier invoked, which is the one assigned at that moment, if any. |
| `FederationStatistics.ServerStatistics.Blacklisted` | federationapi/statistics/statistics.go:210-214 | Returns the flag. A blacklisted server has no backoff running and no timer entry. |
| `FederationStatistics.ServerStatistics.BackoffInfo` | federationapi/statistics/statistics.go:200-207 | Returns the stored `backoffUntil`, and never None while a backoff runs. It is None only before the first store (`ServerStateMachine.StoredInstantPersists`). While a timer is pending, the result is the instant the timer fires. |
| `FederationStatistics.ServerStatistics.SuccessCount` | federationapi/statistics/statistics.go:231-235 | Returns `successCounter`. No operation changes it (see `ServerStateMachine.Run`). |

Notes on the code's behaviour, which the model follows:
- Entering the blacklist (statistics.go:141-151) does not reset
  `backoffCount`. The count stays at the threshold until `Success` or
  `MarkServerAlive`.
- `MarkServerAlive` on a server that is not blacklisted still resets
  `backoffCount` to 0, stores the zero time and clears the backoff.
- After `Success`, `BackoffInfo` returns the zero time, not an absent value.
- The doc comment of `Success` (statistics.go:115-119) says it increases the
  sent counter, and the comment of `SuccessCount` (statistics.go:231-232)
  says that counter helps build transaction IDs. No code in the file
  increments `successCounter`, so `SuccessCount` returns 0 for every record
  for its whole life. The model follows the code: `ServerStateMachine.Run`
  proves the counter never changes. The same comment also describes a
  `relay` argument that `Success` does not take.

## Left out

- Concurrency is not modelled: the `RWMutex`es, the atomics, `notifierMutex`, and the create race in `ForServer` (two callers building two records for one name). Every operation runs alone, and the compare-and-swap on `backoffStarted` is an ordinary test and set. So the model does not capture coalescing between callers that overlap in time. Nor does it capture a caller that loses the compare-and-swap and reads `backoffUntil` before the winner stores it.
- Real timers are not modelled. `time.AfterFunc` is an entry in `backoffTimers` holding its due instant, and `timer.Stop` is the removal of that entry. A timer is fired by calling `BackoffFinished`, so the model does not relate that call to the clock. It also does not capture a timer that fires although it was being stopped.
- `rand.Float64` and the float arithmetic of `duration` are replaced by an integer jitter in thousandths, supplied by the caller. Jitters finer than a thousandth are not modelled, and neither is float rounding of `math.Exp2(count)*jitter*1000`. That rounding has two effects the model does not capture. First, for some jitters the truncated product is one millisecond below `2^count * jitter` (for example 2 · 1.001 · 1000 rounds to 2001.9999999999998 and truncates to 2001). Second, the largest `rand.Float64` draw rounds the jitter up to exactly 1.4, so `duration` can reach 1400 · 2^count ms, the closed end of the window that `Backoff.Duration` treats as open.
- `time.Now()` is the parameter `now`, and instants are whole milliseconds. Go's nanosecond resolution is not modelled.
- Logging through logrus is left out.
- The `storage.Database` implementation is not part of this model. The store is a set of names. Each call's failure is a parameter, and a failed call leaves the set as it was.
- A nil store: `ForServer` for a new name and `RemoveBlacklist` for a blacklisted server call the store without checking for nil, which panics in the source. Those calls therefore require a store. `Failure` checks for a nil store and is modelled with and without one.
- `ServerStatistics` values built outside `ForServer` are not modelled. Every record belongs to its registry.
- `ServerStateMachine.Failure` requires that a running backoff has a stored `backoffUntil`, because the source's type assertion panics otherwise. Every reachable state satisfies this (`Inv`).
- `ServerStateMachine.Run` and `ServerStateMachine.Apply` assume the registry has a store. A record only exists after `ForServer`, which needs one.
- `Backoff.DurationNanosAsWritten` requires that Go's float-to-int64 conversion of the millisecond count be defined. That is a count of at most 52, or a count of 53 with a jitter below 1.024; `Backoff.MillisInInt64Range` proves this is exactly the range below 2^63. Beyond it, the conversion's result depends on the platform and is not modelled.
- `syncapi/synctypes/clientevent_test.go` is not part of this model. It tests event formatting elsewhere in the repository.
- `mediaapi/mediaapi.go` is not part of this model. It only wires HTTP routes and storage.

## Findings

| source | as written | input that shows it | evidently intended | confidence | as-written member | corrected member |
|---|---|---|---|---|---|---|
| federationapi/statistics/statistics.go:95 | `time.Millisecond * time.Duration(ms)` multiplies in int64, which wraps | `FailuresUntilBlacklist` = 35, 34th consecutive failure, jitter 0.8: 2^34 · 800 ms = 1.374·10^19 ns > 2^63 − 1, which wraps to about −4.70·10^18 ns. The backoff then ends before it starts, and the timer fires at once. Reaching count 34 takes 33 ended backoffs first. Waiting them out through the timers alone takes about 0.8 · 2^34 s, centuries, so in practice the input needs calls of the exported `ClearBackoff` between failures. At count 34 only jitters below about 1.074 give a negative duration. Larger jitters wrap to a positive duration that is far too short (jitter 1.3: `Backoff.AsWrittenTooShortAt34`). At count 33 jitters from about 1.074 upward already give a negative one. | a backoff of 0.8 to 1.4 × 2^count seconds | not executed; high that the wrap happens for such a threshold, since Go's int64 multiplication wraps silently | `Backoff.DurationNanosAsWritten`, shown by `Backoff.AsWrittenNegativeAt34` | `Backoff.Duration` (bounds in its ensures; used by `ServerStateMachine.Failure`) |
