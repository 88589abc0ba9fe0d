/**
 The per-server backoff and blacklist state machine of statistics.go, on values.

 A `Peer` is everything one `ServerStatistics` operation can read or change:
 the record's own fields, the server's entry in the shared `backoffTimers`
 map, and whether the server is in the durable blacklist store. Each
 operation of the source is one function from the old `Peer` to the new one
 (and its results); the classes in FederationStatistics are proved to
 follow these functions, and the lemmas below state what they promise.
 */
module ServerStateMachine {
  import opened Backoff

  type ServerName = string

  /** Wall-clock instants in milliseconds, counted from Go's zero `time.Time`. */
  type Time = int

  /** `time.Time{}`. */
  const ZeroTime: Time := 0

  datatype Option<T> = None | Some(value: T)

  /** The identity of a callback handed to `AssignBackoffNotifier`. */
  datatype Notifier = Notifier(id: nat)

  datatype Peer = Peer(
    blacklisted: bool,
    backoffStarted: bool,
    /** None while the atomic.Value has never been stored to. */
    backoffUntil: Option<Time>,
    backoffCount: Uint32,
    successCounter: Uint32,
    notifier: Option<Notifier>,
    /** The due instant of this server's entry in `backoffTimers`, if any. */
    timer: Option<Time>,
    /** Whether the durable store lists this server as blacklisted. */
    stored: bool)

  /** Neither blacklisted nor backing off. */
  predicate Healthy(p: Peer) {
    !p.blacklisted && !p.backoffStarted
  }

  /**
   What holds of every record reachable from creation:
   a blacklisted server has no backoff and no timer; a timer is pending
   exactly while a backoff is running and fires at the stored `backoffUntil`;
   a running backoff was started by at least one failure; and the failure
   count of a server that is not blacklisted is 0 or below the threshold,
   so it never exceeds max(threshold, 1) and never wraps.
   */
  predicate Inv(p: Peer, threshold: Uint32) {
    && (p.blacklisted ==> !p.backoffStarted)
    && (p.backoffStarted <==> p.timer.Some?)
    && (p.backoffStarted ==> p.backoffUntil == p.timer && p.backoffCount >= 1)
    && (!p.blacklisted ==> p.backoffCount == 0 || p.backoffCount < threshold)
    && p.backoffCount <= (if threshold == 0 then 1 else threshold)
  }

  // ---------------------------------------------------------------------
  // Operations
  // ---------------------------------------------------------------------

  /**
   The record `ForServer` creates for a server it has not seen: all zero,
   except that `blacklisted` is taken from the durable store when the
   lookup succeeds.
   */
  function Created(stored: bool, lookupFails: bool): Peer {
    Peer(!lookupFails && stored, false, None, 0, 0, None, None, stored)
  }

  /** `ClearBackoff`: drop this server's timer entry and end the backoff. */
  function ClearBackoff(p: Peer): Peer {
    p.(timer := None, backoffStarted := false)
  }

  /** `cancel`: unblacklist, store the zero time, then `ClearBackoff`. */
  function Cancel(p: Peer): Peer {
    ClearBackoff(p.(blacklisted := false, backoffUntil := Some(ZeroTime)))
  }

  /** `Success`: `cancel` and reset the failure count. */
  function Success(p: Peer): Peer {
    Cancel(p).(backoffCount := 0)
  }

  datatype FailureOutcome = FailureOutcome(peer: Peer, until: Time, blacklisted: bool)

  /**
   `Failure` at instant `now`. `hasDB` says whether the registry has a
   store, `addFails` whether adding to it fails, and `jitter` is the jitter
   the source would draw. The source's type assertion on `backoffUntil`
   panics if a backoff is running before any instant was stored, hence the
   requires.
   */
  function Failure(p: Peer, threshold: Uint32, hasDB: bool, addFails: bool, now: Time, jitter: Jitter): FailureOutcome
    requires p.backoffStarted ==> p.backoffUntil.Some?
  {
    if p.blacklisted then
      FailureOutcome(p, ZeroTime, true)
    else if p.backoffStarted then
      FailureOutcome(p, p.backoffUntil.value, false)
    else
      var count := Inc32(p.backoffCount);
      var started := p.(backoffStarted := true, backoffCount := count);
      if count >= threshold then
        var listed := started.(blacklisted := true, stored := if hasDB && !addFails then true else p.stored);
        FailureOutcome(ClearBackoff(listed), ZeroTime, true)
      else
        var until := now + Duration(count, jitter);
        FailureOutcome(started.(backoffUntil := Some(until), timer := Some(until)), until, false)
  }

  datatype AliveOutcome = AliveOutcome(peer: Peer, wasBlacklisted: bool)

  /**
   `MarkServerAlive` (`removeBlacklist`): when blacklisted, remove the
   server from the store (`removeFails`: that call fails, and its error is
   dropped); then on every path the same reset as `Success`.
   */
  function MarkServerAlive(p: Peer, removeFails: bool): AliveOutcome {
    var removed := if p.blacklisted && !removeFails then p.(stored := false) else p;
    AliveOutcome(Success(removed), p.blacklisted)
  }

  datatype FinishedOutcome = FinishedOutcome(peer: Peer, notified: Option<Notifier>)

  /** `backoffFinished`, run when the timer fires: `ClearBackoff`, then call the notifier if one is set. */
  function BackoffFinished(p: Peer): FinishedOutcome {
    FinishedOutcome(ClearBackoff(p), p.notifier)
  }

  function AssignBackoffNotifier(p: Peer, n: Option<Notifier>): Peer {
    p.(notifier := n)
  }

  // ---------------------------------------------------------------------
  // Sequences of calls on one server
  // ---------------------------------------------------------------------

  datatype Call =
    | SuccessCall
    | FailureCall(now: Time, jitter: Jitter, addFails: bool)
    | MarkAliveCall(removeFails: bool)
    | ClearBackoffCall
    | TimerFired
    | AssignNotifierCall(n: Option<Notifier>)

  /**
   One call on a server of a registry that has a store (a record is only
   created through `ForServer`, which needs one). The invariant is kept and
   the success counter is never touched.
   */
  function Apply(p: Peer, c: Call, threshold: Uint32): (r: Peer)
    requires Inv(p, threshold)
    ensures Inv(r, threshold)
    ensures r.successCounter == p.successCounter
  {
    match c
    case SuccessCall => Success(p)
    case FailureCall(now, jitter, addFails) => Failure(p, threshold, true, addFails, now, jitter).peer
    case MarkAliveCall(removeFails) => MarkServerAlive(p, removeFails).peer
    case ClearBackoffCall => ClearBackoff(p)
    case TimerFired => BackoffFinished(p).peer
    case AssignNotifierCall(n) => AssignBackoffNotifier(p, n)
  }

  /**
   The state after a sequence of calls: every such state satisfies the
   invariant and keeps the success counter it started with.
   */
  function Run(p: Peer, calls: seq<Call>, threshold: Uint32): (r: Peer)
    requires Inv(p, threshold)
    ensures Inv(r, threshold)
    ensures r.successCounter == p.successCounter
    decreases |calls|
  {
    if calls == [] then p else Run(Apply(p, calls[0], threshold), calls[1..], threshold)
  }

  lemma {:induction false} RunAppend(p: Peer, a: seq<Call>, b: seq<Call>, threshold: Uint32)
    requires Inv(p, threshold)
    ensures Run(p, a + b, threshold) == Run(Run(p, a, threshold), b, threshold)
    decreases |a|
  {
    if a != [] {
      assert (a + b)[0] == a[0];
      assert (a + b)[1..] == a[1..] + b;
      RunAppend(Apply(p, a[0], threshold), a[1..], b, threshold);
    } else {
      assert a + b == b;
    }
  }

  /**
   Once an instant has been stored in `backoffUntil`, no sequence of calls
   takes it away again: `BackoffInfo` reports none only before the first
   store.
   */
  lemma {:induction false} StoredInstantPersists(p: Peer, calls: seq<Call>, threshold: Uint32)
    requires Inv(p, threshold) && p.backoffUntil.Some?
    ensures Run(p, calls, threshold).backoffUntil.Some?
    decreases |calls|
  {
    if calls != [] {
      StoredInstantPersists(Apply(p, calls[0], threshold), calls[1..], threshold);
    }
  }

  // ---------------------------------------------------------------------
  // Properties of single calls
  // ---------------------------------------------------------------------

  lemma CreatedSatisfiesInv(stored: bool, lookupFails: bool, threshold: Uint32)
    ensures Inv(Created(stored, lookupFails), threshold)
    ensures Created(stored, lookupFails).blacklisted <==> stored && !lookupFails
    ensures Created(stored, lookupFails).backoffCount == 0
    ensures Created(stored, lookupFails).backoffUntil == None
  {
  }

  /** Every operation keeps the invariant; `Success` and `MarkServerAlive` establish it from any state. */
  lemma OperationsKeepInv(p: Peer, threshold: Uint32, hasDB: bool, addFails: bool, now: Time, jitter: Jitter,
                          removeFails: bool, n: Option<Notifier>)
    ensures Inv(Success(p), threshold)
    ensures Inv(MarkServerAlive(p, removeFails).peer, threshold)
    ensures Inv(p, threshold) ==>
      && Inv(Failure(p, threshold, hasDB, addFails, now, jitter).peer, threshold)
      && Inv(ClearBackoff(p), threshold)
      && Inv(BackoffFinished(p).peer, threshold)
      && Inv(AssignBackoffNotifier(p, n), threshold)
  {
  }

  /** A failure against a blacklisted server is free: nothing changes. */
  lemma FailureWhileBlacklisted(p: Peer, threshold: Uint32, hasDB: bool, addFails: bool, now: Time, jitter: Jitter)
    requires p.blacklisted && (p.backoffStarted ==> p.backoffUntil.Some?)
    ensures Failure(p, threshold, hasDB, addFails, now, jitter) == FailureOutcome(p, ZeroTime, true)
  {
  }

  /**
   The failure that starts a backoff below the threshold counts exactly one
   more failure, stores `backoffUntil` 0.8 to 1.4 times 2^count seconds after
   `now`, schedules this server's timer for that instant, and reports it.
   */
  lemma FailureStartsBackoff(p: Peer, threshold: Uint32, hasDB: bool, addFails: bool, now: Time, jitter: Jitter)
    requires Inv(p, threshold) && Healthy(p)
    requires p.backoffCount + 1 < threshold
    ensures var o := Failure(p, threshold, hasDB, addFails, now, jitter);
      && !o.blacklisted
      && o.peer == p.(backoffStarted := true, backoffCount := p.backoffCount + 1,
                      backoffUntil := Some(o.until), timer := Some(o.until))
      && now + MinJitterPerMille * Pow2(p.backoffCount + 1) <= o.until
      && o.until < now + MaxJitterPerMille * Pow2(p.backoffCount + 1)
  {
  }

  /**
   Failures while a backoff is running are coalesced: count, instant, timer
   and every other field stay as they are, and the running backoff's instant
   is reported.
   */
  lemma FailureCoalesces(p: Peer, threshold: Uint32, hasDB: bool, addFails: bool, now: Time, jitter: Jitter)
    requires !p.blacklisted && p.backoffStarted && p.backoffUntil.Some?
    ensures Failure(p, threshold, hasDB, addFails, now, jitter) == FailureOutcome(p, p.backoffUntil.value, false)
  {
  }

  /**
   The failure that brings the count to the threshold blacklists the server:
   count one higher, no backoff and no timer, the store updated when there is
   one and the add succeeds (the flag is set either way), and (zero, true)
   reported.
   */
  lemma FailureReachesThreshold(p: Peer, threshold: Uint32, hasDB: bool, addFails: bool, now: Time, jitter: Jitter)
    requires Inv(p, threshold) && Healthy(p)
    requires p.backoffCount + 1 >= threshold
    ensures Failure(p, threshold, hasDB, addFails, now, jitter)
      == FailureOutcome(p.(blacklisted := true, backoffCount := p.backoffCount + 1,
                           stored := p.stored || (hasDB && !addFails)),
                        ZeroTime, true)
  {
  }

  /**
   `Success` from any state leaves the server healthy, with the zero time
   stored, no timer and a zero count; it touches nothing else, and a second
   `Success` changes nothing.
   */
  lemma SuccessResets(p: Peer, threshold: Uint32)
    ensures Success(p) == p.(blacklisted := false, backoffStarted := false,
                             backoffUntil := Some(ZeroTime), backoffCount := 0, timer := None)
    ensures Inv(Success(p), threshold) && Healthy(Success(p))
    ensures Success(Success(p)) == Success(p)
  {
  }

  /** After `Success` the next failure is counted as the first one. */
  lemma FailureAfterSuccessCountsOne(p: Peer, threshold: Uint32, hasDB: bool, addFails: bool, now: Time, jitter: Jitter)
    requires threshold > 1
    ensures var o := Failure(Success(p), threshold, hasDB, addFails, now, jitter);
      && o.peer.backoffCount == 1 && !o.blacklisted
      && now + 1600 <= o.until < now + 2800
  {
    assert Pow2(1) == 2;
  }

  /**
   `MarkServerAlive` reports whether the server was blacklisted, removes it
   from the store only then (and only when the removal succeeds), and
   otherwise performs exactly the reset of `Success`, including a zero count
   for a server that was not blacklisted.
   */
  lemma MarkServerAliveResets(p: Peer, removeFails: bool)
    ensures var o := MarkServerAlive(p, removeFails);
      && o.wasBlacklisted == p.blacklisted
      && o.peer == Success(p).(stored := p.stored && (removeFails || !p.blacklisted))
      && (!p.blacklisted ==> o.peer == Success(p))
  {
  }

  /** `ClearBackoff` is idempotent and keeps the invariant. */
  lemma ClearBackoffIdempotent(p: Peer, threshold: Uint32)
    ensures ClearBackoff(ClearBackoff(p)) == ClearBackoff(p)
    ensures !ClearBackoff(p).backoffStarted && ClearBackoff(p).timer == None
    ensures Inv(p, threshold) ==> Inv(ClearBackoff(p), threshold)
  {
  }

  /**
   When the timer fires the backoff ends and its entry is gone, the
   notifier assigned at that moment (if any) is invoked once, and the count
   and stored instant are kept for the next failure.
   */
  lemma BackoffFinishedNotifiesOnce(p: Peer)
    ensures var o := BackoffFinished(p);
      && o.notified == p.notifier
      && o.peer == p.(backoffStarted := false, timer := None)
  {
  }

  // ---------------------------------------------------------------------
  // Properties of sequences of calls
  // ---------------------------------------------------------------------

  /** Any number of failures during one backoff leave the record unchanged. */
  lemma {:induction false} RepeatedFailuresCoalesce(p: Peer, calls: seq<Call>, threshold: Uint32)
    requires Inv(p, threshold) && !p.blacklisted && p.backoffStarted
    requires forall i :: 0 <= i < |calls| ==> calls[i].FailureCall?
    ensures Run(p, calls, threshold) == p
    decreases |calls|
  {
    if calls != [] {
      FailureCoalesces(p, threshold, true, calls[0].addFails, calls[0].now, calls[0].jitter);
      RepeatedFailuresCoalesce(p, calls[1..], threshold);
    }
  }

  datatype Attempt = Attempt(now: Time, jitter: Jitter)

  /** A failure followed by waiting out its backoff, once per attempt. */
  function FailAndWait(attempts: seq<Attempt>): (calls: seq<Call>)
    ensures |calls| == 2 * |attempts|
  {
    if attempts == [] then []
    else [FailureCall(attempts[0].now, attempts[0].jitter, false), TimerFired] + FailAndWait(attempts[1..])
  }

  /**
   Failures that each come after the previous backoff ended are counted one
   by one: below the threshold the server ends healthy with its count raised
   by the number of failures.
   */
  lemma {:induction false} WaitedFailuresCount(p: Peer, attempts: seq<Attempt>, threshold: Uint32)
    requires Inv(p, threshold) && Healthy(p)
    requires p.backoffCount + |attempts| < threshold
    ensures var r := Run(p, FailAndWait(attempts), threshold);
      Healthy(r) && r.backoffCount == p.backoffCount + |attempts|
    decreases |attempts|
  {
    if attempts != [] {
      var a := attempts[0];
      var head := [FailureCall(a.now, a.jitter, false), TimerFired];
      assert FailAndWait(attempts) == head + FailAndWait(attempts[1..]);
      RunAppend(p, head, FailAndWait(attempts[1..]), threshold);
      FailureStartsBackoff(p, threshold, true, false, a.now, a.jitter);
      var failed := Apply(p, head[0], threshold);
      var q := Apply(failed, TimerFired, threshold);
      assert head[1..] == [TimerFired];
      assert Run(failed, [TimerFired], threshold) == Run(q, [], threshold);
      assert Run(p, head, threshold) == q;
      assert Healthy(q) && q.backoffCount == p.backoffCount + 1;
      WaitedFailuresCount(q, attempts[1..], threshold);
    }
  }

  /**
   From a reset server, `threshold - 1` failures each waited out and then
   one more failure blacklist it; the last failure reports (zero, true), and
   any failure after it is free.
   */
  lemma BlacklistedAfterThreshold(p: Peer, attempts: seq<Attempt>, threshold: Uint32,
                                  addFails: bool, now: Time, jitter: Jitter)
    requires Inv(p, threshold) && Healthy(p) && p.backoffCount == 0
    requires threshold >= 1 && |attempts| == threshold - 1
    ensures var q := Run(p, FailAndWait(attempts), threshold);
      var o := Failure(q, threshold, true, addFails, now, jitter);
      && o.until == ZeroTime && o.blacklisted
      && o.peer.blacklisted && !o.peer.backoffStarted && o.peer.timer == None
      && o.peer.backoffCount == threshold
      && Failure(o.peer, threshold, true, addFails, now, jitter) == FailureOutcome(o.peer, ZeroTime, true)
  {
    var q := Run(p, FailAndWait(attempts), threshold);
    WaitedFailuresCount(p, attempts, threshold);
    FailureReachesThreshold(q, threshold, true, addFails, now, jitter);
  }

  /**
   With a threshold of 3: the first failure backs off for 1.6 to 2.8 seconds
   and the timer's firing invokes the notifier; the second backs off for
   3.2 to 5.6 seconds; the third blacklists the server and reports
   (zero, true); a success then makes it healthy with a zero count.
   */
  lemma EndToEndScenario(p: Peer, addFails: bool, now1: Time, j1: Jitter, now2: Time, j2: Jitter,
                         now3: Time, j3: Jitter)
    requires Inv(p, 3) && Healthy(p) && p.backoffCount == 0
    ensures
      var o1 := Failure(p, 3, true, addFails, now1, j1);
      var f1 := BackoffFinished(o1.peer);
      var o2 := Failure(f1.peer, 3, true, addFails, now2, j2);
      var f2 := BackoffFinished(o2.peer);
      var o3 := Failure(f2.peer, 3, true, addFails, now3, j3);
      && !o1.blacklisted && o1.peer.backoffCount == 1 && now1 + 1600 <= o1.until < now1 + 2800
      && f1.notified == p.notifier && Healthy(f1.peer)
      && !o2.blacklisted && o2.peer.backoffCount == 2 && now2 + 3200 <= o2.until < now2 + 5600
      && f2.notified == p.notifier && Healthy(f2.peer)
      && o3 == FailureOutcome(o3.peer, ZeroTime, true) && o3.peer.blacklisted
      && Healthy(Success(o3.peer)) && Success(o3.peer).backoffCount == 0
  {
    assert Pow2(1) == 2 && Pow2(2) == 4;
  }
}
