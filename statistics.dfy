/**
 The registry of remote servers and the per-server records of
 statistics.go, as objects updated in place.

 `Statistics` owns the `servers` map and the `backoffTimers` map; a pending
 `time.AfterFunc` timer is represented by the instant it fires, and its
 firing by a call of `ServerStatistics.BackoffFinished`. The durable
 blacklist store is the set `blacklistStore`; whether each call to it fails
 is a parameter of the operation that makes the call. Instants are
 integers (`Time`) supplied by the caller in place of `time.Now()`.

 Every mutating method of `ServerStatistics` is proved to move its server's
 `View()` exactly as a transition of ServerStateMachine does (the one of
 the same name; for `StartBackoff`, `Blacklist` and `ScheduleBackoff`, the
 branches of `Failure`; for `RemoveBlacklist`, `MarkServerAlive`), and to
 leave every other server's timer entry and store membership alone. The exported methods and the timer callback
 `BackoffFinished` keep `Statistics.Valid()`; `ClearBackoff` keeps it
 whenever it held before the call. The private `Cancel` does not keep it
 on its own: on a server blacklisted at the threshold it leaves an
 unblacklisted record whose count is still the threshold, which its
 callers `Success` and `RemoveBlacklist` then reset.
 */
module FederationStatistics {
  import opened Backoff
  import opened ServerStateMachine

  class Statistics {
    /** Whether the registry was given a store (`DB != nil`). */
    const hasDB: bool
    /** The server names the durable store lists as blacklisted. */
    var blacklistStore: set<ServerName>
    var servers: map<ServerName, ServerStatistics>
    /** Pending backoff timers, each given by the instant it fires. */
    var backoffTimers: map<ServerName, Time>
    const FailuresUntilBlacklist: Uint32

    /**
     Every record is registered under its own name and belongs to this
     registry; every timer belongs to a registered server; and every record
     satisfies the state machine's invariant (so a timer is pending exactly
     for the servers that are backing off).
     */
    ghost predicate Valid()
      reads this, servers.Values
    {
      && (forall n :: n in backoffTimers ==> n in servers)
      && (forall n :: n in servers ==> Registered(n))
    }

    /** The record under `n` is this registry's record for `n`, and satisfies the invariant. */
    ghost predicate Registered(n: ServerName)
      requires n in servers
      reads this, servers[n]
    {
      && servers[n].statistics == this
      && servers[n].serverName == n
      && Inv(servers[n].View(), FailuresUntilBlacklist)
    }

    /** `NewStatistics`: no servers and no timers yet. */
    constructor (hasDB: bool, store: set<ServerName>, failuresUntilBlacklist: Uint32)
      ensures Valid()
      ensures this.hasDB == hasDB && blacklistStore == store
      ensures FailuresUntilBlacklist == failuresUntilBlacklist
      ensures servers == map[] && backoffTimers == map[]
    {
      this.hasDB := hasDB;
      blacklistStore := store;
      FailuresUntilBlacklist := failuresUntilBlacklist;
      servers := map[];
      backoffTimers := map[];
    }

    /**
     `ForServer`: the record already registered under `serverName`, or a new
     one registered under it, hydrated from the store unless the lookup
     fails (`lookupFails`). The source calls the store without checking for
     a missing one, so creating a record needs one. No record is replaced or
     removed.
     */
    method ForServer(serverName: ServerName, lookupFails: bool) returns (server: ServerStatistics)
      requires Valid()
      requires serverName in servers || hasDB
      modifies this`servers
      ensures Valid() && server.Valid()
      ensures server.statistics == this && server.serverName == serverName
      ensures forall n :: n in old(servers) ==> n in servers && servers[n] == old(servers[n])
      ensures serverName in old(servers) ==> server == old(servers[serverName]) && servers == old(servers)
      ensures serverName !in old(servers) ==>
        && fresh(server)
        && servers == old(servers)[serverName := server]
        && server.View() == Created(serverName in blacklistStore, lookupFails)
    {
      if serverName in servers {
        return servers[serverName];
      }
      server := new ServerStatistics(this, serverName);
      servers := servers[serverName := server];
      if !lookupFails {
        server.blacklisted := serverName in blacklistStore;
      }
      assert serverName !in backoffTimers;
      assert server.View() == Created(serverName in blacklistStore, lookupFails);
      CreatedSatisfiesInv(serverName in blacklistStore, lookupFails, FailuresUntilBlacklist);
      forall n | n in servers && n != serverName
        ensures servers[n].statistics == this && servers[n].serverName == n
        ensures Inv(servers[n].View(), FailuresUntilBlacklist)
      {
        assert n in old(servers) && servers[n] == old(servers[n]);
        assert servers[n].View() == old(servers[n].View());
      }
    }
  }

  lemma RemoveKeyTwice<V>(m: map<ServerName, V>, k: ServerName)
    ensures (m - {k}) - {k} == m - {k}
  {
  }

  lemma UpdateThenRemoveKey<V>(m: map<ServerName, V>, k: ServerName, v: V)
    ensures m[k := v] - {k} == m - {k}
  {
  }

  /**
   The registry stays valid when one record changed, no other record did,
   the timer map changed at most at that record's name, and the record's
   new state satisfies the invariant.
   */
  twostate lemma ValidAfterOwnChange(s: ServerStatistics)
    requires old(s.Valid())
    requires s.statistics.servers == old(s.statistics.servers)
    requires forall n :: n in s.statistics.servers && s.statistics.servers[n] != s ==> unchanged(s.statistics.servers[n])
    requires s.statistics.backoffTimers - {s.serverName} == old(s.statistics.backoffTimers) - {s.serverName}
    requires Inv(s.View(), s.statistics.FailuresUntilBlacklist)
    ensures s.Valid()
  {
    var st := s.statistics;
    forall n | n in st.servers
      ensures st.servers[n].statistics == st && st.servers[n].serverName == n
      ensures Inv(st.servers[n].View(), st.FailuresUntilBlacklist)
    {
      if n != s.serverName {
        var o := st.servers[n];
        assert old(st.Registered(n));
        var rest, oldRest := st.backoffTimers - {s.serverName}, old(st.backoffTimers) - {s.serverName};
        assert (n in st.backoffTimers) == (n in rest) == (n in oldRest) == (n in old(st.backoffTimers));
        assert n in rest ==> rest[n] == st.backoffTimers[n] && oldRest[n] == old(st.backoffTimers[n]);
        assert o.View().(stored := false) == old(o.View()).(stored := false);
      }
    }
    forall n | n in st.backoffTimers
      ensures n in st.servers
    {
      if n != s.serverName {
        assert n in st.backoffTimers - {s.serverName};
        assert n in old(st.backoffTimers);
      }
    }
  }

  class ServerStatistics {
    const statistics: Statistics
    const serverName: ServerName
    var blacklisted: bool
    var backoffStarted: bool
    /** None until the first store, like the source's empty atomic.Value. */
    var backoffUntil: Option<Time>
    var backoffCount: Uint32
    var successCounter: Uint32
    var backoffNotifier: Option<Notifier>

    /** The zero-valued struct literal `ForServer` builds. */
    constructor (statistics: Statistics, serverName: ServerName)
      ensures this.statistics == statistics && this.serverName == serverName
      ensures !blacklisted && !backoffStarted && backoffUntil == None
      ensures backoffCount == 0 && successCounter == 0 && backoffNotifier == None
    {
      this.statistics := statistics;
      this.serverName := serverName;
      blacklisted, backoffStarted, backoffUntil := false, false, None;
      backoffCount, successCounter, backoffNotifier := 0, 0, None;
    }

    /** This server's state: its fields, its timer entry and its store membership. */
    ghost function View(): Peer
      reads this, statistics
    {
      Peer(blacklisted, backoffStarted, backoffUntil, backoffCount, successCounter, backoffNotifier,
           if serverName in statistics.backoffTimers then Some(statistics.backoffTimers[serverName]) else None,
           serverName in statistics.blacklistStore)
    }

    ghost predicate Valid()
      reads this, statistics, statistics.servers.Values
    {
      && serverName in statistics.servers
      && statistics.servers[serverName] == this
      && statistics.Valid()
    }

    /** The timer entries and store memberships of all other servers are as they were. */
    twostate predicate OthersUnchanged()
      reads statistics
    {
      && statistics.backoffTimers - {serverName} == old(statistics.backoffTimers) - {serverName}
      && statistics.blacklistStore - {serverName} == old(statistics.blacklistStore) - {serverName}
    }

    /**
     `ClearBackoff`: remove this server's timer (stopping it) and no other,
     and end the backoff. Callable in any state, also half-way through
     `Failure`; it keeps the registry valid when it was.
     */
    method ClearBackoff()
      modifies this`backoffStarted, statistics`backoffTimers
      ensures !backoffStarted
      ensures statistics.backoffTimers == old(statistics.backoffTimers) - {serverName}
      ensures View() == ServerStateMachine.ClearBackoff(old(View()))
      ensures old(Valid()) ==> Valid()
    {
      ghost var wasValid := Valid();
      statistics.backoffTimers := statistics.backoffTimers - {serverName};
      backoffStarted := false;
      if wasValid {
        ValidAfterOwnChange(this);
      }
    }

    /** `cancel`: unblacklist, store the zero time and clear the backoff. */
    method Cancel()
      modifies this`blacklisted, this`backoffUntil, this`backoffStarted, statistics`backoffTimers
      ensures statistics.backoffTimers == old(statistics.backoffTimers) - {serverName}
      ensures View() == ServerStateMachine.Cancel(old(View()))
    {
      blacklisted := false;
      backoffUntil := Some(ZeroTime);
      ClearBackoff();
    }

    method AssignBackoffNotifier(notifier: Option<Notifier>)
      requires Valid()
      modifies this`backoffNotifier
      ensures Valid()
      ensures View() == ServerStateMachine.AssignBackoffNotifier(old(View()), notifier)
    {
      backoffNotifier := notifier;
      ValidAfterOwnChange(this);
    }

    /** `Success`: back to healthy with a zero failure count. */
    method Success()
      requires Valid()
      modifies this`blacklisted, this`backoffUntil, this`backoffStarted, this`backoffCount, statistics`backoffTimers
      ensures Valid() && OthersUnchanged()
      ensures View() == ServerStateMachine.Success(old(View()))
    {
      Cancel();
      backoffCount := 0;
      ValidAfterOwnChange(this);
    }

    /**
     `Failure` at instant `now`, with `jitter` the jitter drawn and
     `addFails` whether adding to the store fails. Returns the instant the
     backoff ends (zero when blacklisted) and whether the server is
     blacklisted.
     */
    method Failure(now: Time, jitter: Jitter, addFails: bool) returns (until: Time, isBlacklisted: bool)
      requires Valid()
      modifies this`blacklisted, this`backoffStarted, this`backoffUntil, this`backoffCount
      modifies statistics`backoffTimers, statistics`blacklistStore
      ensures Valid() && OthersUnchanged()
      ensures var o := ServerStateMachine.Failure(old(View()), statistics.FailuresUntilBlacklist,
                                                  statistics.hasDB, addFails, now, jitter);
        View() == o.peer && until == o.until && isBlacklisted == o.blacklisted
    {
      if blacklisted {
        return ZeroTime, true;
      }
      // The compare-and-swap of backoffStarted from false to true.
      if !backoffStarted {
        until, isBlacklisted := StartBackoff(now, jitter, addFails);
        return;
      }
      assert Inv(View(), statistics.FailuresUntilBlacklist);
      return backoffUntil.value, false;
    }

    /**
     What the winner of `Failure`'s compare-and-swap does: count the failure
     (`backoffCount.Inc()`), then blacklist the server if the count reached
     the threshold, or else start a backoff.
     */
    method StartBackoff(now: Time, jitter: Jitter, addFails: bool) returns (until: Time, isBlacklisted: bool)
      requires Valid() && !blacklisted && !backoffStarted
      modifies this`blacklisted, this`backoffStarted, this`backoffUntil, this`backoffCount
      modifies statistics`backoffTimers, statistics`blacklistStore
      ensures Valid() && OthersUnchanged()
      ensures var o := ServerStateMachine.Failure(old(View()), statistics.FailuresUntilBlacklist,
                                                  statistics.hasDB, addFails, now, jitter);
        View() == o.peer && until == o.until && isBlacklisted == o.blacklisted
    {
      var count := Inc32(backoffCount);
      if count >= statistics.FailuresUntilBlacklist {
        Blacklist(addFails);
        return ZeroTime, true;
      }
      until := ScheduleBackoff(now, jitter);
      return until, false;
    }

    /**
     The failure that reaches the threshold: count it, set the flag, add the
     server to the store when there is one (keeping the flag if that fails),
     and clear the backoff.
     */
    method Blacklist(addFails: bool)
      requires Valid() && !blacklisted && !backoffStarted
      requires Inc32(backoffCount) >= statistics.FailuresUntilBlacklist
      modifies this`blacklisted, this`backoffStarted, this`backoffCount
      modifies statistics`backoffTimers, statistics`blacklistStore
      ensures Valid() && OthersUnchanged()
      ensures View() == old(View()).(blacklisted := true, backoffCount := Inc32(old(backoffCount)),
                                     stored := old(View().stored) || (statistics.hasDB && !addFails))
    {
      ghost var before := View();
      OperationsKeepInv(before, statistics.FailuresUntilBlacklist, statistics.hasDB, addFails,
                        ZeroTime, MinJitterPerMille, false, None);
      backoffStarted := true;
      backoffCount := Inc32(backoffCount);
      blacklisted := true;
      if statistics.hasDB && !addFails {
        statistics.blacklistStore := statistics.blacklistStore + {serverName};
      }
      ClearBackoff();
      RemoveKeyTwice(old(statistics.backoffTimers), serverName);
      assert View() == ServerStateMachine.Failure(before, statistics.FailuresUntilBlacklist, statistics.hasDB,
                                                  addFails, ZeroTime, MinJitterPerMille).peer;
      ValidAfterOwnChange(this);
    }

    /**
     A failure below the threshold: count it, store the instant the backoff
     ends and schedule this server's timer for it.
     */
    method ScheduleBackoff(now: Time, jitter: Jitter) returns (until: Time)
      requires Valid() && !blacklisted && !backoffStarted
      requires Inc32(backoffCount) < statistics.FailuresUntilBlacklist
      modifies this`backoffStarted, this`backoffUntil, this`backoffCount, statistics`backoffTimers
      ensures Valid() && OthersUnchanged()
      ensures until == now + Duration(Inc32(old(backoffCount)), jitter)
      ensures View() == old(View()).(backoffStarted := true, backoffCount := Inc32(old(backoffCount)),
                                     backoffUntil := Some(until), timer := Some(until))
    {
      ghost var before := View();
      OperationsKeepInv(before, statistics.FailuresUntilBlacklist, statistics.hasDB, false,
                        now, jitter, false, None);
      backoffStarted := true;
      backoffCount := Inc32(backoffCount);
      var count := backoffCount;
      until := now + Duration(count, jitter);
      backoffUntil := Some(until);
      statistics.backoffTimers := statistics.backoffTimers[serverName := until];
      UpdateThenRemoveKey(old(statistics.backoffTimers), serverName, until);
      assert View() == ServerStateMachine.Failure(before, statistics.FailuresUntilBlacklist, statistics.hasDB,
                                                  false, now, jitter).peer;
      ValidAfterOwnChange(this);
    }

    /**
     `MarkServerAlive`: whether the server was blacklisted; the store is
     asked to forget it only then, and the state is reset as by `Success`.
     */
    method MarkServerAlive(removeFails: bool) returns (wasBlacklisted: bool)
      requires Valid()
      requires statistics.hasDB || !blacklisted
      modifies this`blacklisted, this`backoffUntil, this`backoffStarted, this`backoffCount
      modifies statistics`backoffTimers, statistics`blacklistStore
      ensures Valid() && OthersUnchanged()
      ensures var o := ServerStateMachine.MarkServerAlive(old(View()), removeFails);
        View() == o.peer && wasBlacklisted == o.wasBlacklisted
    {
      wasBlacklisted := RemoveBlacklist(removeFails);
    }

    /**
     `removeBlacklist`. The source calls the store without checking for a
     missing one when the server is blacklisted, and drops its error.
     */
    method RemoveBlacklist(removeFails: bool) returns (wasBlacklisted: bool)
      requires Valid()
      requires statistics.hasDB || !blacklisted
      modifies this`blacklisted, this`backoffUntil, this`backoffStarted, this`backoffCount
      modifies statistics`backoffTimers, statistics`blacklistStore
      ensures Valid() && OthersUnchanged()
      ensures var o := ServerStateMachine.MarkServerAlive(old(View()), removeFails);
        View() == o.peer && wasBlacklisted == o.wasBlacklisted
    {
      wasBlacklisted := false;
      if Blacklisted() {
        wasBlacklisted := true;
        if !removeFails {
          statistics.blacklistStore := statistics.blacklistStore - {serverName};
        }
      }
      Cancel();
      backoffCount := 0;
      ValidAfterOwnChange(this);
    }

    /**
     `backoffFinished`, what the timer runs when it fires: clear the
     backoff, then invoke the notifier assigned at that moment, if any;
     `notified` is the callback invoked.
     */
    method BackoffFinished() returns (notified: Option<Notifier>)
      requires Valid()
      modifies this`backoffStarted, statistics`backoffTimers
      ensures Valid() && OthersUnchanged()
      ensures var o := ServerStateMachine.BackoffFinished(old(View()));
        View() == o.peer && notified == o.notified
    {
      ClearBackoff();
      notified := backoffNotifier;
      ValidAfterOwnChange(this);
    }

    /** A blacklisted server never has a backoff running or a timer pending. */
    function Blacklisted(): (b: bool)
      requires Valid()
      reads this, statistics, statistics.servers.Values
      ensures b == blacklisted
      ensures b ==> !backoffStarted && serverName !in statistics.backoffTimers
    {
      blacklisted
    }

    /**
     The last stored `backoffUntil`, None only before the first store; while
     a timer is pending it is the instant that timer fires.
     */
    function BackoffInfo(): (r: Option<Time>)
      requires Valid()
      reads this, statistics, statistics.servers.Values
      ensures r == backoffUntil
      ensures serverName in statistics.backoffTimers ==> r == Some(statistics.backoffTimers[serverName])
      ensures r == None ==> !backoffStarted
    {
      backoffUntil
    }

    function SuccessCount(): (c: Uint32)
      reads this
      ensures c == successCounter
    {
      successCounter
    }
  }
}
