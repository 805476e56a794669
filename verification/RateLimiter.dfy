/** The sliding-window rate limiter of the source, serve and admin-login endpoints.

    A bucket is the list of the accepted call times that were still inside the window at the last accepted
    call.  Expired entries are dropped for good, and a rejected call stores nothing, not even the pruning.
    Times are reals, read from a clock that the caller supplies. */
module RateLimiter {
  import opened SequenceFacts
  import opened Results

  predicate InWindow(ts: real, now: real, window: real) {
    ts > now - window
  }

  function Prune(bucket: seq<real>, now: real, window: real): (r: seq<real>)
    ensures forall ts :: ts in r <==> ts in bucket && InWindow(ts, now, window)
  {
    if bucket == [] then []
    else if InWindow(bucket[0], now, window) then [bucket[0]] + Prune(bucket[1..], now, window)
    else Prune(bucket[1..], now, window)
  }

  /** The setting, or the fallback where it is unset or zero; never less than one. */
  function Configured(setting: Option<int>, fallback: int): int {
    var n := if setting.None? || setting.value == 0 then fallback else setting.value;
    if n < 1 then 1 else n
  }

  ghost predicate Ascending(log: seq<real>) {
    forall i, j :: 0 <= i < j < |log| ==> log[i] <= log[j]
  }

  class Limiter {
    var buckets: map<string, seq<real>>

    /** Every accepted call so far, per bucket: what a limiter without pruning would keep. */
    ghost var logs: map<string, seq<real>>

    /** The bucket of this key holds the newest entries of its log, at least those that the window of its last
        accepted call reached. */
    ghost predicate Tracks(key: string, window: real)
      reads this
    {
      && (key in buckets <==> key in logs)
      && (key in buckets ==> Keeps(buckets[key], logs[key], window))
    }

    constructor ()
      ensures buckets == map[] && logs == map[]
    {
      buckets := map[];
      logs := map[];
    }

    /** Accepts the call exactly when the window that ends now holds fewer than limit accepted calls. */
    method Enforce(key: string, limit: int, window: real, now: real) returns (accepted: bool)
      requires Tracks(key, window)
      requires key in logs ==> logs[key] == [] || logs[key][|logs[key]| - 1] <= now
      modifies this
      ensures Tracks(key, window)
      ensures accepted <==> |Recent(LogOf(old(logs), key), now, window)| < limit
      ensures logs == if accepted then old(logs)[key := LogOf(old(logs), key) + [now]] else old(logs)
      ensures buckets == if accepted then old(buckets)[key := Prune(LogOf(old(buckets), key), now, window) + [now]]
                         else old(buckets)
    {
      var bucket := if key in buckets then buckets[key] else [];
      ghost var log := LogOf(logs, key);
      PruneOfKept(bucket, log, now, window);
      PruneCounts(log, now, window);
      bucket := Prune(bucket, now, window);
      if |bucket| >= limit {
        return false;
      }
      KeptAfterAppend(bucket, log, now, window);
      buckets := buckets[key := bucket + [now]];
      logs := logs[key := log + [now]];
      return true;
    }

    /** The source limiter: an absent or zero setting falls back to the default, and both are at least one. */
    method EnforceSource(key: string, limit: Option<int>, windowSeconds: Option<int>, defaultLimit: int, defaultWindow: int,
                         now: real) returns (accepted: bool)
      requires Tracks(key, Configured(windowSeconds, defaultWindow) as real)
      requires key in logs ==> logs[key] == [] || logs[key][|logs[key]| - 1] <= now
      modifies this
      ensures Tracks(key, Configured(windowSeconds, defaultWindow) as real)
      ensures accepted <==> |Recent(LogOf(old(logs), key), now, Configured(windowSeconds, defaultWindow) as real)|
                            < Configured(limit, defaultLimit)
      ensures logs == if accepted then old(logs)[key := LogOf(old(logs), key) + [now]] else old(logs)
      ensures forall k :: k != key ==> LogOf(buckets, k) == LogOf(old(buckets), k)
      ensures !accepted ==> buckets == old(buckets)
    {
      accepted := Enforce(key, Configured(limit, defaultLimit), Configured(windowSeconds, defaultWindow) as real, now);
    }

    /** Empties every bucket. */
    method Reset()
      modifies this
      ensures buckets == map[] && logs == map[]
    {
      buckets := map[];
      logs := map[];
    }
  }

  function LogOf(logs: map<string, seq<real>>, key: string): seq<real> {
    if key in logs then logs[key] else []
  }

  /** The bucket is a tail of the log, and whatever it lacks had left the window by the last entry. */
  ghost predicate Keeps(bucket: seq<real>, log: seq<real>, window: real) {
    && Ascending(log) && |bucket| <= |log| && bucket == log[|log| - |bucket|..]
    && forall i :: 0 <= i < |log| - |bucket| ==> !InWindow(log[i], log[|log| - 1], window)
  }

  lemma {:induction false} PruneSplits(a: seq<real>, b: seq<real>, now: real, window: real)
    ensures Prune(a + b, now, window) == Prune(a, now, window) + Prune(b, now, window)
  {
    if a == [] {
      assert a + b == b;
    } else {
      PruneSplits(a[1..], b, now, window);
      assert (a + b)[1..] == a[1..] + b;
      Regroup([a[0]], Prune(a[1..], now, window), Prune(b, now, window));
    }
  }

  lemma {:induction false} PruneNothing(a: seq<real>, now: real, window: real)
    requires forall i :: 0 <= i < |a| ==> InWindow(a[i], now, window)
    ensures Prune(a, now, window) == a
  {
    if a != [] { PruneNothing(a[1..], now, window); }
  }

  lemma {:induction false} PruneEverything(a: seq<real>, now: real, window: real)
    requires forall i :: 0 <= i < |a| ==> !InWindow(a[i], now, window)
    ensures Prune(a, now, window) == []
  {
    if a != [] { PruneEverything(a[1..], now, window); }
  }

  /** The entries of the log that are less than a window old. */
  ghost function Recent(log: seq<real>, now: real, window: real): set<int> {
    set i | 0 <= i < |log| && now - log[i] < window
  }

  lemma {:induction false} PruneCounts(log: seq<real>, now: real, window: real)
    ensures |Prune(log, now, window)| == |Recent(log, now, window)|
  {
    if log == [] {
      assert Recent(log, now, window) == {};
    } else {
      var init, last := log[..|log| - 1], log[|log| - 1];
      SplitLast(log);
      PruneSplits(init, [last], now, window);
      PruneCounts(init, now, window);
      assert Recent(log, now, window) == Recent(init, now, window) + (if now - last < window then {|log| - 1} else {});
    }
  }

  /** Pruning the bucket is pruning the whole log. */
  lemma PruneOfKept(bucket: seq<real>, log: seq<real>, now: real, window: real)
    requires Keeps(bucket, log, window)
    requires log == [] || log[|log| - 1] <= now
    ensures Prune(bucket, now, window) == Prune(log, now, window)
  {
    var cut := |log| - |bucket|;
    assert log == log[..cut] + bucket;
    PruneSplits(log[..cut], bucket, now, window);
    PruneEverything(log[..cut], now, window);
  }

  /** Pruning an ascending log keeps a tail of it. */
  lemma {:induction false} PruneIsTail(log: seq<real>, now: real, window: real)
    requires Ascending(log)
    ensures var r := Prune(log, now, window);
            && |r| <= |log| && r == log[|log| - |r|..]
            && forall i :: 0 <= i < |log| - |r| ==> !InWindow(log[i], now, window)
  {
    if log != [] {
      if InWindow(log[0], now, window) {
        PruneNothing(log, now, window);
      } else {
        PruneIsTail(log[1..], now, window);
      }
    }
  }

  lemma KeptAfterAppend(bucket: seq<real>, log: seq<real>, now: real, window: real)
    requires Ascending(log) && bucket == Prune(log, now, window)
    requires log == [] || log[|log| - 1] <= now
    ensures Keeps(bucket + [now], log + [now], window)
  {
    PruneIsTail(log, now, window);
  }

  // ----- Whole runs of one bucket -----

  /** The limiter as it runs: only the pruned bucket is kept. */
  ghost function PrunedRun(bucket: seq<real>, calls: seq<real>, limit: int, window: real): seq<bool>
    decreases |calls|
  {
    if calls == [] then []
    else
      var kept := Prune(bucket, calls[0], window);
      if |kept| < limit then [true] + PrunedRun(kept + [calls[0]], calls[1..], limit, window)
      else [false] + PrunedRun(bucket, calls[1..], limit, window)
  }

  /** The ideal limiter: it remembers every accepted call and counts those in the window that ends now. */
  ghost function FullRun(log: seq<real>, calls: seq<real>, limit: int, window: real): seq<bool>
    decreases |calls|
  {
    if calls == [] then []
    else
      var ok := |Prune(log, calls[0], window)| < limit;
      [ok] + FullRun(if ok then log + [calls[0]] else log, calls[1..], limit, window)
  }

  ghost function AcceptedLog(log: seq<real>, calls: seq<real>, limit: int, window: real): seq<real>
    decreases |calls|
  {
    if calls == [] then log
    else
      var ok := |Prune(log, calls[0], window)| < limit;
      AcceptedLog(if ok then log + [calls[0]] else log, calls[1..], limit, window)
  }

  ghost predicate Clocked(log: seq<real>, calls: seq<real>) {
    Ascending(calls) && (log != [] && calls != [] ==> log[|log| - 1] <= calls[0])
  }

  /** Call for call, pruning decides as the full log decides. */
  lemma {:induction false} PruningRefinesFullLog(bucket: seq<real>, log: seq<real>, calls: seq<real>, limit: int, window: real)
    requires Keeps(bucket, log, window) && Clocked(log, calls)
    ensures PrunedRun(bucket, calls, limit, window) == FullRun(log, calls, limit, window)
    decreases |calls|
  {
    if calls != [] {
      var now := calls[0];
      PruneOfKept(bucket, log, now, window);
      var kept := Prune(bucket, now, window);
      if |kept| < limit {
        KeptAfterAppend(kept, log, now, window);
        PruningRefinesFullLog(kept + [now], log + [now], calls[1..], limit, window);
      } else {
        PruningRefinesFullLog(bucket, log, calls[1..], limit, window);
      }
    }
  }

  /** limit acceptances further on, at least a whole window has passed. */
  ghost predicate Spread(log: seq<real>, limit: nat, window: real) {
    forall i, j :: 0 <= i && i + limit <= j < |log| ==> log[j] - log[i] >= window
  }

  lemma AppendKeepsSpread(log: seq<real>, now: real, limit: nat, window: real)
    requires Ascending(log) && Spread(log, limit, window) && |Prune(log, now, window)| < limit
    requires log == [] || log[|log| - 1] <= now
    ensures Ascending(log + [now]) && Spread(log + [now], limit, window)
  {
    PruneIsTail(log, now, window);
    var r := Prune(log, now, window);
    forall i | 0 <= i && i + limit <= |log| ensures now - log[i] >= window {
      assert i < |log| - |r|;
    }
  }

  lemma {:induction false} RunKeepsSpread(log: seq<real>, calls: seq<real>, limit: nat, window: real)
    requires Ascending(log) && Spread(log, limit, window) && Clocked(log, calls)
    ensures Ascending(AcceptedLog(log, calls, limit, window)) && Spread(AcceptedLog(log, calls, limit, window), limit, window)
    decreases |calls|
  {
    if calls != [] {
      if |Prune(log, calls[0], window)| < limit {
        AppendKeepsSpread(log, calls[0], limit, window);
        RunKeepsSpread(log + [calls[0]], calls[1..], limit, window);
      } else {
        RunKeepsSpread(log, calls[1..], limit, window);
      }
    }
  }

  /** In any run from empty, no stretch of time shorter than the window holds more than limit acceptances. */
  lemma WindowNeverOverfilled(calls: seq<real>, limit: nat, window: real, first: nat, last: nat)
    requires Ascending(calls)
    requires first <= last < |AcceptedLog([], calls, limit, window)|
    requires AcceptedLog([], calls, limit, window)[last] - AcceptedLog([], calls, limit, window)[first] < window
    ensures last - first + 1 <= limit
  {
    RunKeepsSpread([], calls, limit, window);
  }
}
