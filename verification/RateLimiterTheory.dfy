/** What a caller of the rate limiter observes: which calls are accepted, said of the decisions and the clock alone. */
module RateLimiterTheory {
  import opened SequenceFacts
  import opened Results
  import opened RateLimiter

  /** The earlier calls that were accepted and are less than a window old. */
  ghost function AcceptedWithin(calls: seq<real>, decisions: seq<bool>, k: nat, window: real): set<int>
    requires k < |calls| == |decisions|
  {
    set j | 0 <= j < k && decisions[j] && calls[k] - calls[j] < window
  }

  /** The accepted ones among the first n calls, behind a log. */
  ghost function LogAfter(log: seq<real>, calls: seq<real>, decisions: seq<bool>, n: nat): seq<real>
    requires n <= |calls| == |decisions|
  {
    if n == 0 then log
    else
      var before := LogAfter(log, calls, decisions, n - 1);
      if decisions[n - 1] then before + [calls[n - 1]] else before
  }

  lemma {:induction false} LogAfterFirst(log: seq<real>, calls: seq<real>, decisions: seq<bool>, n: nat)
    requires 0 < n <= |calls| == |decisions|
    ensures LogAfter(log, calls, decisions, n)
         == LogAfter(if decisions[0] then log + [calls[0]] else log, calls[1..], decisions[1..], n - 1)
  {
    if n > 1 {
      LogAfterFirst(log, calls, decisions, n - 1);
    }
  }

  lemma {:induction false} FullRunIs(log: seq<real>, calls: seq<real>, limit: int, window: real, k: nat)
    requires k < |calls|
    ensures |FullRun(log, calls, limit, window)| == |calls|
    ensures FullRun(log, calls, limit, window)[k] <==>
      |Prune(LogAfter(log, calls, FullRun(log, calls, limit, window), k), calls[k], window)| < limit
    decreases k
  {
    FullRunLength(log, calls, limit, window);
    if k > 0 {
      var decisions := FullRun(log, calls, limit, window);
      var next := if decisions[0] then log + [calls[0]] else log;
      FullRunIs(next, calls[1..], limit, window, k - 1);
      assert decisions[1..] == FullRun(next, calls[1..], limit, window);
      LogAfterFirst(log, calls, decisions, k);
    }
  }

  lemma {:induction false} FullRunLength(log: seq<real>, calls: seq<real>, limit: int, window: real)
    ensures |FullRun(log, calls, limit, window)| == |calls|
    decreases |calls|
  {
    if calls != [] {
      var ok := |Prune(log, calls[0], window)| < limit;
      FullRunLength(if ok then log + [calls[0]] else log, calls[1..], limit, window);
    }
  }

  ghost function AcceptedBefore(calls: seq<real>, decisions: seq<bool>, n: nat, now: real, window: real): set<int>
    requires n <= |calls| == |decisions|
  {
    set j | 0 <= j < n && decisions[j] && now - calls[j] < window
  }

  lemma {:induction false} LogAfterCounts(calls: seq<real>, decisions: seq<bool>, n: nat, now: real, window: real)
    requires n <= |calls| == |decisions|
    ensures |Prune(LogAfter([], calls, decisions, n), now, window)| == |AcceptedBefore(calls, decisions, n, now, window)|
  {
    if n == 0 {
      assert AcceptedBefore(calls, decisions, n, now, window) == {};
    } else {
      var before := LogAfter([], calls, decisions, n - 1);
      LogAfterCounts(calls, decisions, n - 1, now, window);
      var counted := AcceptedBefore(calls, decisions, n - 1, now, window);
      if decisions[n - 1] {
        PruneSplits(before, [calls[n - 1]], now, window);
        PruneCounts([calls[n - 1]], now, window);
        assert Recent([calls[n - 1]], now, window) == if now - calls[n - 1] < window then {0} else {};
      }
      assert AcceptedBefore(calls, decisions, n, now, window)
          == counted + if decisions[n - 1] && now - calls[n - 1] < window then {n - 1} else {};
    }
  }

  /** Main result: in a run from empty with a clock that never goes back, a call is accepted if and only if fewer than
      limit of the calls accepted before it are less than a window old. */
  lemma AcceptedIffFewRecent(calls: seq<real>, limit: int, window: real, k: nat)
    requires Ascending(calls) && k < |calls|
    ensures |PrunedRun([], calls, limit, window)| == |calls|
    ensures PrunedRun([], calls, limit, window)[k] <==>
      |AcceptedWithin(calls, PrunedRun([], calls, limit, window), k, window)| < limit
  {
    PruningRefinesFullLog([], [], calls, limit, window);
    var decisions := PrunedRun([], calls, limit, window);
    FullRunIs([], calls, limit, window, k);
    LogAfterCounts(calls, decisions, k, calls[k], window);
    assert AcceptedWithin(calls, decisions, k, window) == AcceptedBefore(calls, decisions, k, calls[k], window);
  }

  /** The limits in force: a positive setting is taken as it is, a negative one counts as one, and zero or nothing means
      the default, which is at least one too. */
  lemma ConfiguredIs(setting: Option<int>, fallback: int)
    ensures setting.Some? && setting.value > 0 ==> Configured(setting, fallback) == setting.value
    ensures setting.Some? && setting.value < 0 ==> Configured(setting, fallback) == 1
    ensures (setting.None? || setting.value == 0) && fallback > 0 ==> Configured(setting, fallback) == fallback
    ensures (setting.None? || setting.value == 0) && fallback <= 0 ==> Configured(setting, fallback) == 1
  {
  }
}
