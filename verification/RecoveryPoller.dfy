/** Waiting for the installed runtimes to stay healthy, unchanged, for a whole stability window. */
module RecoveryPoller {
  import opened Results

  datatype Row = Row(name: string, containerId: string, image: string, restartCount: nat, startedAt: string, healthy: bool)

  type Snapshot = seq<Row>

  /** What one turn of the loop observes: a snapshot, or None if reading failed, and the clock after reading. */
  datatype Poll = Poll(snapshot: Option<Snapshot>, now: real)

  type World = nat -> Poll

  datatype Timing = Timing(stable: real, timeout: real, poll: real)

  datatype Outcome = InvalidTiming | Recovered(snapshot: Snapshot) | TimedOut

  predicate ValidTiming(t: Timing) {
    0.0 < t.stable <= t.timeout && 0.0 < t.poll <= t.stable
  }

  /** The sleep between two polls: the interval, or what is left until the deadline. */
  function Pause(poll: real, left: real): real { if left < poll then left else poll }

  predicate AllHealthy(s: Snapshot) {
    forall i :: 0 <= i < |s| ==> s[i].healthy
  }

  // ----- The environment -----

  /** The clock never goes back, and a sleep lasts at least as long as requested. */
  ghost predicate Ticks(world: World, start: real, t: Timing) {
    && start <= world(0).now
    && forall k: nat :: Advances(world(k).now, world(k + 1).now, start + t.timeout, t.poll)
  }

  predicate Advances(before: real, after: real, deadline: real, poll: real) {
    before <= after && (before < deadline ==> before + Pause(poll, deadline - before) <= after)
  }

  lemma {:induction false} ClockIsMonotone(world: World, start: real, t: Timing, i: nat, j: nat)
    requires Ticks(world, start, t) && i <= j
    ensures world(i).now <= world(j).now
    decreases j
  {
    if i < j {
      ClockIsMonotone(world, start, t, i, j - 1);
      assert Advances(world(j - 1).now, world(j - 1 + 1).now, start + t.timeout, t.poll);
    }
  }

  // ----- Specification: the first poll that decides -----

  predicate Absent(world: World, k: nat) { world(k).snapshot == Some([]) }

  /** Every poll from j to k saw this same non-empty, all-healthy snapshot. */
  ghost predicate Streak(world: World, s: Snapshot, j: nat, k: nat) {
    s != [] && AllHealthy(s) && forall i: nat :: j <= i <= k ==> world(i).snapshot == Some(s)
  }

  ghost predicate LongStreak(world: World, t: Timing, s: Snapshot, j: nat, k: nat) {
    j <= k && Streak(world, s, j, k) && world(k).now - world(j).now >= t.stable
  }

  /** Poll k ends a streak that spans the stability window. */
  ghost predicate Stable(world: World, t: Timing, k: nat) {
    exists j: nat, s: Snapshot :: LongStreak(world, t, s, j, k)
  }

  predicate Expired(world: World, start: real, t: Timing, k: nat) { world(k).now >= start + t.timeout }

  ghost predicate Decides(world: World, start: real, t: Timing, k: nat) {
    Absent(world, k) || Stable(world, t, k) || Expired(world, start, t, k)
  }

  /** Poll k is the first to decide, and this is its verdict: stability is looked at before the deadline. */
  ghost predicate DecidedAt(world: World, start: real, t: Timing, k: nat, outcome: Outcome) {
    && (forall i: nat :: i < k ==> !Decides(world, start, t, i))
    && Decides(world, start, t, k)
    && (if Absent(world, k) || Stable(world, t, k)
        then world(k).snapshot.Some? && outcome == Recovered(world(k).snapshot.value)
        else outcome == TimedOut)
  }

  // ----- The loop -----

  /** The streak that the loop remembers ends at poll k - 1 and could not have started earlier. */
  ghost predicate Remembers(world: World, k: nat, baseline: Option<Snapshot>, stableSince: real, since: nat) {
    if baseline.Some?
    then && since < k && Streak(world, baseline.value, since, k - 1) && stableSince == world(since).now
         && (since > 0 ==> world(since - 1).snapshot != baseline)
    else k > 0 ==> !Healthy(world(k - 1).snapshot)
  }

  predicate Healthy(snapshot: Option<Snapshot>) {
    snapshot.Some? && snapshot.value != [] && AllHealthy(snapshot.value)
  }

  /** Polls that can still follow one at this time. */
  function PollsLeft(now: real, deadline: real, poll: real): nat
    requires poll > 0.0
  {
    if now >= deadline then 0
    else
      assert (deadline - now) / poll >= 0.0;
      ((deadline - now) / poll).Floor + 1
  }

  lemma FewerPollsLeft(before: real, after: real, deadline: real, poll: real)
    requires poll > 0.0 && before < deadline && Advances(before, after, deadline, poll)
    ensures PollsLeft(after, deadline, poll) < PollsLeft(before, deadline, poll)
  {
    if after < deadline {
      var q := (deadline - before) / poll;
      assert q * poll == deadline - before;
      assert (q - 1.0) * poll == deadline - before - poll;
      DivisionIsMonotone(deadline - after, q - 1.0, poll);
    }
  }

  lemma DivisionIsMonotone(x: real, q: real, poll: real)
    requires poll > 0.0 && x <= q * poll
    ensures x / poll <= q
  {
    assert (x / poll) * poll == x;
    assert (x / poll - q) * poll <= 0.0;
  }

  /** The wait ends, after a number of polls that the timeout bounds, with the verdict of the first deciding poll. */
  method WaitUntilRecovered(world: World, start: real, t: Timing) returns (outcome: Outcome, polls: nat)
    requires ValidTiming(t) ==> Ticks(world, start, t)
    ensures outcome != InvalidTiming <==> t.poll > 0.0 && t.stable > 0.0 && t.poll <= t.stable && t.stable <= t.timeout
    ensures outcome != InvalidTiming ==>
      polls > 0 && DecidedAt(world, start, t, polls - 1, outcome) && polls <= (t.timeout / t.poll).Floor + 2
  {
    if !ValidTiming(t) {
      return InvalidTiming, 0;
    }
    var deadline := start + t.timeout;
    var baseline: Option<Snapshot> := None;
    var stableSince := 0.0;
    ghost var since: nat := 0;
    FirstPollsLeft(world(0).now, start, t);
    polls := 0;
    while true
      invariant Remembers(world, polls, baseline, stableSince, since)
      invariant forall i: nat :: i < polls ==> !Decides(world, start, t, i)
      invariant polls + PollsLeft(world(polls).now, deadline, t.poll) <= (t.timeout / t.poll).Floor + 1
      decreases PollsLeft(world(polls).now, deadline, t.poll)
    {
      ghost var k := polls;
      var snapshot, now := world(polls).snapshot, world(polls).now;
      polls := polls + 1;
      StableIff(world, start, t, k, baseline, stableSince, since);
      if snapshot == Some([]) {
        return Recovered([]), polls;
      }
      if snapshot.Some? && AllHealthy(snapshot.value) {
        if snapshot != baseline {
          baseline, stableSince, since := snapshot, now, k;
        } else if now - stableSince >= t.stable {
          return Recovered(snapshot.value), polls;
        }
      } else {
        baseline := None;
      }
      if deadline - now <= 0.0 {
        return TimedOut, polls;
      }
      assert Advances(world(k).now, world(k + 1).now, deadline, t.poll);
      FewerPollsLeft(now, world(polls).now, deadline, t.poll);
    }
  }

  lemma FirstPollsLeft(now: real, start: real, t: Timing)
    requires ValidTiming(t) && start <= now
    ensures PollsLeft(now, start + t.timeout, t.poll) <= (t.timeout / t.poll).Floor + 1
  {
    var q := t.timeout / t.poll;
    assert q * t.poll == t.timeout;
    if now < start + t.timeout {
      DivisionIsMonotone(start + t.timeout - now, q, t.poll);
    } else {
      assert q >= 0.0;
    }
  }

  /** The remembered streak is all that matters for stability. */
  lemma StableIff(world: World, start: real, t: Timing, k: nat, baseline: Option<Snapshot>, stableSince: real, since: nat)
    requires ValidTiming(t) && Ticks(world, start, t) && Remembers(world, k, baseline, stableSince, since)
    ensures Stable(world, t, k) <==>
              && Healthy(world(k).snapshot) && world(k).snapshot == baseline
              && world(k).now - stableSince >= t.stable
  {
    if Stable(world, t, k) {
      var j: nat, s :| LongStreak(world, t, s, j, k);
      assert world(k).snapshot == Some(s);
      assert j < k;
      assert world(k - 1).snapshot == Some(s);
      assert baseline.Some? && world(k - 1).snapshot == baseline;
      ClockIsMonotone(world, start, t, since, j);
    }
    if Healthy(world(k).snapshot) && world(k).snapshot == baseline && world(k).now - stableSince >= t.stable {
      assert LongStreak(world, t, baseline.value, since, k);
    }
  }

  // ----- What a verdict certifies -----

  /** From poll j to poll k, a whole stability window later, every reading gave s, in which something is installed and
      every runtime is healthy. */
  ghost predicate HealthyWindow(world: World, t: Timing, s: Snapshot, j: nat, k: nat) {
    && j <= k && s != [] && (forall row :: row in s ==> row.healthy)
    && (forall i: nat :: j <= i <= k ==> world(i).snapshot == Some(s))
    && world(j).now + t.stable <= world(k).now
  }

  lemma WindowIs(world: World, t: Timing, s: Snapshot, j: nat, k: nat)
    ensures LongStreak(world, t, s, j, k) <==> HealthyWindow(world, t, s, j, k)
  {
    assert AllHealthy(s) <==> forall row :: row in s ==> row.healthy;
  }

  /** A returned non-empty snapshot was the value of every poll of a contiguous healthy suffix that spans the window. */
  lemma RecoveryCertifiesAHealthyWindow(world: World, start: real, t: Timing, k: nat, s: Snapshot)
    requires ValidTiming(t) && DecidedAt(world, start, t, k, Recovered(s)) && s != []
    ensures exists j: nat :: HealthyWindow(world, t, s, j, k)
  {
    var j: nat, s' :| LongStreak(world, t, s', j, k);
    assert world(k).snapshot == Some(s');
    WindowIs(world, t, s, j, k);
  }

  /** Poll k ends the wait: nothing is installed, a healthy window is full, or the timeout is over. */
  ghost predicate Ends(world: World, start: real, t: Timing, k: nat) {
    || world(k).snapshot == Some([])
    || (exists j: nat, s :: HealthyWindow(world, t, s, j, k))
    || start + t.timeout <= world(k).now
  }

  lemma EndsIs(world: World, start: real, t: Timing, k: nat)
    ensures Stable(world, t, k) <==> exists j: nat, s :: HealthyWindow(world, t, s, j, k)
    ensures Decides(world, start, t, k) <==> Ends(world, start, t, k)
  {
    forall j: nat, s ensures LongStreak(world, t, s, j, k) <==> HealthyWindow(world, t, s, j, k) {
      WindowIs(world, t, s, j, k);
    }
  }

  /** The verdict, in plain terms: it falls at the first poll that ends the wait, it is a timeout if only the clock ended
      it, and else the snapshot of that poll. */
  lemma VerdictIs(world: World, start: real, t: Timing, k: nat, outcome: Outcome)
    ensures DecidedAt(world, start, t, k, outcome) <==>
      && Ends(world, start, t, k) && (forall i: nat :: i < k ==> !Ends(world, start, t, i))
      && (outcome == TimedOut
          || exists s :: outcome == Recovered(s) && world(k).snapshot == Some(s))
      && (outcome == TimedOut <==>
           world(k).snapshot != Some([]) && forall j: nat, s :: !HealthyWindow(world, t, s, j, k))
  {
    forall i: nat ensures Decides(world, start, t, i) <==> Ends(world, start, t, i) {
      EndsIs(world, start, t, i);
    }
    EndsIs(world, start, t, k);
    if DecidedAt(world, start, t, k, outcome) && outcome.Recovered? {
      assert world(k).snapshot == Some(outcome.snapshot);
    }
  }

  /** Nothing installed is reported at once: the empty snapshot comes from the last poll alone. */
  lemma AbsenceEndsTheWait(world: World, start: real, t: Timing, k: nat, outcome: Outcome, j: nat)
    requires DecidedAt(world, start, t, k, outcome) && Absent(world, j)
    ensures k <= j
    ensures k == j ==> outcome == Recovered([])
  {
    assert Decides(world, start, t, j);
  }

  /** A streak that starts a window before the deadline and holds never ends in a timeout. */
  lemma EarlyStreakSucceeds(world: World, start: real, t: Timing, k: nat, outcome: Outcome, s: Snapshot, j: nat)
    requires ValidTiming(t) && Ticks(world, start, t) && DecidedAt(world, start, t, k, outcome)
    requires world(j).now + t.stable <= start + t.timeout
    requires forall k': nat :: j <= k' ==> Streak(world, s, j, k')
    ensures outcome.Recovered?
    ensures j <= k ==> outcome == Recovered(s)
  {
    if j <= k {
      assert Streak(world, s, j, k);
      assert world(k).snapshot == Some(s);
      if Expired(world, start, t, k) {
        assert LongStreak(world, t, s, j, k);
      }
    } else {
      ClockIsMonotone(world, start, t, k, j);
    }
  }

  /** A timeout means that no window of the whole wait was stable and that the deadline has passed. */
  lemma TimeoutMeansNoStableWindow(world: World, start: real, t: Timing, k: nat)
    requires ValidTiming(t) && DecidedAt(world, start, t, k, TimedOut)
    ensures Expired(world, start, t, k)
    ensures forall i: nat, j: nat, s: Snapshot :: i <= k ==> !LongStreak(world, t, s, j, i)
  {
    forall i: nat, j: nat, s: Snapshot | i <= k && LongStreak(world, t, s, j, i) ensures false {
      assert Stable(world, t, i);
      assert Decides(world, start, t, i);
    }
  }
}
