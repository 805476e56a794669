/** Which date a collector may expect, said of the clock in Taipei and of the calendar's entries. */
module TargetScanTheory {
  import opened Results
  import opened TargetScan

  /** A time of day in Taipei, in hours and minutes, on a day counted from the epoch. */
  ghost predicate TaipeiTime(observedAt: Instant, day: DayNumber, hour: int, minute: int) {
    && 0 <= hour < 24 && 0 <= minute < 60
    && 0 <= observedAt - ((day * 24 + hour - 8) * 60 + minute) * 60_000_000 < 60_000_000
  }

  /** How many days before today the newest due day lies: the US market is due at 08:15 for the day before, the Taiwan
      stock market at 14:30 and the futures market at 18:00 for the same day. */
  function Lag(provider: Provider, hour: int, minute: int): int {
    match provider
    case TwelveData => if hour > 8 || (hour == 8 && minute >= 15) then 1 else 2
    case Finlab => if hour > 14 || (hour == 14 && minute >= 30) then 0 else 1
    case Shioaji => if hour > 14 || (hour == 14 && minute >= 30) then 0 else 1
    case Taifex => if hour >= 18 then 0 else 1
    case UnknownProvider => 0
  }

  lemma CandidateIs(provider: Provider, observedAt: Instant, day: DayNumber, hour: int, minute: int)
    requires TaipeiTime(observedAt, day, hour, minute)
    ensures Candidate(provider, observedAt) == day - Lag(provider, hour, minute)
  {
    var rest := observedAt - ((day * 24 + hour - 8) * 60 + minute) * 60_000_000;
    var inDay := (hour * 60 + minute) * 60_000_000 + rest;
    assert observedAt + 8 * HOUR == day * DAY + inDay;
    assert 0 <= inDay < DAY;
    assert (day * DAY + inDay) / DAY == day && (day * DAY + inDay) % DAY == inDay;
  }

  // ----- The calendar's entries -----

  /** The one entry under a key. */
  ghost predicate Listed<V(!new)>(items: seq<(int, V)>, key: int, value: V) { (key, value) in items }

  lemma {:induction false} LookupIs<V(!new)>(items: seq<(int, V)>, key: int, value: V)
    requires DistinctKeys(items)
    ensures Lookup(items, key) == Some(value) <==> Listed(items, key, value)
  {
    if items != [] {
      var rest := items[1..];
      assert items == [items[0]] + rest;
      assert forall i :: 0 <= i < |rest| ==> rest[i] == items[i + 1] && rest[i].0 != items[0].0;
      LookupIs(rest, key, value);
    }
  }

  /** A published revision of the calendar of one year. */
  ghost predicate Published(r: Revision) {
    r.published && r.coverageComplete && r.timezoneMatches && r.revision > 0 && |r.revisionId| > 0
  }

  ghost predicate Trustworthy(c: Calendar) {
    && c.valid && c.timezoneMatches
    && (forall i, j :: 0 <= i < j < |c.revisions| ==> c.revisions[i].0 != c.revisions[j].0)
    && (forall i, j :: 0 <= i < j < |c.days| ==> c.days[i].0 != c.days[j].0)
    && forall i :: 0 <= i < |c.revisions| ==> Published(c.revisions[i].1)
  }

  /** The day is listed, under the revision that its year has, with a status that fits its flag; if open, with an end. */
  ghost predicate Consistent(c: Calendar, d: DayNumber, day: Day) {
    && Listed(c.days, d, day)
    && (exists r :: Listed(c.revisions, c.yearOf(d), r) && day.revision == r.revision && day.revisionId == r.revisionId)
    && ((day.status == OpenDay && day.isOpen && day.completedAt != None)
        || (day.status in {ClosedDay, SettlementOnly} && !day.isOpen))
  }

  ghost predicate Open(day: Day) { day.status == OpenDay }

  /** The session was over at the instant. */
  ghost predicate Over(day: Day, now: Instant) { exists end :: day.completedAt == Some(end) && end <= now }

  lemma ReadableIs(c: Calendar, d: DayNumber)
    requires Trustworthy(c)
    ensures Readable(c, d) <==> exists day :: Consistent(c, d, day)
    ensures forall day, now :: Consistent(c, d, day) ==>
      Readable(c, d) && Lookup(c.days, d) == Some(day) && (Completed(c, d, now) <==> Open(day) && Over(day, now))
  {
    forall day ensures Consistent(c, d, day) <==> Readable(c, d) && Lookup(c.days, d) == Some(day) {
      LookupIs(c.days, d, day);
      ConsistentIs(c, d, day);
    }
    if Readable(c, d) {
      assert Consistent(c, d, Lookup(c.days, d).value);
    }
  }

  lemma ConsistentIs(c: Calendar, d: DayNumber, day: Day)
    requires Trustworthy(c)
    requires Lookup(c.days, d) == Some(day) <==> Listed(c.days, d, day)
    ensures Consistent(c, d, day) <==> Readable(c, d) && Lookup(c.days, d) == Some(day)
  {
    var revision := Lookup(c.revisions, c.yearOf(d));
    if revision.Some? {
      LookupIs(c.revisions, c.yearOf(d), revision.value);
    }
    if r :| Listed(c.revisions, c.yearOf(d), r) && day.revision == r.revision && day.revisionId == r.revisionId {
      LookupIs(c.revisions, c.yearOf(d), r);
    }
  }

  /** A later day of the scan that gives no target: closed, or not over yet. */
  ghost predicate Passed(c: Calendar, d: DayNumber, now: Instant) {
    exists day :: Consistent(c, d, day) && !(Open(day) && Over(day, now))
  }

  ghost predicate Finished(c: Calendar, d: DayNumber, now: Instant) {
    exists day :: Consistent(c, d, day) && Open(day) && Over(day, now)
  }

  lemma DaysAre(c: Calendar, d: DayNumber, now: Instant)
    requires Trustworthy(c)
    ensures Finished(c, d, now) <==> Readable(c, d) && Completed(c, d, now)
    ensures Passed(c, d, now) <==> Readable(c, d) && !Completed(c, d, now)
  {
    ReadableIs(c, d);
    if Readable(c, d) {
      var day :| Consistent(c, d, day);
      assert Completed(c, d, now) <==> Open(day) && Over(day, now);
      forall other | Consistent(c, d, other) ensures other == day {
        assert Lookup(c.days, d) == Some(other);
      }
    }
  }

  /** Main result: the expected date, in plain terms.  The evidence is of the first version, sampled in UTC at most five
      minutes away; the calendar can be trusted; the date is an open session that is over, at most thirteen days before
      the newest due day, and every later day up to that one is listed and gives nothing. */
  lemma ExpectedIs(evidence: Evidence, provider: Provider, observedAt: Instant, day: DayNumber, hour: int, minute: int,
                   d: DayNumber)
    requires TaipeiTime(observedAt, day, hour, minute)
    ensures Expected(evidence, provider, observedAt, d) <==>
      var newest := day - Lag(provider, hour, minute);
      && evidence.schemaVersion == 1 && evidence.sampledInUtc
      && observedAt <= evidence.sampledAt + 5 * 60 * 1_000_000 && evidence.sampledAt <= observedAt + 5 * 60 * 1_000_000
      && provider != UnknownProvider && evidence.market(provider) != None
      && var c := evidence.market(provider).value;
         && Trustworthy(c)
         && newest - 13 <= d <= newest && Finished(c, d, observedAt)
         && forall e :: d < e <= newest ==> Passed(c, e, observedAt)
  {
    CandidateIs(provider, observedAt, day, hour, minute);
    if !provider.UnknownProvider? && evidence.market(provider).Some? {
      var c := evidence.market(provider).value;
      TrustIs(c);
      if Trustworthy(c) {
        TargetIs(c, day - Lag(provider, hour, minute), observedAt, d);
      }
    }
  }

  lemma TrustIs(c: Calendar)
    ensures CalendarUsable(c) <==> Trustworthy(c)
  {
    if CalendarUsable(c) {
      forall i | 0 <= i < |c.revisions| ensures Published(c.revisions[i].1) {
        assert c.revisions[i] in c.revisions;
      }
    }
  }

  lemma TargetIs(c: Calendar, newest: DayNumber, now: Instant, d: DayNumber)
    requires Trustworthy(c)
    ensures IsTarget(c, newest, now, d) <==>
      newest - 13 <= d <= newest && Finished(c, d, now) && forall e :: d < e <= newest ==> Passed(c, e, now)
  {
    DaysAre(c, d, now);
    forall e | d <= e <= newest
      ensures Passed(c, e, now) <==> Readable(c, e) && !Completed(c, e, now)
    {
      DaysAre(c, e, now);
    }
  }
}
