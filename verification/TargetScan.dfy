/** Which trade date the staging collector may expect from a provider: a backward scan over the official calendar
    from the last due day to the latest session that is open and already closed.

    Instants are microseconds since an epoch at midnight UTC, days are day numbers since the same epoch, and
    Taipei is eight hours ahead of UTC.  The year of a day and the instant a session completes come with the
    calendar. */
module TargetScan {
  import opened Results

  type Instant = int
  type DayNumber = int

  const HOUR: int := 3_600_000_000
  const MINUTE: int := 60_000_000
  const DAY: int := 86_400_000_000
  const SCAN_DAYS: nat := 14

  datatype Provider = TwelveData | Finlab | Shioaji | Taifex | UnknownProvider

  datatype Status = OpenDay | ClosedDay | SettlementOnly | UnknownStatus

  /** completedAt is the end of the session, None where its text is no time of day. */
  datatype Day = Day(status: Status, isOpen: bool, revision: int, revisionId: string, completedAt: Option<Instant>)

  datatype Revision = Revision(published: bool, coverageComplete: bool, revision: int, revisionId: string, timezoneMatches: bool)

  datatype Calendar = Calendar(valid: bool, timezoneMatches: bool, revisions: seq<(int, Revision)>, days: seq<(DayNumber, Day)>,
                               yearOf: DayNumber -> int)

  datatype Evidence = Evidence(schemaVersion: int, sampledInUtc: bool, sampledAt: Instant, market: Provider -> Option<Calendar>)

  function DueTime(provider: Provider): int {
    match provider
    case TwelveData => 8 * HOUR + 15 * MINUTE
    case Finlab => 14 * HOUR + 30 * MINUTE
    case Shioaji => 14 * HOUR + 30 * MINUTE
    case Taifex => 18 * HOUR
    case UnknownProvider => 0
  }

  /** The newest day whose delivery is due: yesterday before the due time, and a day earlier for the US market. */
  function Candidate(provider: Provider, observedAt: Instant): DayNumber {
    var local := observedAt + 8 * HOUR;
    var due := local / DAY - (if local % DAY < DueTime(provider) then 1 else 0);
    if provider.TwelveData? then due - 1 else due
  }

  predicate DistinctKeys<V>(items: seq<(int, V)>) {
    forall i, j :: 0 <= i < j < |items| ==> items[i].0 != items[j].0
  }

  function Lookup<V>(items: seq<(int, V)>, key: int): Option<V> {
    if items == [] then None else if items[0].0 == key then Some(items[0].1) else Lookup(items[1..], key)
  }

  predicate RevisionUsable(r: Revision) {
    r.published && r.coverageComplete && r.revision >= 1 && r.revisionId != "" && r.timezoneMatches
  }

  predicate CalendarUsable(c: Calendar) {
    && c.valid && c.timezoneMatches
    && DistinctKeys(c.revisions) && (forall item :: item in c.revisions ==> RevisionUsable(item.1))
    && DistinctKeys(c.days)
  }

  /** The scan can read this day: it and its year's revision are present and agree, and its status makes sense. */
  predicate Readable(c: Calendar, d: DayNumber) {
    var day, revision := Lookup(c.days, d), Lookup(c.revisions, c.yearOf(d));
    && day.Some? && revision.Some?
    && day.value.revision == revision.value.revision && day.value.revisionId == revision.value.revisionId
    && !day.value.status.UnknownStatus?
    && (day.value.isOpen <==> day.value.status.OpenDay?)
    && (day.value.status.OpenDay? ==> day.value.completedAt.Some?)
  }

  /** An open session that has already closed. */
  predicate Completed(c: Calendar, d: DayNumber, observedAt: Instant)
    requires Readable(c, d)
  {
    var day := Lookup(c.days, d).value;
    day.status.OpenDay? && observedAt >= day.completedAt.value
  }

  /** The latest completed session at or before the candidate, within the window, every later day readable and not
      a completed session. */
  ghost predicate IsTarget(c: Calendar, candidate: DayNumber, observedAt: Instant, d: DayNumber) {
    && candidate - SCAN_DAYS < d <= candidate
    && (forall e :: d <= e <= candidate ==> Readable(c, e))
    && Completed(c, d, observedAt)
    && (forall e :: d < e <= candidate ==> !Completed(c, e, observedAt))
  }

  method Scan(c: Calendar, start: DayNumber, observedAt: Instant) returns (target: Option<DayNumber>)
    ensures target.Some? ==> IsTarget(c, start, observedAt, target.value)
    ensures target.None? ==> forall d :: !IsTarget(c, start, observedAt, d)
  {
    var candidate := start;
    for n := 0 to SCAN_DAYS
      invariant candidate == start - n
      invariant forall e :: candidate < e <= start ==> Readable(c, e) && !Completed(c, e, observedAt)
    {
      if !Readable(c, candidate) {
        return None;
      }
      if Completed(c, candidate, observedAt) {
        return Some(candidate);
      }
      candidate := candidate - 1;
    }
    return None;
  }

  predicate EvidenceFresh(evidence: Evidence, observedAt: Instant) {
    && evidence.schemaVersion == 1 && evidence.sampledInUtc
    && -300_000_000 <= observedAt - evidence.sampledAt <= 300_000_000
  }

  ghost predicate Expected(evidence: Evidence, provider: Provider, observedAt: Instant, d: DayNumber) {
    && EvidenceFresh(evidence, observedAt)
    && !provider.UnknownProvider? && evidence.market(provider).Some? && CalendarUsable(evidence.market(provider).value)
    && IsTarget(evidence.market(provider).value, Candidate(provider, observedAt), observedAt, d)
  }

  /** observedAt is None for a time without time zone. */
  method ExpectedTarget(evidence: Evidence, provider: Provider, observedAt: Option<Instant>) returns (target: Option<DayNumber>)
    ensures target.Some? ==> observedAt.Some? && Expected(evidence, provider, observedAt.value, target.value)
    ensures target.None? && observedAt.Some? ==> forall d :: !Expected(evidence, provider, observedAt.value, d)
  {
    if observedAt.None? || !EvidenceFresh(evidence, observedAt.value) || provider.UnknownProvider? {
      return None;
    }
    var calendar := evidence.market(provider);
    if calendar.None? || !CalendarUsable(calendar.value) {
      return None;
    }
    target := Scan(calendar.value, Candidate(provider, observedAt.value), observedAt.value);
  }

  lemma CandidateIsMonotone(provider: Provider, earlier: Instant, later: Instant)
    requires earlier <= later
    ensures Candidate(provider, earlier) <= Candidate(provider, later)
  {
    var a, b, due := earlier + 8 * HOUR, later + 8 * HOUR, DueTime(provider);
    assert a == DAY * (a / DAY) + a % DAY && b == DAY * (b / DAY) + b % DAY;
    assert a / DAY - (if a % DAY < due then 1 else 0) == (a - due) / DAY;
    assert b / DAY - (if b % DAY < due then 1 else 0) == (b - due) / DAY;
  }

  /** For one calendar a later observation never expects an earlier date. */
  lemma LaterObservationNeverGoesBack(evidence: Evidence, resampled: Evidence, provider: Provider, earlier: Instant,
                                      later: Instant, d: DayNumber, e: DayNumber)
    requires earlier <= later && resampled.market == evidence.market
    requires Expected(evidence, provider, earlier, d) && Expected(resampled, provider, later, e)
    ensures d <= e
  {
    CandidateIsMonotone(provider, earlier, later);
    assert Completed(evidence.market(provider).value, d, later);
  }

  /** At most one date is the target, so the specification says which date is returned. */
  lemma TargetIsUnique(evidence: Evidence, provider: Provider, observedAt: Instant, d: DayNumber, e: DayNumber)
    requires Expected(evidence, provider, observedAt, d) && Expected(evidence, provider, observedAt, e)
    ensures d == e
  {
    LaterObservationNeverGoesBack(evidence, evidence, provider, observedAt, observedAt, d, e);
    LaterObservationNeverGoesBack(evidence, evidence, provider, observedAt, observedAt, e, d);
  }
}
