/** The validator of minute-archive release manifests: months, trading dates, the two-level grid of chunks, rows and
    objects. */
module ArchiveManifest {
  import opened SequenceFacts
  import opened Results
  import opened Sorting

  datatype Date = Date(year: int, month: int, day: int)

  predicate OnCalendar(d: Date) {
    1 <= d.year <= MAX_YEAR && 1 <= d.month <= 12 && 1 <= d.day <= 31
  }

  type CalendarDate = d: Date | OnCalendar(d) witness Date(1, 1, 1)

  datatype Object = Object(key: string, sha256: string, byteSize: int)

  datatype Chunk = Chunk(snapshot: int, sequence: int, chunkCount: int, rowCount: int, stored: Object)

  datatype Manifest = Manifest(
    start: CalendarDate, end: CalendarDate, coveredMonths: seq<CalendarDate>,
    expectedDates: seq<CalendarDate>, coveredDates: seq<CalendarDate>, datesSha: string,
    instruments: seq<string>, instrumentsSha: string,
    sequenceCount: int, chunkCount: int, rowCount: int, chunks: seq<Chunk>, objects: seq<Object>)

  /** SHA-256 of the LF-joined lists. */
  datatype Digests = Digests(ofDates: seq<CalendarDate> -> string, ofTexts: seq<string> -> string)

  const MAX_YEAR: int := 9999
  const MAX_CHUNK_ROWS: int := 5_000

  // ----- Months -----

  predicate DateLeq(a: Date, b: Date) {
    a.year < b.year || (a.year == b.year && (a.month < b.month || (a.month == b.month && a.day <= b.day)))
  }

  function FirstOfMonth(d: CalendarDate): CalendarDate { Date(d.year, d.month, 1) }

  /** Months counted from an epoch. */
  function MonthIndex(d: Date): int { 12 * d.year + d.month }

  /** None where the calendar ends. */
  function NextMonth(d: CalendarDate): (next: Option<CalendarDate>)
    ensures next.None? <==> d.year == MAX_YEAR && d.month == 12
    ensures next.Some? ==> next.value.day == 1 && MonthIndex(next.value) == MonthIndex(d) + 1
  {
    var year := d.year + (if d.month == 12 then 1 else 0);
    if year > MAX_YEAR then None else Some(Date(year, d.month % 12 + 1, 1))
  }

  /** The months of a declared range: consecutive first days from start to end. */
  ghost predicate MonthsOfRange(months: seq<CalendarDate>, start: CalendarDate, end: CalendarDate) {
    && |months| == (if MonthIndex(start) <= MonthIndex(end) then MonthIndex(end) - MonthIndex(start) + 1 else 0)
    && forall i :: 0 <= i < |months| ==> months[i].day == 1 && MonthIndex(months[i]) == MonthIndex(start) + i
  }

  /** The enumeration ends, after each month of the range was listed once; it fails only beyond the last year. */
  method ExpectedMonths(start: CalendarDate, end: CalendarDate) returns (months: Option<seq<CalendarDate>>)
    requires start.day == end.day == 1
    ensures months.None? <==> end.year == MAX_YEAR && end.month == 12
    ensures months.Some? ==> MonthsOfRange(months.value, start, end)
  {
    var listed: seq<CalendarDate> := [];
    var current := start;
    while DateLeq(current, end)
      invariant current.day == 1 && MonthIndex(current) == MonthIndex(start) + |listed|
      invariant MonthIndex(current) <= MonthIndex(end) + 1 || listed == []
      invariant forall i :: 0 <= i < |listed| ==> listed[i].day == 1 && MonthIndex(listed[i]) == MonthIndex(start) + i
      decreases MonthIndex(end) - MonthIndex(current) + 1
    {
      listed := listed + [current];
      var next := NextMonth(current);
      if next.None? {
        return None;
      }
      current := next.value;
    }
    months := Some(listed);
  }

  // ----- Trading dates -----

  ghost predicate StrictlyAscending(dates: seq<Date>) {
    forall i, j :: 0 <= i < j < |dates| ==> dates[i] != dates[j] && DateLeq(dates[i], dates[j])
  }

  predicate SortedWithoutDuplicates(dates: seq<CalendarDate>) {
    dates == Sort<Date>(dates, DateLeq) && |dates| == |Elements(dates)|
  }

  predicate InMonths(dates: seq<CalendarDate>, months: seq<CalendarDate>) {
    forall d :: d in dates ==> FirstOfMonth(d) in months
  }

  predicate EveryMonthTrades(dates: seq<CalendarDate>, months: seq<CalendarDate>) {
    forall month :: month in months ==> exists d :: d in dates && FirstOfMonth(d) == month
  }

  lemma DateOrder()
    ensures TotalOrder<Date>(DateLeq)
  {
    forall a: Date, b: Date, c: Date | DateLeq(a, b) && DateLeq(b, c) ensures DateLeq(a, c) {
    }
  }

  lemma AscendingIff(dates: seq<CalendarDate>)
    ensures SortedWithoutDuplicates(dates) <==> StrictlyAscending(dates)
  {
    DateOrder();
    SortSorted<Date>(dates, DateLeq);
    SetSize(dates);
    if StrictlyAscending(dates) {
      SortOfSorted<Date>(dates, DateLeq);
    }
  }

  predicate DigestsOk(m: Manifest, digests: Digests) {
    && m.datesSha == digests.ofDates(m.expectedDates)
    && m.instrumentsSha == digests.ofTexts(Sort(m.instruments, TextLeq))
  }

  /** What the dates and instruments of an accepted manifest satisfy. */
  ghost predicate CoverageOk(m: Manifest, digests: Digests) {
    && m.start.day == m.end.day == 1
    && !(m.end.year == MAX_YEAR && m.end.month == 12)
    && MonthsOfRange(m.coveredMonths, m.start, m.end)
    && StrictlyAscending(m.expectedDates)
    && InMonths(m.expectedDates, m.coveredMonths)
    && EveryMonthTrades(m.expectedDates, m.coveredMonths)
    && m.coveredDates == m.expectedDates
    && Distinct(m.instruments)
    && DigestsOk(m, digests)
  }

  lemma MonthsAreUnique(a: seq<CalendarDate>, b: seq<CalendarDate>, start: CalendarDate, end: CalendarDate)
    requires MonthsOfRange(a, start, end) && MonthsOfRange(b, start, end)
    ensures a == b
  {
    forall i | 0 <= i < |a| ensures a[i] == b[i] {
      assert 12 * (a[i].year - b[i].year) == b[i].month - a[i].month;
    }
  }

  method ValidateCoverage(m: Manifest, digests: Digests) returns (ok: bool)
    ensures ok <==> CoverageOk(m, digests)
  {
    if m.start.day != 1 || m.end.day != 1 || exists month :: month in m.coveredMonths && month.day != 1 {
      return false;
    }
    var months := ExpectedMonths(m.start, m.end);
    if months.None? {
      return false;
    }
    ghost var sameMonths := MonthsOfRange(m.coveredMonths, m.start, m.end);
    if sameMonths {
      MonthsAreUnique(m.coveredMonths, months.value, m.start, m.end);
    }
    if m.coveredMonths != months.value {
      return false;
    }
    ok := ValidateDates(m, digests);
  }

  method ValidateDates(m: Manifest, digests: Digests) returns (ok: bool)
    ensures ok <==>
      && StrictlyAscending(m.expectedDates) && InMonths(m.expectedDates, m.coveredMonths)
      && EveryMonthTrades(m.expectedDates, m.coveredMonths)
      && m.coveredDates == m.expectedDates && Distinct(m.instruments) && DigestsOk(m, digests)
  {
    AscendingIff(m.expectedDates);
    AscendingIff(m.coveredDates);
    SetSize(m.instruments);
    ok :=
      && SortedWithoutDuplicates(m.expectedDates) && InMonths(m.expectedDates, m.coveredMonths)
      && SortedWithoutDuplicates(m.coveredDates) && InMonths(m.coveredDates, m.coveredMonths)
      && EveryMonthTrades(m.expectedDates, m.coveredMonths)
      && m.expectedDates == m.coveredDates
      && |m.instruments| == |Elements(m.instruments)|
      && DigestsOk(m, digests);
  }

  // ----- Chunks by snapshot -----

  /** The chunks of one snapshot, in order. */
  function Group(chunks: seq<Chunk>, snapshot: int): seq<Chunk> {
    if chunks == [] then []
    else
      var init := Group(chunks[..|chunks| - 1], snapshot);
      var last := chunks[|chunks| - 1];
      if last.snapshot == snapshot then init + [last] else init
  }

  function Sequences(group: seq<Chunk>): (r: seq<int>)
    ensures |r| == |group|
  {
    seq(|group|, i requires 0 <= i < |group| => group[i].sequence)
  }

  /** The test that the source makes for one snapshot. */
  predicate GroupOk(group: seq<Chunk>) {
    && group != []
    && (forall i :: 0 <= i < |group| ==> group[i].chunkCount == group[0].chunkCount)
    && |group| == group[0].chunkCount
    && Sort(Sequences(group), IntLeq) == Range(|group|)
  }

  /** A dictionary: its keys in order of first insertion, and its values. */
  ghost predicate IsGrouping(chunks: seq<Chunk>, keys: seq<int>, groups: map<int, seq<Chunk>>) {
    && Distinct(keys)
    && (forall s :: s in keys <==> Group(chunks, s) != [])
    && (forall s :: s in groups <==> Group(chunks, s) != [])
    && (forall s :: s in groups ==> groups[s] == Group(chunks, s))
  }

  method GroupBySnapshot(chunks: seq<Chunk>) returns (keys: seq<int>, groups: map<int, seq<Chunk>>)
    ensures IsGrouping(chunks, keys, groups)
  {
    keys, groups := [], map[];
    assert chunks[..0] == [];
    for n := 0 to |chunks|
      invariant IsGrouping(chunks[..n], keys, groups)
    {
      var chunk := chunks[n];
      assert chunks[..n + 1][..n] == chunks[..n] && chunks[..n + 1][n] == chunk;
      if chunk.snapshot in groups {
        groups := groups[chunk.snapshot := groups[chunk.snapshot] + [chunk]];
      } else {
        keys := keys + [chunk.snapshot];
        groups := groups[chunk.snapshot := [chunk]];
      }
    }
    assert chunks[..|chunks|] == chunks;
  }

  // ----- The grid -----

  /** The positions of the chunks for one cell. */
  function Holders(chunks: seq<Chunk>, snapshot: int, sequence: int): set<int> {
    set i | 0 <= i < |chunks| && chunks[i].snapshot == snapshot && chunks[i].sequence == sequence
  }

  /** The number of chunks that a snapshot declares. */
  function CountOf(chunks: seq<Chunk>, snapshot: int): int {
    var group := Group(chunks, snapshot);
    if group == [] then 0 else group[0].chunkCount
  }

  predicate InGrid(chunks: seq<Chunk>, sequenceCount: int, snapshot: int, sequence: int) {
    1 <= snapshot <= sequenceCount && 1 <= sequence <= CountOf(chunks, snapshot)
  }

  /** Each cell of the two-level grid is held by exactly one chunk, no chunk lies outside, no snapshot is empty and
      the chunks of a snapshot agree on their count. */
  ghost predicate Grid(chunks: seq<Chunk>, sequenceCount: int) {
    && (forall snapshot, sequence ::
          |Holders(chunks, snapshot, sequence)| == if InGrid(chunks, sequenceCount, snapshot, sequence) then 1 else 0)
    && (forall snapshot :: 1 <= snapshot <= sequenceCount ==> CountOf(chunks, snapshot) >= 1)
    && (forall i :: 0 <= i < |chunks| ==> chunks[i].chunkCount == CountOf(chunks, chunks[i].snapshot))
  }

  ghost predicate SnapshotsFill(chunks: seq<Chunk>, n: int) {
    forall s :: Group(chunks, s) != [] <==> 1 <= s <= n
  }

  /** The test that the source makes. */
  ghost predicate GroupsOk(chunks: seq<Chunk>, sequenceCount: int) {
    && SnapshotsFill(chunks, sequenceCount)
    && (forall s :: 1 <= s <= sequenceCount ==> GroupOk(Group(chunks, s)))
  }

  method ValidateGroups(chunks: seq<Chunk>, sequenceCount: nat) returns (ok: bool)
    ensures ok <==> GroupsOk(chunks, sequenceCount)
  {
    var keys, groups := GroupBySnapshot(chunks);
    KeysAreRange(chunks, keys, groups, sequenceCount);
    if Sort(keys, IntLeq) != Range(sequenceCount) {
      return false;
    }
    ok := ValidateEach(chunks, keys, groups);
    forall s | 1 <= s <= sequenceCount ensures s in keys {
      assert Group(chunks, s) != [];
    }
  }

  method ValidateEach(chunks: seq<Chunk>, keys: seq<int>, groups: map<int, seq<Chunk>>) returns (ok: bool)
    requires IsGrouping(chunks, keys, groups)
    ensures ok <==> forall s :: s in keys ==> GroupOk(Group(chunks, s))
  {
    for n := 0 to |keys|
      invariant forall i :: 0 <= i < n ==> GroupOk(Group(chunks, keys[i]))
    {
      assert keys[n] in keys && Group(chunks, keys[n]) != [];
      if !GroupOk(groups[keys[n]]) {
        return false;
      }
    }
    ok := true;
  }

  lemma KeysAreRange(chunks: seq<Chunk>, keys: seq<int>, groups: map<int, seq<Chunk>>, n: nat)
    requires IsGrouping(chunks, keys, groups)
    ensures Sort(keys, IntLeq) == Range(n) <==> SnapshotsFill(chunks, n)
  {
    SortIsRange(keys, n);
    forall s ensures multiset(keys)[s] == if Group(chunks, s) != [] then 1 else 0 {
      DistinctMultiset(keys, s);
    }
    if CountsLikeRange(keys, n) {
      forall s ensures Group(chunks, s) != [] <==> 1 <= s <= n {
        assert multiset(keys)[s] == if 1 <= s <= n then 1 else 0;
      }
    }
    if SnapshotsFill(chunks, n) {
      assert CountsLikeRange(keys, n);
    }
  }

  // ----- Rows and objects -----

  function RowSum(chunks: seq<Chunk>): int {
    if chunks == [] then 0 else RowSum(chunks[..|chunks| - 1]) + chunks[|chunks| - 1].rowCount
  }

  predicate ChunkFieldsOk(chunks: seq<Chunk>) {
    forall i :: 0 <= i < |chunks| ==>
      && chunks[i].snapshot >= 1 && chunks[i].sequence >= 1 && chunks[i].chunkCount >= 1
      && 1 <= chunks[i].rowCount <= MAX_CHUNK_ROWS
  }

  predicate CountsOk(m: Manifest) {
    && m.sequenceCount >= 1 && m.chunkCount >= 1 && m.rowCount >= 1
    && ChunkFieldsOk(m.chunks)
    && m.coveredMonths != [] && m.expectedDates != [] && m.coveredDates != []
    && m.instruments != [] && m.chunks != [] && m.objects != []
  }

  function ObjectsByKey(objects: seq<Object>): map<string, Object> {
    if objects == [] then map[]
    else
      var last := objects[|objects| - 1];
      ObjectsByKey(objects[..|objects| - 1])[last.key := last]
  }

  predicate ObjectEvidence(chunks: seq<Chunk>, objects: seq<Object>) {
    var byKey := ObjectsByKey(objects);
    && |byKey| == |objects|
    && forall chunk :: chunk in chunks ==> chunk.stored.key in byKey && byKey[chunk.stored.key] == chunk.stored
  }

  /** No key is listed twice and every chunk's object is listed exactly as the chunk has it. */
  ghost predicate ObjectsOk(chunks: seq<Chunk>, objects: seq<Object>) {
    && (forall i, j :: 0 <= i < j < |objects| ==> objects[i].key != objects[j].key)
    && (forall chunk :: chunk in chunks ==> chunk.stored in objects)
  }

  // ----- The decision -----

  ghost predicate Accepted(m: Manifest, digests: Digests) {
    && CountsOk(m)
    && CoverageOk(m, digests)
    && m.chunkCount == |m.chunks|
    && Grid(m.chunks, m.sequenceCount)
    && m.rowCount == RowSum(m.chunks)
    && ObjectsOk(m.chunks, m.objects)
  }
}
