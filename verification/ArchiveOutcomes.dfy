/** Which archive manifests are accepted, said of their fields alone. */
module ArchiveOutcomes {
  import opened SequenceFacts
  import opened Sorting
  import opened ArchiveManifest
  import opened ArchiveManifestTheory

  // ----- Dates -----

  ghost predicate Before(a: Date, b: Date) {
    || a.year < b.year
    || (a.year == b.year && a.month < b.month)
    || (a.year == b.year && a.month == b.month && a.day < b.day)
  }

  ghost predicate MonthAfter(a: Date, b: Date) {
    b == if a.month == 12 then Date(a.year + 1, 1, 1) else Date(a.year, a.month + 1, 1)
  }

  /** First days of months, from the first to the last without a gap. */
  ghost predicate Continuous(months: seq<CalendarDate>, start: CalendarDate, end: CalendarDate) {
    && months != [] && months[0] == start && months[|months| - 1] == end && start.day == 1 && end.day == 1
    && forall i :: 0 <= i < |months| - 1 ==> MonthAfter(months[i], months[i + 1])
  }

  lemma MonthIndexIs(a: CalendarDate, b: CalendarDate)
    requires a.day == b.day == 1
    ensures MonthIndex(a) == MonthIndex(b) <==> a == b
    ensures MonthIndex(b) == MonthIndex(a) + 1 <==> MonthAfter(a, b)
  {
  }

  lemma MonthsAre(months: seq<CalendarDate>, start: CalendarDate, end: CalendarDate)
    requires start.day == end.day == 1 && months != []
    ensures MonthsOfRange(months, start, end) <==> Continuous(months, start, end)
  {
    if MonthsOfRange(months, start, end) {
      MonthIndexIs(months[0], start);
      MonthIndexIs(months[|months| - 1], end);
      forall i | 0 <= i < |months| - 1 ensures MonthAfter(months[i], months[i + 1]) {
        MonthIndexIs(months[i], months[i + 1]);
      }
    }
    if Continuous(months, start, end) {
      forall i | 0 <= i < |months| ensures months[i].day == 1 && MonthIndex(months[i]) == MonthIndex(start) + i {
        ContinuousIndex(months, start, end, i);
      }
      assert MonthIndex(months[|months| - 1]) == MonthIndex(start) + |months| - 1;
    }
  }

  lemma {:induction false} ContinuousIndex(months: seq<CalendarDate>, start: CalendarDate, end: CalendarDate, i: nat)
    requires Continuous(months, start, end) && i < |months|
    ensures months[i].day == 1 && MonthIndex(months[i]) == MonthIndex(start) + i
  {
    if i > 0 {
      ContinuousIndex(months, start, end, i - 1);
      assert MonthAfter(months[i - 1], months[i]);
      MonthIndexIs(months[i - 1], months[i]);
    }
  }

  ghost predicate InOrder(dates: seq<Date>) {
    forall i, j :: 0 <= i < j < |dates| ==> Before(dates[i], dates[j])
  }

  ghost predicate SameMonth(a: Date, b: Date) { a.year == b.year && a.month == b.month }

  /** Every date lies in a covered month and every covered month has a date. */
  ghost predicate DatesFit(dates: seq<CalendarDate>, months: seq<CalendarDate>) {
    && (forall d :: d in dates ==> exists month :: month in months && SameMonth(d, month))
    && (forall month :: month in months ==> exists d :: d in dates && SameMonth(d, month))
  }

  lemma FirstsAre(d: CalendarDate, month: CalendarDate)
    requires month.day == 1
    ensures FirstOfMonth(d) == month <==> SameMonth(d, month)
  {
  }

  lemma DatesAre(dates: seq<CalendarDate>, months: seq<CalendarDate>)
    requires forall month :: month in months ==> month.day == 1
    ensures InMonths(dates, months) && EveryMonthTrades(dates, months) <==> DatesFit(dates, months)
  {
    forall d, month | d in dates && month in months ensures FirstOfMonth(d) == month <==> SameMonth(d, month) {
      FirstsAre(d, month);
    }
    if InMonths(dates, months) {
      forall d | d in dates ensures exists month :: month in months && SameMonth(d, month) {
        assert FirstOfMonth(d) in months && SameMonth(d, FirstOfMonth(d));
      }
    }
    if DatesFit(dates, months) {
      forall d | d in dates ensures FirstOfMonth(d) in months {
        var month :| month in months && SameMonth(d, month);
        FirstsAre(d, month);
      }
    }
  }

  lemma OrderIs(dates: seq<Date>)
    ensures StrictlyAscending(dates) <==> InOrder(dates)
  {
    forall i, j | 0 <= i < j < |dates|
      ensures dates[i] != dates[j] && DateLeq(dates[i], dates[j]) <==> Before(dates[i], dates[j])
    {
      assert dates[i] == Date(dates[i].year, dates[i].month, dates[i].day);
      assert dates[j] == Date(dates[j].year, dates[j].month, dates[j].day);
    }
  }

  // ----- Checksums -----

  /** The checksums are those of the expected dates, in their order, and of the instruments, in ascending order. */
  ghost predicate ChecksumsMatch(m: Manifest, digests: Digests) {
    && m.datesSha == digests.ofDates(m.expectedDates)
    && forall sorted :: Sorted(sorted, TextLeq) && multiset(sorted) == multiset(m.instruments) ==>
         m.instrumentsSha == digests.ofTexts(sorted)
  }

  lemma ChecksumsAre(m: Manifest, digests: Digests)
    ensures DigestsOk(m, digests) <==> ChecksumsMatch(m, digests)
  {
    TextOrder();
    SortSorted(m.instruments, TextLeq);
    forall sorted | Sorted(sorted, TextLeq) && multiset(sorted) == multiset(m.instruments)
      ensures sorted == Sort(m.instruments, TextLeq)
    {
      SortedIsUnique(sorted, Sort(m.instruments, TextLeq), TextLeq);
    }
  }

  // ----- The grid -----

  ghost predicate ChunkThere(chunks: seq<Chunk>, snapshot: int, sequence: int) {
    exists i :: 0 <= i < |chunks| && chunks[i].snapshot == snapshot && chunks[i].sequence == sequence
  }

  /** Snapshots run from one to the declared count, and in each snapshot the chunks agree on their number and are
      numbered from one to it, each number once. */
  ghost predicate Numbered(chunks: seq<Chunk>, sequenceCount: int) {
    && (forall i :: 0 <= i < |chunks| ==>
         1 <= chunks[i].snapshot <= sequenceCount && 1 <= chunks[i].sequence <= chunks[i].chunkCount)
    && (forall i, j :: 0 <= i < j < |chunks| && chunks[i].snapshot == chunks[j].snapshot ==>
         chunks[i].chunkCount == chunks[j].chunkCount && chunks[i].sequence != chunks[j].sequence)
    && (forall s :: 1 <= s <= sequenceCount ==> ChunkThere(chunks, s, 1))
    && (forall i, q :: 0 <= i < |chunks| && 1 <= q <= chunks[i].chunkCount ==> ChunkThere(chunks, chunks[i].snapshot, q))
  }

  lemma ThereIs(chunks: seq<Chunk>, s: int, q: int)
    ensures ChunkThere(chunks, s, q) <==> |Holders(chunks, s, q)| >= 1
  {
    if i :| 0 <= i < |chunks| && chunks[i].snapshot == s && chunks[i].sequence == q {
      assert i in Holders(chunks, s, q);
    }
    if |Holders(chunks, s, q)| >= 1 {
      var i :| i in Holders(chunks, s, q);
    }
  }

  lemma TwoHolders(chunks: seq<Chunk>, s: int, q: int)
    ensures |Holders(chunks, s, q)| > 1 <==>
      exists i, j :: 0 <= i < j < |chunks| && chunks[i].snapshot == chunks[j].snapshot == s
                     && chunks[i].sequence == chunks[j].sequence == q
  {
    var holders := Holders(chunks, s, q);
    if i, j :| 0 <= i < j < |chunks| && chunks[i].snapshot == chunks[j].snapshot == s
               && chunks[i].sequence == chunks[j].sequence == q {
      assert {i, j} <= holders;
      assert |holders - {i, j}| == |holders| - 2;
    }
    if |holders| > 1 {
      var i :| i in holders;
      assert |holders - {i}| == |holders| - 1;
      var j :| j in holders - {i};
      assert i < j || j < i;
    }
  }

  lemma CountIs(chunks: seq<Chunk>, i: int)
    requires 0 <= i < |chunks|
    requires forall j, k :: 0 <= j < |chunks| && 0 <= k < |chunks| && chunks[j].snapshot == chunks[k].snapshot ==>
               chunks[j].chunkCount == chunks[k].chunkCount
    ensures CountOf(chunks, chunks[i].snapshot) == chunks[i].chunkCount
  {
    MemberHasHolder(chunks, i);
    var first := Group(chunks, chunks[i].snapshot)[0];
    InGroup(chunks, chunks[i].snapshot, first);
    var k :| 0 <= k < |chunks| && chunks[k] == first;
  }

  lemma GridIsNumbered(chunks: seq<Chunk>, n: int)
    requires Grid(chunks, n)
    ensures Numbered(chunks, n)
  {
    forall i | 0 <= i < |chunks|
      ensures InGrid(chunks, n, chunks[i].snapshot, chunks[i].sequence)
      ensures chunks[i].chunkCount == CountOf(chunks, chunks[i].snapshot)
    {
      MemberHasHolder(chunks, i);
    }
    forall i, j | 0 <= i < j < |chunks| && chunks[i].snapshot == chunks[j].snapshot
      ensures chunks[i].sequence != chunks[j].sequence
    {
      TwoHolders(chunks, chunks[i].snapshot, chunks[i].sequence);
    }
    forall s | 1 <= s <= n ensures ChunkThere(chunks, s, 1) {
      ThereIs(chunks, s, 1);
      assert CountOf(chunks, s) >= 1;
      assert InGrid(chunks, n, s, 1);
    }
    forall i, q | 0 <= i < |chunks| && 1 <= q <= chunks[i].chunkCount ensures ChunkThere(chunks, chunks[i].snapshot, q) {
      ThereIs(chunks, chunks[i].snapshot, q);
      assert InGrid(chunks, n, chunks[i].snapshot, q);
    }
  }

  lemma NumberedCounts(chunks: seq<Chunk>, n: int, s: int)
    requires Numbered(chunks, n)
    ensures 1 <= s <= n ==>
      exists i :: 0 <= i < |chunks| && chunks[i].snapshot == s && chunks[i].chunkCount == CountOf(chunks, s)
    ensures 1 <= s <= n ==> CountOf(chunks, s) >= 1
  {
    if 1 <= s <= n {
      assert ChunkThere(chunks, s, 1);
      var i :| 0 <= i < |chunks| && chunks[i].snapshot == s && chunks[i].sequence == 1;
      CountIs(chunks, i);
    }
  }

  lemma NumberedIsGrid(chunks: seq<Chunk>, n: int)
    requires Numbered(chunks, n)
    ensures Grid(chunks, n)
  {
    forall i | 0 <= i < |chunks| ensures chunks[i].chunkCount == CountOf(chunks, chunks[i].snapshot) {
      CountIs(chunks, i);
    }
    forall s, q ensures |Holders(chunks, s, q)| == if InGrid(chunks, n, s, q) then 1 else 0 {
      ThereIs(chunks, s, q);
      TwoHolders(chunks, s, q);
      NumberedCounts(chunks, n, s);
      if InGrid(chunks, n, s, q) {
        var i :| 0 <= i < |chunks| && chunks[i].snapshot == s && chunks[i].chunkCount == CountOf(chunks, s);
        assert ChunkThere(chunks, chunks[i].snapshot, q);
      }
    }
    forall s | 1 <= s <= n ensures CountOf(chunks, s) >= 1 {
      NumberedCounts(chunks, n, s);
    }
  }

  // ----- Rows -----

  /** The row counts add up, chunk by chunk, wherever the list is cut. */
  lemma {:induction false} RowsAddUp(a: seq<Chunk>, b: seq<Chunk>)
    ensures RowSum(a + b) == RowSum(a) + RowSum(b)
    decreases |b|
  {
    if b == [] {
      assert a + b == a;
    } else {
      var n := |b| - 1;
      RowsAddUp(a, b[..n]);
      assert (a + b)[..|a + b| - 1] == a + b[..n] && (a + b)[|a + b| - 1] == b[n];
    }
  }

  lemma RowsOfOne(chunk: Chunk)
    ensures RowSum([chunk]) == chunk.rowCount && RowSum([]) == 0
  {
    assert [chunk][..0] == [];
  }

  // ----- Acceptance -----

  ghost predicate FieldsInRange(m: Manifest) {
    && m.sequenceCount > 0 && m.chunkCount > 0 && m.rowCount > 0
    && |m.coveredMonths| > 0 && |m.expectedDates| > 0 && |m.coveredDates| > 0
    && |m.instruments| > 0 && |m.chunks| > 0 && |m.objects| > 0
    && forall chunk :: chunk in m.chunks ==>
         chunk.snapshot > 0 && chunk.sequence > 0 && chunk.chunkCount > 0 && 0 < chunk.rowCount <= 5000
  }

  ghost predicate NoRepeats(list: seq<string>) { forall i, j :: 0 <= i < j < |list| ==> list[i] != list[j] }

  lemma FieldsAre(m: Manifest)
    ensures CountsOk(m) <==> FieldsInRange(m)
  {
    if FieldsInRange(m) {
      forall i | 0 <= i < |m.chunks| ensures m.chunks[i] in m.chunks {
      }
    }
  }

  /** Main result: the accepted manifests, in plain terms.  Only the end of the calendar is special: a range that ends in
      December 9999 is refused. */
  lemma AcceptedIs(m: Manifest, digests: Digests)
    ensures Accepted(m, digests) <==>
      && FieldsInRange(m)
      && Continuous(m.coveredMonths, m.start, m.end) && !(m.end.year == 9999 && m.end.month == 12)
      && InOrder(m.expectedDates) && DatesFit(m.expectedDates, m.coveredMonths) && m.coveredDates == m.expectedDates
      && NoRepeats(m.instruments) && ChecksumsMatch(m, digests)
      && m.chunkCount == |m.chunks| && Numbered(m.chunks, m.sequenceCount)
      && m.rowCount == RowSum(m.chunks)
      && (forall i, j :: 0 <= i < j < |m.objects| ==> m.objects[i].key != m.objects[j].key)
      && (forall chunk :: chunk in m.chunks ==> chunk.stored in m.objects)
  {
    FieldsAre(m);
    OrderIs(m.expectedDates);
    ChecksumsAre(m, digests);
    if FieldsInRange(m) {
      CoverageIs(m);
      if Grid(m.chunks, m.sequenceCount) {
        GridIsNumbered(m.chunks, m.sequenceCount);
      }
      if Numbered(m.chunks, m.sequenceCount) {
        NumberedIsGrid(m.chunks, m.sequenceCount);
      }
    }
  }

  lemma CoverageIs(m: Manifest)
    requires m.coveredMonths != []
    ensures m.start.day == m.end.day == 1 && MonthsOfRange(m.coveredMonths, m.start, m.end)
            && InMonths(m.expectedDates, m.coveredMonths) && EveryMonthTrades(m.expectedDates, m.coveredMonths) <==>
      Continuous(m.coveredMonths, m.start, m.end) && DatesFit(m.expectedDates, m.coveredMonths)
  {
    if m.start.day == m.end.day == 1 {
      MonthsAre(m.coveredMonths, m.start, m.end);
      if MonthsOfRange(m.coveredMonths, m.start, m.end) {
        DatesAre(m.expectedDates, m.coveredMonths);
      }
    }
  }
}
