/** What an accepted archive manifest is: an exact two-level partition that conserves rows, over exactly the months
    of its range. */
module ArchiveManifestTheory {
  import opened SequenceFacts
  import opened Sorting
  import opened ArchiveManifest

  // ----- Groups and cells -----

  lemma {:induction false} InGroup(chunks: seq<Chunk>, snapshot: int, chunk: Chunk)
    ensures chunk in Group(chunks, snapshot) <==> chunk in chunks && chunk.snapshot == snapshot
  {
    if chunks != [] {
      var init := chunks[..|chunks| - 1];
      InGroup(init, snapshot, chunk);
      assert chunks == init + [chunks[|chunks| - 1]];
    }
  }

  lemma SequencesOfMore(group: seq<Chunk>, chunk: Chunk)
    ensures Sequences(group + [chunk]) == Sequences(group) + [chunk.sequence]
  {
  }

  lemma {:induction false} HoldersAreCounted(chunks: seq<Chunk>, snapshot: int, sequence: int)
    ensures |Holders(chunks, snapshot, sequence)| == multiset(Sequences(Group(chunks, snapshot)))[sequence]
  {
    if chunks == [] {
      assert Holders(chunks, snapshot, sequence) == {};
    } else {
      var n := |chunks| - 1;
      var init, last := chunks[..n], chunks[n];
      HoldersAreCounted(init, snapshot, sequence);
      SequencesOfMore(Group(init, snapshot), last);
      if last.snapshot == snapshot && last.sequence == sequence {
        assert Holders(chunks, snapshot, sequence) == Holders(init, snapshot, sequence) + {n};
      } else {
        assert Holders(chunks, snapshot, sequence) == Holders(init, snapshot, sequence);
      }
    }
  }

  /** One snapshot passes the source's test exactly if its cells are filled once each and its chunks agree. */
  lemma GroupOkIff(chunks: seq<Chunk>, snapshot: int)
    requires Group(chunks, snapshot) != [] && CountOf(chunks, snapshot) >= 1
    ensures GroupOk(Group(chunks, snapshot)) <==>
              && (forall i :: 0 <= i < |Group(chunks, snapshot)| ==>
                    Group(chunks, snapshot)[i].chunkCount == CountOf(chunks, snapshot))
              && (forall sequence ::
                    |Holders(chunks, snapshot, sequence)| == if 1 <= sequence <= CountOf(chunks, snapshot) then 1 else 0)
  {
    var group := Group(chunks, snapshot);
    var count := CountOf(chunks, snapshot);
    forall sequence ensures |Holders(chunks, snapshot, sequence)| == multiset(Sequences(group))[sequence] {
      HoldersAreCounted(chunks, snapshot, sequence);
    }
    SortIsRange(Sequences(group), count);
    assert Sort(Sequences(group), IntLeq) == Range(count) ==> |group| == count by {
      assert |multiset(Sort(Sequences(group), IntLeq))| == |multiset(Sequences(group))|;
    }
  }

  lemma EmptyGroupHasNoHolders(chunks: seq<Chunk>, snapshot: int, sequence: int)
    requires Group(chunks, snapshot) == []
    ensures |Holders(chunks, snapshot, sequence)| == 0
  {
    HoldersAreCounted(chunks, snapshot, sequence);
  }

  lemma MemberHasHolder(chunks: seq<Chunk>, i: int)
    requires 0 <= i < |chunks|
    ensures |Holders(chunks, chunks[i].snapshot, chunks[i].sequence)| >= 1
    ensures Group(chunks, chunks[i].snapshot) != []
    ensures chunks[i] in Group(chunks, chunks[i].snapshot)
  {
    assert i in Holders(chunks, chunks[i].snapshot, chunks[i].sequence);
    InGroup(chunks, chunks[i].snapshot, chunks[i]);
  }

  lemma CountIsPositive(chunks: seq<Chunk>, s: int)
    requires ChunkFieldsOk(chunks)
    ensures Group(chunks, s) != [] <==> CountOf(chunks, s) >= 1
  {
    if Group(chunks, s) != [] {
      InGroup(chunks, s, Group(chunks, s)[0]);
    }
  }

  /** The grouping test of the source accepts exactly the full grids. */
  lemma GroupsOkIffGrid(chunks: seq<Chunk>, n: nat)
    requires ChunkFieldsOk(chunks)
    ensures GroupsOk(chunks, n) <==> Grid(chunks, n)
  {
    if GroupsOk(chunks, n) {
      GroupsMakeGrid(chunks, n);
    }
    if Grid(chunks, n) {
      GridMakesGroups(chunks, n);
    }
  }

  lemma GroupsMakeGrid(chunks: seq<Chunk>, n: nat)
    requires ChunkFieldsOk(chunks) && GroupsOk(chunks, n)
    ensures Grid(chunks, n)
  {
    forall snapshot, sequence
      ensures |Holders(chunks, snapshot, sequence)| == if InGrid(chunks, n, snapshot, sequence) then 1 else 0
    {
      CountIsPositive(chunks, snapshot);
      if 1 <= snapshot <= n {
        GroupOkIff(chunks, snapshot);
      } else {
        EmptyGroupHasNoHolders(chunks, snapshot, sequence);
      }
    }
    forall snapshot | 1 <= snapshot <= n ensures CountOf(chunks, snapshot) >= 1 {
      CountIsPositive(chunks, snapshot);
    }
    forall i | 0 <= i < |chunks| ensures chunks[i].chunkCount == CountOf(chunks, chunks[i].snapshot) {
      MemberHasHolder(chunks, i);
      assert GroupOk(Group(chunks, chunks[i].snapshot));
    }
  }

  lemma GridMakesGroups(chunks: seq<Chunk>, n: nat)
    requires ChunkFieldsOk(chunks) && Grid(chunks, n)
    ensures GroupsOk(chunks, n)
  {
    forall s ensures Group(chunks, s) != [] <==> 1 <= s <= n {
      CountIsPositive(chunks, s);
      if Group(chunks, s) != [] {
        var chunk := Group(chunks, s)[0];
        InGroup(chunks, s, chunk);
        var i :| 0 <= i < |chunks| && chunks[i] == chunk;
        MemberHasHolder(chunks, i);
      }
    }
    forall s | 1 <= s <= n ensures GroupOk(Group(chunks, s)) {
      GridGroup(chunks, n, s);
    }
  }

  lemma GridGroup(chunks: seq<Chunk>, n: nat, s: int)
    requires Grid(chunks, n) && 1 <= s <= n
    ensures GroupOk(Group(chunks, s))
  {
    var group := Group(chunks, s);
    assert CountOf(chunks, s) >= 1;
    forall i | 0 <= i < |group| ensures group[i].chunkCount == CountOf(chunks, s) {
      InGroup(chunks, s, group[i]);
      var k :| 0 <= k < |chunks| && chunks[k] == group[i];
    }
    forall sequence
      ensures |Holders(chunks, s, sequence)| == if 1 <= sequence <= CountOf(chunks, s) then 1 else 0
    {
      assert InGrid(chunks, n, s, sequence) <==> 1 <= sequence <= CountOf(chunks, s);
    }
    GroupOkIff(chunks, s);
  }

  // ----- Objects -----

  lemma {:induction false} ObjectKeys(objects: seq<Object>)
    ensures ObjectsByKey(objects).Keys == Elements(KeysOf(objects))
    ensures forall key :: key in ObjectsByKey(objects) ==>
      ObjectsByKey(objects)[key] in objects && ObjectsByKey(objects)[key].key == key
  {
    if objects != [] {
      var init, last := objects[..|objects| - 1], objects[|objects| - 1];
      ObjectKeys(init);
      assert objects == init + [last];
      assert KeysOf(objects) == KeysOf(init) + [last.key];
      assert Elements(KeysOf(objects)) == Elements(KeysOf(init)) + {last.key};
    }
  }

  function KeysOf(objects: seq<Object>): (r: seq<string>)
    ensures |r| == |objects|
  {
    seq(|objects|, i requires 0 <= i < |objects| => objects[i].key)
  }

  lemma ObjectEvidenceIff(chunks: seq<Chunk>, objects: seq<Object>)
    ensures ObjectEvidence(chunks, objects) <==> ObjectsOk(chunks, objects)
  {
    var byKey, keys := ObjectsByKey(objects), KeysOf(objects);
    ObjectKeys(objects);
    SetSize(keys);
    assert |byKey| == |byKey.Keys| == |Elements(keys)|;
    assert Distinct(keys) <==> forall i, j :: 0 <= i < j < |objects| ==> objects[i].key != objects[j].key by {
      assert forall i :: 0 <= i < |objects| ==> keys[i] == objects[i].key;
    }
    if Distinct(keys) {
      forall chunk | chunk in chunks
        ensures chunk.stored in objects <==> chunk.stored.key in byKey && byKey[chunk.stored.key] == chunk.stored
      {
        ListedIff(objects, chunk.stored);
      }
    }
  }

  lemma ListedIff(objects: seq<Object>, stored: Object)
    requires Distinct(KeysOf(objects))
    ensures stored in objects <==> stored.key in ObjectsByKey(objects) && ObjectsByKey(objects)[stored.key] == stored
  {
    ObjectKeys(objects);
    if stored in objects {
      var keys := KeysOf(objects);
      var i :| 0 <= i < |objects| && objects[i] == stored;
      assert keys[i] == stored.key && keys[i] in Elements(keys);
      var found := ObjectsByKey(objects)[stored.key];
      var j :| 0 <= j < |objects| && objects[j] == found;
      assert keys[j] == keys[i];
    }
  }

  // ----- The validator -----

  /** The validator accepts exactly the manifests that satisfy every declared condition. */
  method ValidateRelease(m: Manifest, digests: Digests) returns (ok: bool)
    ensures ok <==> Accepted(m, digests)
  {
    if !CountsOk(m) {
      return false;
    }
    var coverage := ValidateCoverage(m, digests);
    if !coverage || m.chunkCount != |m.chunks| {
      return false;
    }
    GroupsOkIffGrid(m.chunks, m.sequenceCount);
    ObjectEvidenceIff(m.chunks, m.objects);
    var groups := ValidateGroups(m.chunks, m.sequenceCount);
    ok := groups && RowSum(m.chunks) == m.rowCount && ObjectEvidence(m.chunks, m.objects);
  }

  // ----- What acceptance means -----

  /** The counts that the snapshots declare, added up. */
  function SumOfCounts(chunks: seq<Chunk>, n: nat): int {
    if n == 0 then 0 else SumOfCounts(chunks, n - 1) + CountOf(chunks, n)
  }

  function SumOfSizes(chunks: seq<Chunk>, n: nat): nat {
    if n == 0 then 0 else SumOfSizes(chunks, n - 1) + |Group(chunks, n)|
  }

  lemma {:induction false} SizesOfEmpty(n: nat)
    ensures SumOfSizes([], n) == 0
  {
    if n > 0 {
      SizesOfEmpty(n - 1);
    }
  }

  lemma {:induction false} OneMore(chunks: seq<Chunk>, n: nat)
    requires chunks != []
    ensures SumOfSizes(chunks, n) == SumOfSizes(chunks[..|chunks| - 1], n)
                                     + if 1 <= chunks[|chunks| - 1].snapshot <= n then 1 else 0
  {
    if n > 0 {
      OneMore(chunks, n - 1);
    }
  }

  lemma {:induction false} GroupsPartition(chunks: seq<Chunk>, n: nat)
    requires forall i :: 0 <= i < |chunks| ==> 1 <= chunks[i].snapshot <= n
    ensures SumOfSizes(chunks, n) == |chunks|
  {
    if chunks == [] {
      SizesOfEmpty(n);
    } else {
      OneMore(chunks, n);
      GroupsPartition(chunks[..|chunks| - 1], n);
    }
  }

  lemma {:induction false} CountsAreSizes(chunks: seq<Chunk>, n: nat, k: nat)
    requires Grid(chunks, n) && k <= n
    ensures SumOfCounts(chunks, k) == SumOfSizes(chunks, k)
  {
    if k > 0 {
      GridGroup(chunks, n, k);
      CountsAreSizes(chunks, n, k - 1);
    }
  }

  /** The per-snapshot counts add up to the declared number of chunks. */
  lemma SnapshotCountsSumToChunkCount(m: Manifest, digests: Digests)
    requires Accepted(m, digests)
    ensures SumOfCounts(m.chunks, m.sequenceCount) == m.chunkCount
  {
    forall i | 0 <= i < |m.chunks| ensures 1 <= m.chunks[i].snapshot <= m.sequenceCount {
      MemberHasHolder(m.chunks, i);
      assert InGrid(m.chunks, m.sequenceCount, m.chunks[i].snapshot, m.chunks[i].sequence);
    }
    GroupsPartition(m.chunks, m.sequenceCount);
    CountsAreSizes(m.chunks, m.sequenceCount, m.sequenceCount);
  }

  lemma {:induction false} RowSumBounds(chunks: seq<Chunk>)
    requires ChunkFieldsOk(chunks)
    ensures |chunks| <= RowSum(chunks) <= MAX_CHUNK_ROWS * |chunks|
  {
    if chunks != [] {
      RowSumBounds(chunks[..|chunks| - 1]);
    }
  }

  /** Rows are conserved, so the declared total lies between one and five thousand rows a chunk. */
  lemma RowCountBounds(m: Manifest, digests: Digests)
    requires Accepted(m, digests)
    ensures m.chunkCount <= m.rowCount <= MAX_CHUNK_ROWS * m.chunkCount
  {
    RowSumBounds(m.chunks);
  }

  /** Reading cells is a bijection: a cell of the grid has one chunk, and every chunk has its cell. */
  lemma ChunksFillTheGrid(m: Manifest, digests: Digests, i: int, j: int)
    requires Accepted(m, digests) && 0 <= i < |m.chunks| && 0 <= j < |m.chunks|
    ensures InGrid(m.chunks, m.sequenceCount, m.chunks[i].snapshot, m.chunks[i].sequence)
    ensures m.chunks[i].snapshot == m.chunks[j].snapshot && m.chunks[i].sequence == m.chunks[j].sequence ==> i == j
  {
    MemberHasHolder(m.chunks, i);
    var holders := Holders(m.chunks, m.chunks[i].snapshot, m.chunks[i].sequence);
    assert i in holders && |holders| == 1;
    assert |holders - {i}| == 0;
    assert j in holders ==> i == j;
  }

  lemma EveryCellIsFilled(m: Manifest, digests: Digests, snapshot: int, sequence: int) returns (i: int)
    requires Accepted(m, digests) && InGrid(m.chunks, m.sequenceCount, snapshot, sequence)
    ensures 0 <= i < |m.chunks| && m.chunks[i].snapshot == snapshot && m.chunks[i].sequence == sequence
  {
    assert |Holders(m.chunks, snapshot, sequence)| == 1;
    i :| i in Holders(m.chunks, snapshot, sequence);
  }

  /** The trading dates fall into exactly the months from start to end: a month of the range has one, and no other
      month has. */
  lemma TradingMonthsAreTheRange(m: Manifest, digests: Digests, month: CalendarDate)
    requires Accepted(m, digests) && month.day == 1
    ensures (exists d :: d in m.expectedDates && FirstOfMonth(d) == month)
       <==> MonthIndex(m.start) <= MonthIndex(month) <= MonthIndex(m.end)
  {
    if MonthIndex(m.start) <= MonthIndex(month) <= MonthIndex(m.end) {
      var k := MonthIndex(month) - MonthIndex(m.start);
      assert 12 * (m.coveredMonths[k].year - month.year) == month.month - m.coveredMonths[k].month;
      assert m.coveredMonths[k] == month;
      assert month in m.coveredMonths;
    }
    if d :| d in m.expectedDates && FirstOfMonth(d) == month {
      assert month in m.coveredMonths;
    }
  }

  /** Listing the instruments in another order changes nothing. */
  lemma InstrumentOrderIsIrrelevant(m: Manifest, digests: Digests, instruments: seq<string>)
    requires Accepted(m, digests) && multiset(instruments) == multiset(m.instruments)
    ensures Accepted(m.(instruments := instruments), digests)
  {
    TextOrder();
    SortForgetsOrder(instruments, m.instruments, TextLeq);
    PermutationFacts(m.instruments, instruments);
  }

  /** A range that ends in the calendar's last month is refused: the enumeration steps past the end. */
  lemma LastCalendarMonthIsRefused(m: Manifest, digests: Digests)
    requires m.end == Date(MAX_YEAR, 12, 1)
    ensures !Accepted(m, digests)
  {
  }
}
