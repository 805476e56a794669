/** When a seed file loads, read off its positions: the batches of SeedLoadTheory.dfy without running them. */
module SeedFileTheory {
  import opened SequenceFacts
  import opened TableSort
  import opened TableSortTheory
  import opened SeedLoad
  import opened SeedLoadTheory

  /** Batches start at the multiples of the batch size. */
  function BatchStart(i: nat, size: nat): nat
    requires size > 0
  {
    i / size * size
  }

  function BatchEnd(i: nat, size: nat): nat
    requires size > 0
  {
    BatchStart(i, size) + size
  }

  /** The key is in the starting table or in one of the first n rows. */
  ghost predicate Known(own: Relation, rows: seq<Row>, n: nat, pk: PrimaryKey) {
    pk in own || exists j :: 0 <= j < n && j < |rows| && rows[j].pk == pk
  }

  /** A row of a table that is nothing but its key is skipped if it exists before its batch. */
  ghost predicate WrittenAt(own: Relation, t: Artifact, rows: seq<Row>, size: nat, i: nat)
    requires size > 0 && i < |rows|
  {
    t.shape.KeysOnly? ==> !Known(own, rows, BatchStart(i, size), rows[i].pk)
  }

  /** Each self-reference of a written row names a key of the starting table or of a row that stands no later than
      the end of the row's batch. */
  ghost predicate RefsInOrder(own: Relation, t: Artifact, rows: seq<Row>, size: nat, i: nat)
    requires size > 0 && i < |rows|
  {
    WrittenAt(own, t, rows, size, i) ==>
      forall ref :: ref in rows[i].refs && ref.table == t.key ==> Known(own, rows, BatchEnd(i, size), ref.pk)
  }

  /** No later row of the same batch has the key of row i. */
  ghost predicate OnceInBatch(rows: seq<Row>, size: nat, i: nat)
    requires size > 0 && i < |rows|
  {
    forall j :: i < j < BatchEnd(i, size) && j < |rows| ==> rows[j].pk != rows[i].pk
  }

  ghost predicate RowInOrder(own: Relation, t: Artifact, rows: seq<Row>, size: nat, i: nat)
    requires size > 0 && i < |rows|
  {
    RefsInOrder(own, t, rows, size, i) && (t.shape.WithData? ==> OnceInBatch(rows, size, i))
  }

  ghost predicate FileInOrder(own: Relation, t: Artifact, rows: seq<Row>, chunkSize: int) {
    forall i :: 0 <= i < |rows| ==>
      (chunkSize >= 1 ==> RowInOrder(own, t, rows, chunkSize, i)) && (chunkSize < 1 ==> RowInOrder(own, t, rows, 1, i))
  }

  // ----- The batches -----

  /** One statement after the other, until one fails. */
  ghost function ExecuteAll(db: Database, t: Artifact, batches: seq<seq<Row>>): Outcome<Database>
    requires t.key in db
    decreases |batches|
  {
    if batches == [] then Done(db)
    else
      var first := ExecuteUpsertBatch(db, t, batches[0]);
      if first.Failed? then first else ExecuteAll(first.value, t, batches[1..])
  }

  /** There is a way to cut a file into batches of the chunk size ... */
  lemma {:induction false} CutExists(rows: seq<Row>, chunkSize: int) returns (batches: seq<seq<Row>>)
    ensures CutsInto(rows, batches, chunkSize)
    decreases |rows|
  {
    var n := if chunkSize < 1 then 1 else chunkSize;
    if |rows| == 0 {
      batches := [];
    } else if |rows| <= n {
      batches := [rows];
      assert Concat([rows]) == rows + Concat([]);
    } else {
      var rest := CutExists(rows[n..], chunkSize);
      batches := [rows[..n]] + rest;
      assert batches[1..] == rest && rows == rows[..n] + rows[n..];
      assert forall i :: 1 <= i < |batches| ==> batches[i] == rest[i - 1];
      assert rest == [] ==> Concat(rest) == [];
    }
  }

  /** ... and the load executes exactly those batches, one statement each. */
  lemma {:induction false} LoadExecutesTheCut(db: Database, t: Artifact, rows: seq<Row>, batches: seq<seq<Row>>,
                                              chunkSize: int)
    requires t.key in db && CutsInto(rows, batches, chunkSize)
    ensures LoadRows(db, t, rows, chunkSize) == ExecuteAll(db, t, batches)
    decreases |batches|
  {
    if batches != [] {
      var first, rest := batches[0], Concat(batches[1..]);
      assert rows == first + rest;
      if |batches| == 1 {
        assert Concat(batches[1..]) == [];
      }
      LoadFirstBatch(db, t, first, rest, chunkSize);
      assert forall i :: 0 <= i < |batches[1..]| ==> batches[1..][i] == batches[i + 1];
      var after := ExecuteUpsertBatch(db, t, first);
      if after.Done? {
        LoadExecutesTheCut(after.value, t, rest, batches[1..], chunkSize);
      }
    }
  }

  // ----- Dropping the first batch -----

  lemma FirstBatch(i: nat, size: nat)
    requires i < size
    ensures BatchStart(i, size) == 0 && BatchEnd(i, size) == size
  {
    assert i / size == 0;
  }

  lemma LaterBatch(i: nat, size: nat)
    requires size > 0
    ensures BatchStart(i + size, size) == BatchStart(i, size) + size
    ensures BatchEnd(i + size, size) == BatchEnd(i, size) + size
  {
    OneMoreQuotient(i, size);
    assert (i / size + 1) * size == i / size * size + size;
  }

  lemma OneMoreQuotient(i: nat, size: nat)
    requires size > 0
    ensures (i + size) / size == i / size + 1
  {
    var q, p := i / size, (i + size) / size;
    assert i == q * size + i % size;
    assert i + size == p * size + (i + size) % size;
    assert (q + 1) * size == q * size + size;
    assert p > q + 1 ==> p * size >= (q + 2) * size;
    assert p < q + 1 ==> p * size <= q * size;
  }

  lemma KnownShift(own: Relation, t: Artifact, rows: seq<Row>, n: nat, m: nat, pk: PrimaryKey)
    requires n <= |rows|
    ensures Known(UpsertAll(t.shape, own, rows[..n]), rows[n..], m, pk) <==> Known(own, rows, n + m, pk)
  {
    var batch, rest := rows[..n], rows[n..];
    UpsertAllKeys(t.shape, own, batch);
    if Known(own, rows, n + m, pk) && pk !in own {
      var j :| 0 <= j < n + m && j < |rows| && rows[j].pk == pk;
      if j < n {
        assert batch[j] in batch;
      } else {
        assert rest[j - n].pk == pk;
      }
    }
    if pk in KeysOfRows(batch) {
      var row :| row in batch && row.pk == pk;
      var j :| 0 <= j < n && batch[j] == row;
      assert rows[j].pk == pk;
    }
    if j :| 0 <= j < m && j < |rest| && rest[j].pk == pk {
      assert rows[n + j].pk == pk;
    }
  }

  lemma RowShift(own: Relation, t: Artifact, rows: seq<Row>, size: nat, i: nat)
    requires 0 < size <= |rows| && i < |rows| - size
    ensures RowInOrder(UpsertAll(t.shape, own, rows[..size]), t, rows[size..], size, i)
       <==> RowInOrder(own, t, rows, size, i + size)
  {
    var rest := rows[size..];
    LaterBatch(i, size);
    assert rest[i] == rows[i + size];
    KnownShift(own, t, rows, size, BatchStart(i, size), rest[i].pk);
    forall pk {
      KnownShift(own, t, rows, size, BatchEnd(i, size), pk);
    }
    OnceShift(rows, size, i);
  }

  lemma OnceShift(rows: seq<Row>, size: nat, i: nat)
    requires 0 < size <= |rows| && i < |rows| - size
    ensures OnceInBatch(rows[size..], size, i) <==> OnceInBatch(rows, size, i + size)
  {
    var rest := rows[size..];
    LaterBatch(i, size);
    if OnceInBatch(rest, size, i) {
      forall j | i + size < j < BatchEnd(i + size, size) && j < |rows| ensures rows[j].pk != rows[i + size].pk {
        assert rows[j] == rest[j - size];
      }
    }
    if OnceInBatch(rows, size, i + size) {
      forall j | i < j < BatchEnd(i, size) && j < |rest| ensures rest[j].pk != rest[i].pk {
        assert rest[j] == rows[j + size];
      }
    }
  }

  /** The first batch is clean exactly if its rows are in order. */
  lemma FirstBatchClean(own: Relation, t: Artifact, rows: seq<Row>, chunkSize: int)
    requires rows != []
    ensures var size, n := BatchSize(chunkSize), Take(rows, chunkSize);
            CleanBatch(own, t, rows[..n]) <==> forall i :: 0 <= i < n ==> RowInOrder(own, t, rows, size, i)
  {
    var size, n := BatchSize(chunkSize), Take(rows, chunkSize);
    var batch := rows[..n];
    forall i: nat | i < n
      ensures batch[i] == rows[i] && BatchStart(i, size) == 0 && BatchEnd(i, size) == size
    {
      FirstBatch(i, size);
    }
    KnownInBatch(own, t, rows, n, size);
    if CleanBatch(own, t, batch) {
      forall i | 0 <= i < n ensures RowInOrder(own, t, rows, size, i) {
        assert batch[i] in batch;
      }
    }
    if forall i :: 0 <= i < n ==> RowInOrder(own, t, rows, size, i) {
      RowsMakeCleanBatch(own, t, rows, n, size);
    }
  }

  lemma KnownInBatch(own: Relation, t: Artifact, rows: seq<Row>, n: nat, size: nat)
    requires n <= |rows| && n <= size && (n == size || n == |rows|)
    ensures forall pk :: pk in UpsertAll(t.shape, own, rows[..n]) <==> Known(own, rows, size, pk)
  {
    forall pk ensures pk in UpsertAll(t.shape, own, rows[..n]) <==> Known(own, rows, size, pk) {
      KnownShift(own, t, rows, n, 0, pk);
    }
  }

  lemma RowsMakeCleanBatch(own: Relation, t: Artifact, rows: seq<Row>, n: nat, size: nat)
    requires n <= |rows| && 0 < n <= size && (n == size || n == |rows|)
    requires forall i :: 0 <= i < n ==> RowInOrder(own, t, rows, size, i)
    ensures CleanBatch(own, t, rows[..n])
  {
    var batch := rows[..n];
    KnownInBatch(own, t, rows, n, size);
    forall row, ref | row in batch && Written(t.shape, own, row) && ref in row.refs && ref.table == t.key
      ensures ref.pk in UpsertAll(t.shape, own, batch)
    {
      var i :| 0 <= i < n && batch[i] == row;
      FirstBatch(i, size);
      assert RowInOrder(own, t, rows, size, i) && rows[i] == row;
    }
    if t.shape.WithData? {
      forall i, j | 0 <= i < j < n ensures batch[i].pk != batch[j].pk {
        FirstBatch(i, size);
        assert RowInOrder(own, t, rows, size, i);
      }
    }
  }

  // ----- The equivalence -----

  /** The batches of a file are clean if and only if its rows are in order. */
  lemma {:induction false} CleanIffInOrder(own: Relation, t: Artifact, rows: seq<Row>, chunkSize: int)
    ensures CleanBatches(own, t, rows, chunkSize) <==> FileInOrder(own, t, rows, chunkSize)
    decreases |rows|
  {
    if rows != [] {
      var size, n := BatchSize(chunkSize), Take(rows, chunkSize);
      var rest, after := rows[n..], UpsertAll(t.shape, own, rows[..n]);
      FirstBatchClean(own, t, rows, chunkSize);
      CleanIffInOrder(after, t, rest, chunkSize);
      RestShift(own, t, rows, size, n);
      SplitFile(own, t, rows, size, n, after);
    }
  }

  /** The rows after the first n are in order by themselves exactly if they are in the whole file. */
  ghost predicate Shifted(own: Relation, after: Relation, t: Artifact, rows: seq<Row>, size: nat, n: nat)
    requires size > 0 && n <= |rows|
  {
    forall i: nat {:trigger RowInOrder(after, t, rows[n..], size, i)} :: i < |rows| - n ==>
      (RowInOrder(after, t, rows[n..], size, i) <==> RowInOrder(own, t, rows, size, i + n))
  }

  lemma RestShift(own: Relation, t: Artifact, rows: seq<Row>, size: nat, n: nat)
    requires size > 0 && n <= |rows| && (n == size || n == |rows|)
    ensures Shifted(own, UpsertAll(t.shape, own, rows[..n]), t, rows, size, n)
  {
    if n == size {
      forall i: nat | i < |rows| - n
        ensures RowInOrder(UpsertAll(t.shape, own, rows[..n]), t, rows[n..], size, i)
           <==> RowInOrder(own, t, rows, size, i + n)
      {
        RowShift(own, t, rows, size, i);
      }
    }
  }

  lemma SplitFile(own: Relation, t: Artifact, rows: seq<Row>, size: nat, n: nat, after: Relation)
    requires n <= |rows| && size > 0 && Shifted(own, after, t, rows, size, n)
    ensures (forall i :: 0 <= i < |rows| ==> RowInOrder(own, t, rows, size, i)) <==>
              && (forall i :: 0 <= i < n ==> RowInOrder(own, t, rows, size, i))
              && (forall i :: 0 <= i < |rows| - n ==> RowInOrder(after, t, rows[n..], size, i))
  {
    if && (forall i :: 0 <= i < n ==> RowInOrder(own, t, rows, size, i))
       && (forall i :: 0 <= i < |rows| - n ==> RowInOrder(after, t, rows[n..], size, i)) {
      forall i | 0 <= i < |rows| ensures RowInOrder(own, t, rows, size, i) {
        assert i >= n ==> RowInOrder(after, t, rows[n..], size, i - n);
      }
    }
  }

  /** What each table must meet: it exists, has a primary key, and its own file is in order. */
  ghost predicate AllInOrder(db: Database, ts: seq<Artifact>, chunkSize: int) {
    forall t :: t in ts ==> t.key in db && !t.shape.NoPrimaryKey? && FileInOrder(db[t.key], t, t.rows, chunkSize)
  }

  /** Main result, read off the files: in the sorted order of acyclic foreign keys, with every reference between
      tables supplied, the load succeeds if and only if each table's own file is in order. */
  lemma SortedLoadSucceedsIffFilesAreInOrder(db: Database, tables: seq<Artifact>, edges: seq<Edge>, ts: seq<Artifact>,
                                             chunkSize: int)
    requires KeysOf(ts, KeyOf) == SortedKeys(KeysOf(tables, KeyOf), edges)
    requires Acyclic(GraphOf(Elements(KeysOf(tables, KeyOf)), edges))
    requires Declared(ts, edges) && Supplied(db, ts)
    ensures LoadAll(db, ts, chunkSize).Done? <==> AllInOrder(db, ts, chunkSize)
  {
    SortedLoadIsReferentiallySafe(db, tables, edges, ts, chunkSize);
    forall t | t in ts && t.key in db
      ensures CleanBatches(db[t.key], t, t.rows, chunkSize) <==> FileInOrder(db[t.key], t, t.rows, chunkSize)
    {
      CleanIffInOrder(db[t.key], t, t.rows, chunkSize);
    }
  }
}
