/** Loading a seed artifact: tables in foreign-key order, each table in batches of at most the chunk size,
    one multi-row upsert statement a batch, all inside one transaction.

    The database is a finite map from tables to rows by primary key.  As PostgreSQL does, it refuses a
    statement that updates one row twice and a statement after which a written row refers to no row. */
module SeedLoad {
  import opened TableSort
  import opened TableSortTheory

  datatype PrimaryKey = PrimaryKey(text: string)
  datatype Cells = Cells(text: string)

  /** A foreign-key value of a row; a null foreign key is no reference. */
  datatype Ref = Ref(table: Key, pk: PrimaryKey)

  datatype Row = Row(pk: PrimaryKey, cells: Cells, refs: set<Ref>)

  /** Whether the table has a primary key, and whether it has columns outside it. */
  datatype Shape = NoPrimaryKey | KeysOnly | WithData

  datatype Artifact = Artifact(key: Key, shape: Shape, rows: seq<Row>)

  type Relation = map<PrimaryKey, Row>
  type Database = map<Key, Relation>

  datatype LoadError = MissingTable | MissingPrimaryKey | RowUpdatedTwice | DanglingReference

  datatype Outcome<+T> = Done(value: T) | Failed(error: LoadError)

  // ----- One statement -----

  function UpsertRow(shape: Shape, rel: Relation, row: Row): Relation {
    if shape.KeysOnly? && row.pk in rel then rel else rel[row.pk := row]
  }

  /** Row-at-a-time upsert of a list of rows. */
  function UpsertAll(shape: Shape, rel: Relation, rows: seq<Row>): Relation
    decreases |rows|
  {
    if rows == [] then rel else UpsertAll(shape, UpsertRow(shape, rel, rows[0]), rows[1..])
  }

  predicate DistinctKeys(rows: seq<Row>) {
    forall i, j :: 0 <= i < j < |rows| ==> rows[i].pk != rows[j].pk
  }

  predicate Resolves(db: Database, ref: Ref) {
    ref.table in db && ref.pk in db[ref.table]
  }

  predicate RefsResolve(db: Database, row: Row) {
    forall ref :: ref in row.refs ==> Resolves(db, ref)
  }

  /** ON CONFLICT DO NOTHING skips the rows that exist; DO UPDATE writes every row. */
  predicate Written(shape: Shape, rel: Relation, row: Row) {
    shape.KeysOnly? ==> row.pk !in rel
  }

  function AfterBatch(db: Database, t: Artifact, batch: seq<Row>): Database
    requires t.key in db
  {
    db[t.key := UpsertAll(t.shape, db[t.key], batch)]
  }

  /** No row the statement writes is left with a reference to a missing row. */
  predicate ReferencesHold(db: Database, t: Artifact, batch: seq<Row>)
    requires t.key in db
  {
    forall row :: row in batch && Written(t.shape, db[t.key], row) ==> RefsResolve(AfterBatch(db, t, batch), row)
  }

  /** One statement for a whole batch: a row whose primary key is taken updates the stored row, or is skipped when every
      column is in the key. */
  function ExecuteUpsertBatch(db: Database, t: Artifact, batch: seq<Row>): Outcome<Database>
    requires t.key in db
  {
    if t.shape.WithData? && !DistinctKeys(batch) then Failed(RowUpdatedTwice)
    else if !ReferencesHold(db, t, batch) then Failed(DanglingReference)
    else Done(AfterBatch(db, t, batch))
  }

  // ----- One table -----

  function BatchSize(chunkSize: int): nat {
    if chunkSize < 1 then 1 else chunkSize
  }

  function Take(rows: seq<Row>, chunkSize: int): (n: nat)
    ensures n <= |rows| && (rows != [] ==> n > 0)
  {
    if |rows| < BatchSize(chunkSize) then |rows| else BatchSize(chunkSize)
  }

  /** Batch after batch, until one fails. */
  ghost function LoadRows(db: Database, t: Artifact, rows: seq<Row>, chunkSize: int): (o: Outcome<Database>)
    requires t.key in db
    ensures o.Done? ==> t.key in o.value
    decreases |rows|
  {
    if rows == [] then Done(db)
    else
      var n := Take(rows, chunkSize);
      var first := ExecuteUpsertBatch(db, t, rows[..n]);
      if first.Failed? then first else LoadRows(first.value, t, rows[n..], chunkSize)
  }

  ghost function LoadTable(db: Database, t: Artifact, chunkSize: int): Outcome<Database> {
    if t.key !in db then Failed(MissingTable)
    else if t.shape.NoPrimaryKey? then Failed(MissingPrimaryKey)
    else LoadRows(db, t, t.rows, chunkSize)
  }

  /** rowcount of one statement: DO UPDATE counts every row, DO NOTHING the rows it inserts. */
  function Affected(shape: Shape, before: Relation, after: Relation, rows: nat): int {
    if shape.WithData? then rows else |after| - |before|
  }

  /** Every batch but the last is full, and the last is not empty. */
  ghost predicate FullButLast(batches: seq<seq<Row>>, size: int) {
    forall i :: 0 <= i < |batches| ==> 0 < |batches[i]| <= size && (i < |batches| - 1 ==> |batches[i]| == size)
  }

  /** Batches in file order, each of exactly the chunk size but for the last; a chunk size below one means single rows. */
  ghost predicate CutsInto(rows: seq<Row>, batches: seq<seq<Row>>, chunkSize: int) {
    && Concat(batches) == rows
    && (chunkSize >= 1 ==> FullButLast(batches, chunkSize))
    && (chunkSize < 1 ==> forall i :: 0 <= i < |batches| ==> |batches[i]| == 1)
  }

  method UpsertTable(db: Database, t: Artifact, chunkSize: int)
    returns (outcome: Outcome<Database>, processed: nat, affected: int, ghost batches: seq<seq<Row>>)
    ensures outcome == LoadTable(db, t, chunkSize)
    ensures outcome.Done? ==>
              && processed == |t.rows|
              && affected == (if t.shape.WithData? then |t.rows| else |outcome.value[t.key]| - |db[t.key]|)
              && CutsInto(t.rows, batches, chunkSize)
  {
    if t.key !in db {
      return Failed(MissingTable), 0, 0, [];
    }
    if t.shape.NoPrimaryKey? {
      return Failed(MissingPrimaryKey), 0, 0, [];
    }
    outcome, processed, affected, batches := UpsertRows(db, t, chunkSize);
  }

  /** Loop state: processed rows are in the database, batch holds the rows read since. */
  datatype Cursor = Cursor(db: Database, batch: seq<Row>, processed: nat, affected: int)

  /** rest holds the rows not read yet. */
  ghost predicate Progress(db: Database, t: Artifact, chunkSize: int, rest: seq<Row>, c: Cursor, batches: seq<seq<Row>>) {
    && t.key in db && t.key in c.db
    && Concat(batches) + c.batch + rest == t.rows
    && c.processed == |Concat(batches)|
    && FullButLast(batches, BatchSize(chunkSize))
    && (c.batch != [] || rest != [] ==> forall i :: 0 <= i < |batches| ==> |batches[i]| == BatchSize(chunkSize))
    && LoadRows(c.db, t, c.batch + rest, chunkSize) == LoadRows(db, t, t.rows, chunkSize)
    && c.affected == Affected(t.shape, db[t.key], c.db[t.key], c.processed)
  }

  lemma Gather(db: Database, t: Artifact, chunkSize: int, rest: seq<Row>, c: Cursor, batches: seq<seq<Row>>)
    requires Progress(db, t, chunkSize, rest, c, batches) && rest != []
    ensures Progress(db, t, chunkSize, rest[1..], c.(batch := c.batch + [rest[0]]), batches)
  {
    assert rest == [rest[0]] + rest[1..];
    assert c.batch + rest == (c.batch + [rest[0]]) + rest[1..];
    assert Concat(batches) + c.batch + rest == Concat(batches) + (c.batch + [rest[0]]) + rest[1..];
  }

  lemma LoadFirstBatch(db: Database, t: Artifact, batch: seq<Row>, rest: seq<Row>, chunkSize: int)
    requires t.key in db && 0 < |batch| <= BatchSize(chunkSize) && (|batch| == BatchSize(chunkSize) || rest == [])
    ensures LoadRows(db, t, batch + rest, chunkSize)
         == var first := ExecuteUpsertBatch(db, t, batch);
            if first.Failed? then first else LoadRows(first.value, t, rest, chunkSize)
  {
    var rows := batch + rest;
    assert rows[..|batch|] == batch && rows[|batch|..] == rest;
  }

  lemma FlushMovesBatch(batches: seq<seq<Row>>, batch: seq<Row>, rest: seq<Row>)
    ensures Concat(batches + [batch]) + [] + rest == Concat(batches) + batch + rest
    ensures |Concat(batches + [batch])| == |Concat(batches)| + |batch|
    ensures [] + rest == rest
  {
    ConcatAppend(batches, batch);
  }

  /** Executes the batch and clears it. */
  method Flush(ghost db: Database, t: Artifact, ghost chunkSize: int, ghost rest: seq<Row>, c: Cursor,
               ghost batches: seq<seq<Row>>)
    returns (outcome: Outcome<Cursor>)
    requires Progress(db, t, chunkSize, rest, c, batches)
    requires 0 < |c.batch| <= BatchSize(chunkSize) && (|c.batch| == BatchSize(chunkSize) || rest == [])
    ensures outcome.Failed? ==> LoadRows(db, t, t.rows, chunkSize) == Failed(outcome.error)
    ensures outcome.Done? ==>
              Progress(db, t, chunkSize, rest, outcome.value, batches + [c.batch]) && outcome.value.batch == []
  {
    LoadFirstBatch(c.db, t, c.batch, rest, chunkSize);
    var result := ExecuteUpsertBatch(c.db, t, c.batch);
    if result.Failed? {
      return Failed(result.error);
    }
    FlushMovesBatch(batches, c.batch, rest);
    outcome := Done(Cursor(result.value, [], c.processed + |c.batch|,
                           c.affected + Affected(t.shape, c.db[t.key], result.value[t.key], |c.batch|)));
  }

  /** The reader loop: rows gather in a batch, a full batch is executed, the rest goes last. */
  method UpsertRows(db: Database, t: Artifact, chunkSize: int)
    returns (outcome: Outcome<Database>, processed: nat, affected: int, ghost batches: seq<seq<Row>>)
    requires t.key in db
    ensures outcome == LoadRows(db, t, t.rows, chunkSize)
    ensures outcome.Done? ==>
              && processed == |t.rows|
              && affected == Affected(t.shape, db[t.key], outcome.value[t.key], |t.rows|)
              && CutsInto(t.rows, batches, chunkSize)
  {
    var c := Cursor(db, [], 0, 0);
    batches := [];
    ghost var rest := t.rows;
    assert Concat(batches) + c.batch + rest == t.rows && c.batch + rest == t.rows;
    for n := 0 to |t.rows|
      invariant rest == t.rows[n..]
      invariant Progress(db, t, chunkSize, rest, c, batches)
      invariant |c.batch| < BatchSize(chunkSize)
    {
      Gather(db, t, chunkSize, rest, c, batches);
      c := c.(batch := c.batch + [t.rows[n]]);
      rest := rest[1..];
      if |c.batch| >= chunkSize {
        var flushed := Flush(db, t, chunkSize, rest, c, batches);
        if flushed.Failed? {
          return Failed(flushed.error), c.processed, c.affected, batches;
        }
        batches, c := batches + [c.batch], flushed.value;
      }
    }
    if c.batch != [] {
      var flushed := Flush(db, t, chunkSize, rest, c, batches);
      if flushed.Failed? {
        return Failed(flushed.error), c.processed, c.affected, batches;
      }
      batches, c := batches + [c.batch], flushed.value;
    }
    NothingLeft(db, t, chunkSize, c, batches);
    return Done(c.db), c.processed, c.affected, batches;
  }

  lemma NothingLeft(db: Database, t: Artifact, chunkSize: int, c: Cursor, batches: seq<seq<Row>>)
    requires Progress(db, t, chunkSize, [], c, batches) && c.batch == []
    ensures LoadRows(db, t, t.rows, chunkSize) == Done(c.db)
    ensures Concat(batches) == t.rows && c.processed == |t.rows|
  {
  }

  ghost function Concat(batches: seq<seq<Row>>): seq<Row>
  {
    if batches == [] then [] else batches[0] + Concat(batches[1..])
  }

  lemma {:induction false} ConcatAppend(batches: seq<seq<Row>>, b: seq<Row>)
    ensures Concat(batches + [b]) == Concat(batches) + b
  {
    if batches == [] {
      assert Concat([b]) == b;
    } else {
      ConcatAppend(batches[1..], b);
      assert (batches + [b])[1..] == batches[1..] + [b];
    }
  }

  // ----- The whole run -----

  function KeyOf(t: Artifact): Key { t.key }

  ghost function LoadAll(db: Database, ts: seq<Artifact>, chunkSize: int): Outcome<Database>
    decreases |ts|
  {
    if ts == [] then Done(db)
    else
      var first := LoadTable(db, ts[0], chunkSize);
      if first.Failed? then first else LoadAll(first.value, ts[1..], chunkSize)
  }

  ghost function RowCount(ts: seq<Artifact>): nat {
    if ts == [] then 0 else |ts[0].rows| + RowCount(ts[1..])
  }

  datatype Summary = Summary(tables: nat, rowsProcessed: nat)

  /** The table loop inside the transaction. */
  method LoadTables(db: Database, ordered: seq<Artifact>, chunkSize: int)
    returns (outcome: Outcome<Database>, summary: Summary)
    ensures outcome == LoadAll(db, ordered, chunkSize)
    ensures outcome.Done? ==> summary == Summary(|ordered|, RowCount(ordered))
  {
    var current := db;
    summary := Summary(0, 0);
    assert ordered[0..] == ordered;
    for n := 0 to |ordered|
      invariant LoadAll(current, ordered[n..], chunkSize) == LoadAll(db, ordered, chunkSize)
      invariant summary.tables == n && summary.rowsProcessed + RowCount(ordered[n..]) == RowCount(ordered)
    {
      var loaded, processed, affected, batches := UpsertTable(current, ordered[n], chunkSize);
      assert ordered[n..][1..] == ordered[n + 1..];
      if loaded.Failed? {
        return loaded, summary;
      }
      current := loaded.value;
      summary := Summary(summary.tables + 1, summary.rowsProcessed + processed);
    }
    outcome := Done(current);
  }

  /** One transaction: an error rolls every table back. */
  method RunUpsert(db: Database, tables: seq<Artifact>, fkEdges: seq<Edge>, chunkSize: int)
    returns (result: Outcome<Summary>, committed: Database, ordered: seq<Artifact>)
    ensures KeysOf(ordered, KeyOf) == SortedKeys(KeysOf(tables, KeyOf), fkEdges)
    ensures forall t :: t in ordered ==> IsLastEntry(tables, KeyOf, t)
    ensures LoadAll(db, ordered, chunkSize).Done? ==>
      result == Done(Summary(|ordered|, RowCount(ordered))) && committed == LoadAll(db, ordered, chunkSize).value
    ensures LoadAll(db, ordered, chunkSize).Failed? ==>
      result == Failed(LoadAll(db, ordered, chunkSize).error) && committed == db
  {
    ordered := SortTablesByFk(tables, KeyOf, fkEdges);
    var outcome, summary := LoadTables(db, ordered, chunkSize);
    match outcome {
      case Failed(e) => result, committed := Failed(e), db;
      case Done(loaded) => result, committed := Done(summary), loaded;
    }
  }
}
