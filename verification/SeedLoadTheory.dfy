/** Referential integrity of the seed load, end to end, and what the batching does not change. */
module SeedLoadTheory {
  import opened SequenceFacts
  import opened TableSort
  import opened TableSortTheory
  import opened SeedLoad

  // ----- Batches refine row-at-a-time upserts -----

  lemma {:induction false} UpsertAllSplits(shape: Shape, rel: Relation, a: seq<Row>, b: seq<Row>)
    ensures UpsertAll(shape, rel, a + b) == UpsertAll(shape, UpsertAll(shape, rel, a), b)
    decreases |a|
  {
    if a == [] {
      assert a + b == b;
    } else {
      UpsertAllSplits(shape, UpsertRow(shape, rel, a[0]), a[1..], b);
      assert (a + b)[1..] == a[1..] + b;
    }
  }

  /** The statement for one batch is accepted as far as the table's own rows go: no row twice if it updates,
      every self-reference satisfied by the end of the batch. */
  ghost predicate CleanBatch(own: Relation, t: Artifact, batch: seq<Row>) {
    && (t.shape.WithData? ==> DistinctKeys(batch))
    && forall row, ref :: row in batch && Written(t.shape, own, row) && ref in row.refs && ref.table == t.key ==>
         ref.pk in UpsertAll(t.shape, own, batch)
  }

  ghost predicate CleanBatches(own: Relation, t: Artifact, rows: seq<Row>, chunkSize: int)
    decreases |rows|
  {
    rows == []
    || var batch := rows[..Take(rows, chunkSize)];
       && CleanBatch(own, t, batch)
       && CleanBatches(UpsertAll(t.shape, own, batch), t, rows[|batch|..], chunkSize)
  }

  ghost predicate OutsideRefsResolve(db: Database, t: Artifact, rows: seq<Row>) {
    forall row, ref :: row in rows && ref in row.refs && ref.table != t.key ==> Resolves(db, ref)
  }

  lemma BatchAccepted(db: Database, t: Artifact, batch: seq<Row>)
    requires t.key in db && OutsideRefsResolve(db, t, batch)
    ensures ExecuteUpsertBatch(db, t, batch).Done? <==> CleanBatch(db[t.key], t, batch)
  {
    var db' := AfterBatch(db, t, batch);
    forall row, ref | row in batch && ref in row.refs
      ensures Resolves(db', ref) <==> (ref.table == t.key ==> ref.pk in db'[t.key])
    {
      if ref.table != t.key { assert Resolves(db, ref); }
    }
    if ReferencesHold(db, t, batch) {
      forall row, ref | row in batch && Written(t.shape, db[t.key], row) && ref in row.refs && ref.table == t.key
        ensures ref.pk in UpsertAll(t.shape, db[t.key], batch)
      {
        assert RefsResolve(db', row);
        assert Resolves(db', ref);
      }
    }
  }

  lemma OutsideRefsAfter(db: Database, t: Artifact, rows: seq<Row>, rest: seq<Row>, own: Relation)
    requires t.key in db && OutsideRefsResolve(db, t, rows) && forall row :: row in rest ==> row in rows
    ensures OutsideRefsResolve(db, t, rest) && OutsideRefsResolve(db[t.key := own], t, rest)
  {
    forall row, ref | row in rest && ref in row.refs && ref.table != t.key
      ensures Resolves(db, ref) && Resolves(db[t.key := own], ref)
    {
      assert Resolves(db, ref);
    }
  }

  /** When the references to other tables resolve, the batches go through exactly when they are clean,
      and the table ends as the fold of single upserts, whatever the chunk size. */
  lemma {:induction false} LoadRowsRefinesUpsertAll(db: Database, t: Artifact, rows: seq<Row>, chunkSize: int)
    requires t.key in db && OutsideRefsResolve(db, t, rows)
    ensures LoadRows(db, t, rows, chunkSize).Done? <==> CleanBatches(db[t.key], t, rows, chunkSize)
    ensures LoadRows(db, t, rows, chunkSize).Done? ==>
              LoadRows(db, t, rows, chunkSize).value == db[t.key := UpsertAll(t.shape, db[t.key], rows)]
    decreases |rows|
  {
    if rows == [] {
      assert db[t.key := db[t.key]] == db;
    } else {
      var n := Take(rows, chunkSize);
      var batch, rest := rows[..n], rows[n..];
      OutsideRefsAfter(db, t, rows, batch, db[t.key]);
      OutsideRefsAfter(db, t, rows, rest, UpsertAll(t.shape, db[t.key], batch));
      BatchAccepted(db, t, batch);
      LoadRowsRefinesUpsertAll(AfterBatch(db, t, batch), t, rest, chunkSize);
      UpsertAllSplits(t.shape, db[t.key], batch, rest);
      assert rows == batch + rest;
    }
  }

  // ----- Keys only grow -----

  ghost predicate Grows(before: Database, after: Database) {
    before.Keys <= after.Keys && forall k :: k in before ==> before[k].Keys <= after[k].Keys
  }

  ghost function KeysOfRows(rows: seq<Row>): set<PrimaryKey> {
    set row | row in rows :: row.pk
  }

  lemma {:induction false} UpsertAllKeys(shape: Shape, rel: Relation, rows: seq<Row>)
    ensures UpsertAll(shape, rel, rows).Keys == rel.Keys + KeysOfRows(rows)
    decreases |rows|
  {
    if rows != [] {
      UpsertAllKeys(shape, UpsertRow(shape, rel, rows[0]), rows[1..]);
      assert rows == [rows[0]] + rows[1..];
      assert KeysOfRows(rows) == {rows[0].pk} + KeysOfRows(rows[1..]);
    }
  }

  // ----- Parents before children: the load never dangles -----

  ghost predicate DistinctTables(ts: seq<Artifact>) {
    forall i, j :: 0 <= i < j < |ts| ==> ts[i].key != ts[j].key
  }

  /** A reference out of table t. */
  ghost predicate PointsOut(t: Artifact, ref: Ref) {
    ref.table != t.key && exists row :: row in t.rows && ref in row.refs
  }

  /** Referenced artifact tables stand earlier in the list. */
  ghost predicate ParentsLoadFirst(ts: seq<Artifact>) {
    forall i, j, ref :: 0 <= i < |ts| && 0 <= j < |ts| && PointsOut(ts[i], ref) && ts[j].key == ref.table ==> j < i
  }

  ghost predicate Supplies(ts: seq<Artifact>, ref: Ref) {
    exists t :: t in ts && t.key == ref.table && ref.pk in KeysOfRows(t.rows)
  }

  /** Every reference between tables finds its row in the starting database or in the artifact. */
  ghost predicate Supplied(db: Database, ts: seq<Artifact>) {
    forall t, ref :: t in ts && PointsOut(t, ref) ==> Resolves(db, ref) || Supplies(ts, ref)
  }

  /** What each table must meet by itself: it exists, has a primary key, and its own batches are clean. */
  ghost predicate AllClean(db: Database, ts: seq<Artifact>, chunkSize: int) {
    forall t :: t in ts ==>
      t.key in db && !t.shape.NoPrimaryKey? && CleanBatches(db[t.key], t, t.rows, chunkSize)
  }

  /** The database with every table upserted row by row. */
  ghost function Loaded(db: Database, ts: seq<Artifact>): Database
    decreases |ts|
  {
    if ts == [] then db
    else if ts[0].key !in db then Loaded(db, ts[1..])
    else Loaded(db[ts[0].key := UpsertAll(ts[0].shape, db[ts[0].key], ts[0].rows)], ts[1..])
  }

  lemma HeadResolves(db: Database, ts: seq<Artifact>)
    requires ts != [] && ParentsLoadFirst(ts) && Supplied(db, ts)
    ensures OutsideRefsResolve(db, ts[0], ts[0].rows)
  {
    forall row, ref | row in ts[0].rows && ref in row.refs && ref.table != ts[0].key ensures Resolves(db, ref) {
      assert PointsOut(ts[0], ref) && ts[0] in ts;
      assert forall j :: 0 <= j < |ts| ==> ts[j].key != ref.table;
      assert forall t :: t in ts ==> t.key != ref.table;
    }
  }

  lemma TailSupplied(db: Database, ts: seq<Artifact>)
    requires ts != [] && ts[0].key in db && ParentsLoadFirst(ts) && Supplied(db, ts)
    ensures var own := UpsertAll(ts[0].shape, db[ts[0].key], ts[0].rows);
            ParentsLoadFirst(ts[1..]) && Supplied(db[ts[0].key := own], ts[1..])
  {
    var rest := ts[1..];
    var own := UpsertAll(ts[0].shape, db[ts[0].key], ts[0].rows);
    var db' := db[ts[0].key := own];
    UpsertAllKeys(ts[0].shape, db[ts[0].key], ts[0].rows);
    forall i, j, ref | 0 <= i < |rest| && 0 <= j < |rest| && PointsOut(rest[i], ref) && rest[j].key == ref.table
      ensures j < i
    {
      assert PointsOut(ts[i + 1], ref) && ts[j + 1].key == ref.table;
    }
    forall t, ref | t in rest && PointsOut(t, ref) ensures Resolves(db', ref) || Supplies(rest, ref) {
      assert t in ts;
      if Supplies(ts, ref) {
        var s :| s in ts && s.key == ref.table && ref.pk in KeysOfRows(s.rows);
        assert s == ts[0] || s in rest;
      }
    }
  }

  /** In an order that puts parents first the load goes through if and only if each table's own batches are
      clean, and then it equals the row-by-row load. */
  lemma {:induction false} LoadAllIffClean(db: Database, ts: seq<Artifact>, chunkSize: int)
    requires DistinctTables(ts) && ParentsLoadFirst(ts) && Supplied(db, ts)
    ensures LoadAll(db, ts, chunkSize).Done? <==> AllClean(db, ts, chunkSize)
    ensures LoadAll(db, ts, chunkSize).Done? ==> LoadAll(db, ts, chunkSize).value == Loaded(db, ts)
    decreases |ts|
  {
    if ts != [] {
      var t, rest := ts[0], ts[1..];
      HeadResolves(db, ts);
      assert t in ts;
      if t.key in db && !t.shape.NoPrimaryKey? {
        LoadRowsRefinesUpsertAll(db, t, t.rows, chunkSize);
        TailSupplied(db, ts);
        var db' := db[t.key := UpsertAll(t.shape, db[t.key], t.rows)];
        LoadAllIffClean(db', rest, chunkSize);
        OthersUnchanged(db, ts, db'[t.key], chunkSize);
      }
    }
  }

  lemma OthersUnchanged(db: Database, ts: seq<Artifact>, own: Relation, chunkSize: int)
    requires DistinctTables(ts) && ts != [] && ts[0].key in db
    ensures AllClean(db, ts[1..], chunkSize) <==> AllClean(db[ts[0].key := own], ts[1..], chunkSize)
    ensures AllClean(db, ts, chunkSize) <==> AllClean(db, [ts[0]], chunkSize) && AllClean(db, ts[1..], chunkSize)
  {
    assert ts == [ts[0]] + ts[1..];
    forall t | t in ts[1..] ensures t.key != ts[0].key {
      var j :| 0 <= j < |ts[1..]| && ts[1..][j] == t;
      assert ts[j + 1] == t;
    }
  }

  /** The foreign keys that the edge list declares cover every reference between artifact tables. */
  ghost predicate Declared(ts: seq<Artifact>, edges: seq<Edge>) {
    forall t, ref :: t in ts && PointsOut(t, ref) ==> (t.key, ref.table) in edges
  }

  /** Main theorem.  With acyclic foreign keys (self-references aside) and every reference between tables
      supplied by the artifact or the starting database, loading in the sorted order never meets a dangling
      reference between tables: it succeeds if and only if each table's own batches are clean. */
  lemma SortedLoadIsReferentiallySafe(db: Database, tables: seq<Artifact>, edges: seq<Edge>, ts: seq<Artifact>,
                                      chunkSize: int)
    requires KeysOf(ts, KeyOf) == SortedKeys(KeysOf(tables, KeyOf), edges)
    requires Acyclic(GraphOf(Elements(KeysOf(tables, KeyOf)), edges))
    requires Declared(ts, edges) && Supplied(db, ts)
    ensures LoadAll(db, ts, chunkSize).Done? <==> AllClean(db, ts, chunkSize)
    ensures LoadAll(db, ts, chunkSize).Done? ==> LoadAll(db, ts, chunkSize).value == Loaded(db, ts)
  {
    var keys := KeysOf(tables, KeyOf);
    var r := SortedKeys(keys, edges);
    SortIsPermutation(keys, edges);
    AllEmittedIffAcyclic(keys, edges);
    forall i, j | 0 <= i < j < |ts| ensures ts[i].key != ts[j].key {
      assert r[i] == KeyOf(ts[i]) && r[j] == KeyOf(ts[j]);
    }
    forall i, j, ref | 0 <= i < |ts| && 0 <= j < |ts| && PointsOut(ts[i], ref) && ts[j].key == ref.table
      ensures j < i
    {
      assert r[i] == KeyOf(ts[i]) && r[j] == KeyOf(ts[j]) == ref.table;
      assert ts[i] in ts;
      assert ref.table in Elements(r);
      EmittedFollowParents(keys, edges, i, ref.table);
      var m :| 0 <= m < i && r[..i][m] == ref.table;
      assert r[m] == r[j];
    }
    LoadAllIffClean(db, ts, chunkSize);
  }

  // ----- Every statement keeps the whole database consistent -----

  ghost predicate Consistent(db: Database) {
    forall t, pk :: t in db && pk in db[t] ==> RefsResolve(db, db[t][pk])
  }

  /** Each row of the new table was there before or was written by the batch. */
  lemma {:induction false} UpsertAllOrigin(shape: Shape, rel: Relation, rows: seq<Row>, pk: PrimaryKey)
    requires pk in UpsertAll(shape, rel, rows)
    ensures var row := UpsertAll(shape, rel, rows)[pk];
            (pk in rel && row == rel[pk]) || (row in rows && row.pk == pk && Written(shape, rel, row))
    decreases |rows|
  {
    if rows != [] {
      UpsertAllOrigin(shape, UpsertRow(shape, rel, rows[0]), rows[1..], pk);
    }
  }

  lemma BatchKeepsConsistent(db: Database, t: Artifact, batch: seq<Row>)
    requires t.key in db && Consistent(db) && ExecuteUpsertBatch(db, t, batch).Done?
    ensures Consistent(AfterBatch(db, t, batch))
  {
    var db' := AfterBatch(db, t, batch);
    UpsertAllKeys(t.shape, db[t.key], batch);
    forall k, pk | k in db' && pk in db'[k] ensures RefsResolve(db', db'[k][pk]) {
      if k == t.key {
        UpsertAllOrigin(t.shape, db[k], batch, pk);
      }
      if k in db && pk in db[k] && db'[k][pk] == db[k][pk] {
        assert RefsResolve(db, db[k][pk]);
        forall ref | ref in db[k][pk].refs ensures Resolves(db', ref) { assert Resolves(db, ref); }
      }
    }
  }

  /** Batch after batch and table after table, a run that succeeds leaves no dangling reference anywhere,
      between tables or within one. */
  lemma {:induction false} LoadRowsKeepsConsistent(db: Database, t: Artifact, rows: seq<Row>, chunkSize: int)
    requires t.key in db && Consistent(db) && LoadRows(db, t, rows, chunkSize).Done?
    ensures Consistent(LoadRows(db, t, rows, chunkSize).value)
    decreases |rows|
  {
    if rows != [] {
      var n := Take(rows, chunkSize);
      BatchKeepsConsistent(db, t, rows[..n]);
      LoadRowsKeepsConsistent(AfterBatch(db, t, rows[..n]), t, rows[n..], chunkSize);
    }
  }

  lemma {:induction false} LoadAllKeepsConsistent(db: Database, ts: seq<Artifact>, chunkSize: int)
    requires Consistent(db) && LoadAll(db, ts, chunkSize).Done?
    ensures Consistent(LoadAll(db, ts, chunkSize).value)
    decreases |ts|
  {
    if ts != [] {
      LoadRowsKeepsConsistent(db, ts[0], ts[0].rows, chunkSize);
      LoadAllKeepsConsistent(LoadTable(db, ts[0], chunkSize).value, ts[1..], chunkSize);
    }
  }

  /** The rows processed are those of all files together. */
  lemma {:induction false} RowCountIs(a: seq<Artifact>, t: Artifact)
    ensures RowCount([]) == 0 && RowCount(a + [t]) == RowCount(a) + |t.rows|
  {
    if a == [] {
      assert a + [t] == [t] && [t][1..] == [];
    } else {
      RowCountIs(a[1..], t);
      assert (a + [t])[1..] == a[1..] + [t];
    }
  }

  // ----- A second run changes nothing -----

  /** Upserting is overlaying a table made of the rows alone: on top where it updates, underneath where it does not. */
  lemma {:induction false} UpsertAllIsOverlay(shape: Shape, rel: Relation, rows: seq<Row>)
    ensures var own := UpsertAll(shape, map[], rows);
            UpsertAll(shape, rel, rows) == if shape.KeysOnly? then own + rel else rel + own
    decreases |rows|
  {
    if rows != [] {
      var r, rest := rows[0], rows[1..];
      UpsertAllIsOverlay(shape, UpsertRow(shape, rel, r), rest);
      UpsertAllIsOverlay(shape, UpsertRow(shape, map[], r), rest);
    }
  }

  /** Which row ends up under a key: where the statement updates, the last row of the key; where it does nothing on a
      conflict, the stored row or else the first one. */
  lemma {:induction false} UpsertedRow(shape: Shape, rel: Relation, rows: seq<Row>, i: nat)
    requires i < |rows|
    ensures var after := UpsertAll(shape, rel, rows);
            && rows[i].pk in after
            && (!shape.KeysOnly? && LastOfKey(rows, i) ==> after[rows[i].pk] == rows[i])
            && (shape.KeysOnly? && rows[i].pk !in rel && FirstOfKey(rows, i) ==> after[rows[i].pk] == rows[i])
            && (shape.KeysOnly? && rows[i].pk in rel ==> after[rows[i].pk] == rel[rows[i].pk])
    decreases |rows|
  {
    var rest := rows[1..];
    UpsertAllKeys(shape, rel, rows);
    assert rows[i] in rows;
    if i > 0 {
      assert rest[i - 1] == rows[i];
      UpsertedRow(shape, UpsertRow(shape, rel, rows[0]), rest, i - 1);
      assert FirstOfKey(rows, i) ==> rows[0].pk != rows[i].pk;
    } else {
      assert LastOfKey(rows, 0) ==> forall j :: 0 <= j < |rest| ==> rest[j] == rows[j + 1] && rest[j].pk != rows[0].pk;
      if shape.KeysOnly? || LastOfKey(rows, 0) {
        OtherKeysKeepTheirRow(shape, UpsertRow(shape, rel, rows[0]), rest, rows[0].pk);
      }
    }
  }

  ghost predicate LastOfKey(rows: seq<Row>, i: nat)
    requires i < |rows|
  {
    forall j :: i < j < |rows| ==> rows[j].pk != rows[i].pk
  }

  ghost predicate FirstOfKey(rows: seq<Row>, i: nat)
    requires i < |rows|
  {
    forall j :: 0 <= j < i ==> rows[j].pk != rows[i].pk
  }

  lemma {:induction false} OtherKeysKeepTheirRow(shape: Shape, rel: Relation, rows: seq<Row>, pk: PrimaryKey)
    requires pk in rel && (shape.KeysOnly? || pk !in KeysOfRows(rows))
    ensures pk in UpsertAll(shape, rel, rows) && UpsertAll(shape, rel, rows)[pk] == rel[pk]
    decreases |rows|
  {
    if rows != [] {
      assert rows == [rows[0]] + rows[1..];
      assert KeysOfRows(rows) == {rows[0].pk} + KeysOfRows(rows[1..]);
      OtherKeysKeepTheirRow(shape, UpsertRow(shape, rel, rows[0]), rows[1..], pk);
    }
  }

  /** The table after a load, row by row of its file. */
  ghost predicate HoldsFile(before: Relation, after: Relation, t: Artifact) {
    && after.Keys == before.Keys + KeysOfRows(t.rows)
    && (forall pk :: pk in before && (t.shape.KeysOnly? || pk !in KeysOfRows(t.rows)) ==> after[pk] == before[pk])
    && (forall i :: 0 <= i < |t.rows| && !t.shape.KeysOnly? && LastOfKey(t.rows, i) ==> after[t.rows[i].pk] == t.rows[i])
    && (forall i :: 0 <= i < |t.rows| && t.shape.KeysOnly? && t.rows[i].pk !in before && FirstOfKey(t.rows, i) ==>
         after[t.rows[i].pk] == t.rows[i])
  }

  lemma UpsertedTable(before: Relation, t: Artifact)
    ensures HoldsFile(before, UpsertAll(t.shape, before, t.rows), t)
  {
    UpsertAllKeys(t.shape, before, t.rows);
    forall pk | pk in before && (t.shape.KeysOnly? || pk !in KeysOfRows(t.rows))
      ensures UpsertAll(t.shape, before, t.rows)[pk] == before[pk]
    {
      OtherKeysKeepTheirRow(t.shape, before, t.rows, pk);
    }
    forall i | 0 <= i < |t.rows| ensures t.rows[i].pk in KeysOfRows(t.rows) {
      assert t.rows[i] in t.rows;
    }
    forall i: nat | i < |t.rows|
      ensures !t.shape.KeysOnly? && LastOfKey(t.rows, i) ==>
        UpsertAll(t.shape, before, t.rows)[t.rows[i].pk] == t.rows[i]
      ensures t.shape.KeysOnly? && t.rows[i].pk !in before && FirstOfKey(t.rows, i) ==>
        UpsertAll(t.shape, before, t.rows)[t.rows[i].pk] == t.rows[i]
    {
      UpsertedRow(t.shape, before, t.rows, i);
    }
  }

  /** What a load that succeeds leaves behind: every table of the artifact holds its file, every other is as it was. */
  lemma LoadedTablesHoldTheirFiles(db: Database, ts: seq<Artifact>, chunkSize: int)
    requires DistinctTables(ts) && LoadAll(db, ts, chunkSize).Done?
    ensures var f := LoadAll(db, ts, chunkSize).value;
            && f.Keys == db.Keys
            && (forall t :: t in ts ==> t.key in db && HoldsFile(db[t.key], f[t.key], t))
            && forall k :: k in db && (forall t :: t in ts ==> t.key != k) ==> f[k] == db[k]
  {
    LoadedTable(db, ts, chunkSize);
    forall t | t in ts && t.key in db ensures HoldsFile(db[t.key], UpsertAll(t.shape, db[t.key], t.rows), t) {
      UpsertedTable(db[t.key], t);
    }
  }

  lemma {:induction false} LoadedTable(db: Database, ts: seq<Artifact>, chunkSize: int)
    requires DistinctTables(ts) && LoadAll(db, ts, chunkSize).Done?
    ensures var f := LoadAll(db, ts, chunkSize).value;
            && f.Keys == db.Keys
            && (forall t :: t in ts ==> t.key in db && f[t.key] == UpsertAll(t.shape, db[t.key], t.rows))
            && forall k :: k in db && (forall t :: t in ts ==> t.key != k) ==> f[k] == db[k]
    decreases |ts|
  {
    if ts != [] {
      FirstLoadSettles(db, ts[0], ts[0].rows, chunkSize);
      var db' := LoadTable(db, ts[0], chunkSize).value;
      LoadedTable(db', ts[1..], chunkSize);
      TailDiffers(ts);
      assert ts == [ts[0]] + ts[1..];
    }
  }

  lemma TailDiffers(ts: seq<Artifact>)
    requires DistinctTables(ts) && ts != []
    ensures DistinctTables(ts[1..]) && forall t :: t in ts[1..] ==> t.key != ts[0].key
  {
    forall t | t in ts[1..] ensures t.key != ts[0].key {
      var j :| 0 <= j < |ts[1..]| && ts[1..][j] == t;
      assert ts[j + 1] == t;
    }
  }

  lemma UpsertAllIsIdempotent(shape: Shape, rel: Relation, rows: seq<Row>)
    ensures var once := UpsertAll(shape, rel, rows);
            UpsertAll(shape, once, rows) == once
  {
    UpsertAllIsOverlay(shape, rel, rows);
    UpsertAllIsOverlay(shape, UpsertAll(shape, rel, rows), rows);
  }

  ghost predicate DistinctBatches(rows: seq<Row>, chunkSize: int)
    decreases |rows|
  {
    rows == [] || (DistinctKeys(rows[..Take(rows, chunkSize)]) && DistinctBatches(rows[Take(rows, chunkSize)..], chunkSize))
  }

  /** What a finished table leaves in database f: a second load of it succeeds and changes nothing. */
  ghost predicate Settled(f: Database, t: Artifact, rows: seq<Row>, chunkSize: int) {
    && t.key in f
    && KeysOfRows(rows) <= f[t.key].Keys
    && (t.shape.WithData? ==> DistinctBatches(rows, chunkSize) && forall row :: row in rows ==> RefsResolve(f, row))
  }

  ghost predicate Finished(f: Database, t: Artifact, chunkSize: int) {
    && Settled(f, t, t.rows, chunkSize)
    && !t.shape.NoPrimaryKey?
    && UpsertAll(t.shape, f[t.key], t.rows) == f[t.key]
  }

  lemma GrowthKeepsSettled(db: Database, f: Database, t: Artifact, rows: seq<Row>, chunkSize: int)
    requires Settled(db, t, rows, chunkSize) && Grows(db, f)
    ensures Settled(f, t, rows, chunkSize)
  {
    if t.shape.WithData? {
      forall row, ref | row in rows && ref in row.refs ensures Resolves(f, ref) {
        assert RefsResolve(db, row);
        assert Resolves(db, ref);
      }
    }
  }

  lemma SettledSplits(f: Database, t: Artifact, rows: seq<Row>, n: nat, chunkSize: int)
    requires n == Take(rows, chunkSize) && rows != []
    requires Settled(f, t, rows[n..], chunkSize) && KeysOfRows(rows[..n]) <= f[t.key].Keys
    requires t.shape.WithData? ==> DistinctKeys(rows[..n]) && forall row :: row in rows[..n] ==> RefsResolve(f, row)
    ensures Settled(f, t, rows, chunkSize)
  {
    forall row | row in rows ensures row in rows[..n] || row in rows[n..] {
      assert rows == rows[..n] + rows[n..];
    }
  }

  lemma {:induction false} FirstLoadSettles(db: Database, t: Artifact, rows: seq<Row>, chunkSize: int)
    requires t.key in db && !t.shape.NoPrimaryKey? && LoadRows(db, t, rows, chunkSize).Done?
    ensures var f := LoadRows(db, t, rows, chunkSize).value;
            && f == db[t.key := UpsertAll(t.shape, db[t.key], rows)]
            && Grows(db, f) && Settled(f, t, rows, chunkSize)
    decreases |rows|
  {
    UpsertAllKeys(t.shape, db[t.key], rows);
    if rows == [] {
      assert db[t.key := db[t.key]] == db;
    } else {
      var n := Take(rows, chunkSize);
      var batch, rest := rows[..n], rows[n..];
      var db' := AfterBatch(db, t, batch);
      UpsertAllKeys(t.shape, db[t.key], batch);
      FirstLoadSettles(db', t, rest, chunkSize);
      UpsertAllSplits(t.shape, db[t.key], batch, rest);
      assert rows == batch + rest;
      var f := LoadRows(db, t, rows, chunkSize).value;
      forall row | row in batch && t.shape.WithData? ensures RefsResolve(f, row) {
        assert RefsResolve(db', row);
        forall ref | ref in row.refs ensures Resolves(f, ref) { assert Resolves(db', ref); }
      }
      SettledSplits(f, t, rows, n, chunkSize);
    }
  }

  lemma {:induction false} SettledRowsReload(d: Database, t: Artifact, rows: seq<Row>, chunkSize: int)
    requires Settled(d, t, rows, chunkSize) && !t.shape.NoPrimaryKey?
    ensures LoadRows(d, t, rows, chunkSize) == Done(d[t.key := UpsertAll(t.shape, d[t.key], rows)])
    decreases |rows|
  {
    if rows == [] {
      assert d[t.key := d[t.key]] == d;
    } else {
      var n := Take(rows, chunkSize);
      var batch, rest := rows[..n], rows[n..];
      assert rows == batch + rest;
      var d' := AfterBatch(d, t, batch);
      UpsertAllKeys(t.shape, d[t.key], batch);
      assert KeysOfRows(rows) == KeysOfRows(batch) + KeysOfRows(rest);
      assert Settled(d, t, rest, chunkSize);
      GrowthKeepsSettled(d, d', t, rest, chunkSize);
      forall row | row in batch && Written(t.shape, d[t.key], row) ensures RefsResolve(d', row) {
        assert row.pk in KeysOfRows(batch);
        assert RefsResolve(d, row);
        forall ref | ref in row.refs ensures Resolves(d', ref) { assert Resolves(d, ref); }
      }
      SettledRowsReload(d', t, rest, chunkSize);
      UpsertAllSplits(t.shape, d[t.key], batch, rest);
      var own := UpsertAll(t.shape, d'[t.key], rest);
      assert d'[t.key := own] == d[t.key := own];
    }
  }

  lemma {:induction false} LoadAllSettles(db: Database, ts: seq<Artifact>, chunkSize: int)
    requires DistinctTables(ts) && LoadAll(db, ts, chunkSize).Done?
    ensures var f := LoadAll(db, ts, chunkSize).value;
            && Grows(db, f)
            && (forall k :: k in db && (forall t :: t in ts ==> t.key != k) ==> f[k] == db[k])
            && forall t :: t in ts ==> Finished(f, t, chunkSize)
    decreases |ts|
  {
    if ts != [] {
      var t, rest := ts[0], ts[1..];
      FirstLoadSettles(db, t, t.rows, chunkSize);
      var db' := LoadTable(db, t, chunkSize).value;
      LoadAllSettles(db', rest, chunkSize);
      var f := LoadAll(db, ts, chunkSize).value;
      GrowthKeepsSettled(db', f, t, t.rows, chunkSize);
      assert f[t.key] == db'[t.key];
      UpsertAllIsIdempotent(t.shape, db[t.key], t.rows);
      assert ts == [t] + rest;
    }
  }

  lemma {:induction false} SettledTablesReload(f: Database, ts: seq<Artifact>, chunkSize: int)
    requires forall t :: t in ts ==> Finished(f, t, chunkSize)
    ensures LoadAll(f, ts, chunkSize) == Done(f)
    decreases |ts|
  {
    if ts != [] {
      assert ts[0] in ts;
      SettledRowsReload(f, ts[0], ts[0].rows, chunkSize);
      assert f[ts[0].key := f[ts[0].key]] == f;
      SettledTablesReload(f, ts[1..], chunkSize);
    }
  }

  /** Loading the same artifact again succeeds and leaves the database as it is, in any table order, with
      repeated keys across batches and with cycles. */
  lemma SecondRunChangesNothing(db: Database, ts: seq<Artifact>, chunkSize: int)
    requires DistinctTables(ts) && LoadAll(db, ts, chunkSize).Done?
    ensures LoadAll(LoadAll(db, ts, chunkSize).value, ts, chunkSize) == LoadAll(db, ts, chunkSize)
  {
    LoadAllSettles(db, ts, chunkSize);
    SettledTablesReload(LoadAll(db, ts, chunkSize).value, ts, chunkSize);
  }

  /** The sort ignores self-references, so a file must order them itself: a row whose parent comes in a later
      batch fails, although the two rows load together. */
  lemma SelfReferenceNeedsItsParentByTheEndOfTheBatch()
    ensures var k := Key("public.node");
            var child := Row(PrimaryKey("child"), Cells(""), {Ref(k, PrimaryKey("parent"))});
            var parent := Row(PrimaryKey("parent"), Cells(""), {});
            var t := Artifact(k, WithData, [child, parent]);
            && LoadAll(map[k := map[]], [t], 1) == Failed(DanglingReference)
            && LoadAll(map[k := map[]], [t], 2).Done?
  {
    var k := Key("public.node");
    var ref := Ref(k, PrimaryKey("parent"));
    var child := Row(PrimaryKey("child"), Cells(""), {ref});
    var parent := Row(PrimaryKey("parent"), Cells(""), {});
    var t := Artifact(k, WithData, [child, parent]);
    var db: Database := map[k := map[]];
    assert t.rows[..1] == [child] && t.rows[..2] == [child, parent] && t.rows[2..] == [];
    UpsertAllKeys(WithData, map[], [child]);
    UpsertAllKeys(WithData, map[], [child, parent]);
    assert ref in child.refs && !Resolves(AfterBatch(db, t, [child]), ref);
    assert !RefsResolve(AfterBatch(db, t, [child]), child) && child in [child];
    assert [parent][0] in [child, parent];
    assert parent.pk in KeysOfRows([child, parent]);
    assert ExecuteUpsertBatch(db, t, [child, parent]).Done?;
    assert LoadRows(db, t, t.rows, 2).Done? && [t][1..] == [];
  }
}
