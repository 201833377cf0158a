/** The synchronisation run itself: clear, merge, load, count, then commit or roll back (sync_to_oracle.py). */
module SyncRun {
  import opened Wrappers
  import opened Relational
  import opened OracleSync
  import opened Clearing
  import opened SyncStages

  datatype SyncError = StatementFailed | BadBatchSize | CountMismatch

  /** No statement with these numbers fails. */
  ghost predicate NoFaults(fails: nat -> bool, from: nat, to: nat) {
    forall n :: from <= n < to ==> !fails(n)
  }

  lemma NoStatement(fails: nat -> bool, n: nat)
    ensures NoFaults(fails, n, n)
  {
  }

  lemma OneStatement(fails: nat -> bool, n: nat)
    ensures NoFaults(fails, n, n + 1) <==> !fails(n)
  {
  }

  lemma MoreStatements(fails: nat -> bool, from: nat, mid: nat, to: nat)
    requires from <= mid <= to
    ensures NoFaults(fails, from, to) <==> NoFaults(fails, from, mid) && NoFaults(fails, mid, to)
  {
  }

  // ---------- Batches ----------

  /** `range(0, n, batchSize)` runs forward over everything, is empty for a negative step, and is an error for zero. */
  function InsertedRows(rows: seq<Row>, batchSize: int): seq<Row> {
    if batchSize > 0 then rows else []
  }

  lemma {:induction false} WithRowsJoin(table: Table, def: TableDef, a: seq<Row>, b: seq<Row>)
    requires HasKeys(def, a) && HasKeys(def, b)
    ensures HasKeys(def, a + b) && WithRows(table, def, a + b) == WithRows(WithRows(table, def, a), def, b)
  {
    if b == [] {
      assert a + b == a;
    } else {
      var init := b[..|b| - 1];
      assert (a + b)[..|a + b| - 1] == a + init;
      WithRowsJoin(table, def, a, init);
    }
  }

  /** No two rows share a key, and none is there yet. */
  predicate AreNew(def: TableDef, table: Table, rows: seq<Row>)
    requires HasKeys(def, rows)
  {
    UniqueKeys(def, rows) && forall i :: 0 <= i < |rows| ==> KeyOf(def, rows[i]) !in table
  }

  /** A batch can be inserted after those before it exactly if the references of its rows hold from the start. */
  lemma BatchCanBeInserted(schema: Schema, before: Database, t: nat, rows: seq<Row>, start: nat, end: nat)
    requires ParentsFirst(schema) && t < |schema| == |before| && HasKeys(schema[t], rows)
    requires AreNew(schema[t], before[t], rows)
    requires start <= end <= |rows|
    ensures HasKeys(schema[t], rows[..start]) && HasKeys(schema[t], rows[start..end])
    ensures CanInsert(schema, before[t := WithRows(before[t], schema[t], rows[..start])], t, rows[start..end])
            <==> RowsHold(schema, before, t, rows[start..end])
    ensures WithRows(WithRows(before[t], schema[t], rows[..start]), schema[t], rows[start..end])
            == WithRows(before[t], schema[t], rows[..end])
  {
    var def, db := schema[t], before[t := WithRows(before[t], schema[t], rows[..start])];
    var batch := rows[start..end];
    assert rows[..start] + batch == rows[..end];
    WithRowsJoin(before[t], def, rows[..start], batch);
    BatchIsNew(def, before[t], rows, start, end);
    hide AreNew, WithRows, RowHolds, ParentsFirst;
    forall i | 0 <= i < |batch|
      ensures RowHolds(batch[i], def, db) <==> RowHolds(batch[i], def, before)
    {
      OwnTableDoesNotMatter(schema, before, t, db[t], batch[i]);
    }
  }

  lemma BatchIsNew(def: TableDef, table: Table, rows: seq<Row>, start: nat, end: nat)
    requires HasKeys(def, rows) && AreNew(def, table, rows) && start <= end <= |rows|
    ensures HasKeys(def, rows[..start]) && HasKeys(def, rows[start..end]) && UniqueKeys(def, rows[start..end])
    ensures forall i :: 0 <= i < end - start ==>
              KeyOf(def, rows[start..end][i]) !in WithRows(table, def, rows[..start])
  {
    WithRowsIs(table, def, rows[..start]);
    assert forall i :: 0 <= i < end - start ==> rows[start..end][i] == rows[start + i];
    hide WithRows;
  }

  /** A row's references lead to other tables than its own. */
  lemma OwnTableDoesNotMatter(schema: Schema, before: Database, t: nat, table: Table, row: Row)
    requires ParentsFirst(schema) && t < |schema| == |before|
    ensures RowHolds(row, schema[t], before[t := table]) <==> RowHolds(row, schema[t], before)
  {
    assert forall k :: 0 <= k < |schema[t].foreignKeys| ==>
             (ReferenceHolds(row, schema[t].foreignKeys[k], before[t := table])
              <==> ReferenceHolds(row, schema[t].foreignKeys[k], before));
  }

  lemma RowsHoldTogether(schema: Schema, db: Database, t: nat, rows: seq<Row>, start: nat, end: nat)
    requires t < |schema| && start <= end <= |rows| && RowsHold(schema, db, t, rows[..start])
    ensures RowsHold(schema, db, t, rows[..end]) <==> RowsHold(schema, db, t, rows[start..end])
    ensures !RowsHold(schema, db, t, rows[start..end]) ==> !RowsHold(schema, db, t, rows)
  {
    assert forall i :: start <= i < end ==> rows[..end][i] == rows[start..end][i - start];
    forall i | start <= i < end
      ensures RowHolds(rows[..end][i], schema[t], db) <==> RowHolds(rows[start..end][i - start], schema[t], db)
    {
    }
    if RowsHold(schema, db, t, rows[..end]) {
      forall i | 0 <= i < end - start
        ensures RowHolds(rows[start..end][i], schema[t], db)
      {
        assert rows[start..end][i] == rows[..end][start + i];
      }
    }
    if RowsHold(schema, db, t, rows) {
      forall i | 0 <= i < end - start
        ensures RowHolds(rows[start..end][i], schema[t], db)
      {
        assert rows[start..end][i] == rows[start + i];
      }
    }
  }

  /** The insertion loop: whatever the positive batch size, it ends with all rows exactly if no statement fails and all
      their references hold. A zero batch size is an error even without rows. */
  method InsertInBatches(oracle: OracleConnection, t: nat, rows: seq<Row>, batchSize: int)
    returns (r: Option<SyncError>)
    requires oracle.Valid() && t < |oracle.schema| && HasKeys(oracle.schema[t], rows)
    requires AreNew(oracle.schema[t], oracle.db[t], rows)
    modifies oracle
    ensures oracle.Valid() && oracle.executed >= old(oracle.executed)
    ensures r.None? <==> && batchSize != 0 && NoFaults(oracle.fails, old(oracle.executed), oracle.executed)
                         && (batchSize > 0 ==> RowsHold(oracle.schema, old(oracle.db), t, rows))
    ensures r.Some? ==> r.value != CountMismatch
    ensures r.None? ==> oracle.db == old(oracle.db)[t := WithRows(old(oracle.db)[t], oracle.schema[t],
                                                                  InsertedRows(rows, batchSize))]
  {
    if batchSize == 0 {
      return Some(BadBatchSize);
    }
    ghost var before := oracle.db;
    assert before[t := before[t]] == before;
    if batchSize < 0 {
      return None;
    }
    var start := 0;
    NothingInserted(oracle.schema, before, t, rows);
    hide IsInserted, RowsHold, AreNew, WithRows, ForeignKeysHold, CanInsert, IsSchema, HasKeys, NoFaults;
    NoStatement(oracle.fails, oracle.executed);
    while start < |rows|
      invariant oracle.Valid() && 0 <= start && oracle.executed >= old(oracle.executed)
      invariant NoFaults(oracle.fails, old(oracle.executed), oracle.executed)
      invariant IsInserted(oracle.schema, before, t, rows, if start < |rows| then start else |rows|, oracle.db)
    {
      var end := if start + batchSize < |rows| then start + batchSize else |rows|;
      InsertBatch(oracle.schema, before, t, rows, start, end, oracle.db);
      OneStatement(oracle.fails, oracle.executed);
      MoreStatements(oracle.fails, old(oracle.executed), oracle.executed, oracle.executed + 1);
      var ok := oracle.Insert(t, rows[start..end]);
      if !ok {
        return Some(StatementFailed);
      }
      start := start + batchSize;
    }
    EverythingInserted(oracle.schema, before, t, rows, oracle.db);
    return None;
  }

  /** The first n rows are in, and their references held. */
  ghost predicate IsInserted(schema: Schema, before: Database, t: nat, rows: seq<Row>, n: nat, db: Database) {
    && t < |schema| == |before| && n <= |rows| && HasKeys(schema[t], rows[..n])
    && RowsHold(schema, before, t, rows[..n])
    && db == before[t := WithRows(before[t], schema[t], rows[..n])]
  }

  lemma NothingInserted(schema: Schema, before: Database, t: nat, rows: seq<Row>)
    requires t < |schema| == |before|
    ensures IsInserted(schema, before, t, rows, 0, before)
  {
    assert before[t := before[t]] == before;
  }

  lemma EverythingInserted(schema: Schema, before: Database, t: nat, rows: seq<Row>, db: Database)
    requires IsInserted(schema, before, t, rows, |rows|, db)
    ensures HasKeys(schema[t], rows) && RowsHold(schema, before, t, rows)
    ensures db == before[t := WithRows(before[t], schema[t], rows)]
  {
    assert rows[..|rows|] == rows;
  }

  lemma InsertBatch(schema: Schema, before: Database, t: nat, rows: seq<Row>, start: nat, end: nat, db: Database)
    requires ParentsFirst(schema) && t < |schema| == |before| && HasKeys(schema[t], rows)
    requires AreNew(schema[t], before[t], rows) && start <= end <= |rows|
    requires IsInserted(schema, before, t, rows, start, db)
    ensures HasKeys(schema[t], rows[start..end]) && |db| == |schema|
    ensures CanInsert(schema, db, t, rows[start..end]) ==>
              IsInserted(schema, before, t, rows, end, db[t := WithRows(db[t], schema[t], rows[start..end])])
    ensures !CanInsert(schema, db, t, rows[start..end]) ==> !RowsHold(schema, before, t, rows)
  {
    hide RowsHold, AreNew, CanInsert, WithRows;
    BatchCanBeInserted(schema, before, t, rows, start, end);
    RowsHoldTogether(schema, before, t, rows, start, end);
  }

  // ---------- Merging one table ----------

  /** The rows whose key is, or is not, among these. */
  function RowsByPresence(def: TableDef, rows: seq<Row>, keys: set<int>, present: bool): (r: seq<Row>)
    requires HasKeys(def, rows)
    ensures HasKeys(def, r)
  {
    if rows == [] then [] else
      var last := rows[|rows| - 1];
      RowsByPresence(def, rows[..|rows| - 1], keys, present) + (if (KeyOf(def,
                                                                          last) in keys) == present then [last] else [])
  }

  /** The places at, in order, of the rows that r selects: exactly those whose key is, or is not, among the keys. */
  ghost predicate IsSelection(def: TableDef, rows: seq<Row>, keys: set<int>, present: bool, r: seq<Row>, at: seq<nat>)
    requires HasKeys(def, rows)
  {
    && |at| == |r|
    && (forall i :: 0 <= i < |at| ==> at[i] < |rows| && r[i] == rows[at[i]] && (KeyOf(def, r[i]) in keys) == present)
    && (forall i, j :: 0 <= i < j < |at| ==> at[i] < at[j])
    && (forall k :: 0 <= k < |rows| && (KeyOf(def, rows[k]) in keys) == present ==> k in at)
  }

  lemma SelectionWithLast(def: TableDef, rows: seq<Row>, keys: set<int>, present: bool, r: seq<Row>, at: seq<nat>)
    requires HasKeys(def, rows) && rows != []
    requires var n := |rows| - 1;
      IsSelection(def, rows[..n], keys, present, r, at) && (KeyOf(def, rows[n]) in keys) == present
    ensures IsSelection(def, rows, keys, present, r + [rows[|rows| - 1]], at + [|rows| - 1])
  {
    var n := |rows| - 1;
    var longer := at + [n];
    assert longer[|at|] == n;
    forall k | 0 <= k < |rows| && (KeyOf(def, rows[k]) in keys) == present
      ensures k in longer
    {
      if k < n {
        assert rows[..n][k] == rows[k];
        assert k in at;
      }
    }
  }

  lemma SelectionWithoutLast(def: TableDef, rows: seq<Row>, keys: set<int>, present: bool, r: seq<Row>, at: seq<nat>)
    requires HasKeys(def, rows) && rows != []
    requires var n := |rows| - 1;
      IsSelection(def, rows[..n], keys, present, r, at) && (KeyOf(def, rows[n]) in keys) != present
    ensures IsSelection(def, rows, keys, present, r, at)
  {
    forall k | 0 <= k < |rows| && (KeyOf(def, rows[k]) in keys) == present
      ensures k in at
    {
      assert rows[..|rows| - 1][k] == rows[k];
    }
  }

  /** Row i of the selection is row at[i] of the table, in the same order. */
  lemma {:induction false} RowsByPresenceAre(def: TableDef, rows: seq<Row>, keys: set<int>,
                                             present: bool) returns (at: seq<nat>)
    requires HasKeys(def, rows)
    ensures IsSelection(def, rows, keys, present, RowsByPresence(def, rows, keys, present), at)
  {
    at := [];
    if rows != [] {
      var n := |rows| - 1;
      at := RowsByPresenceAre(def, rows[..n], keys, present);
      hide IsSelection;
      var init := RowsByPresence(def, rows[..n], keys, present);
      if (KeyOf(def, rows[n]) in keys) == present {
        SelectionWithLast(def, rows, keys, present, init, at);
        at := at + [n];
        assert RowsByPresence(def, rows, keys, present) == init + [rows[n]];
      } else {
        SelectionWithoutLast(def, rows, keys, present, init, at);
        assert RowsByPresence(def, rows, keys, present) == init;
      }
    }
  }

  lemma SelectionIsKeyed(def: TableDef, rows: seq<Row>, keys: set<int>, present: bool)
    requires HasKeys(def, rows) && UniqueKeys(def, rows)
    ensures var r := RowsByPresence(def, rows, keys, present);
      && UniqueKeys(def, r)
      && (forall i :: 0 <= i < |r| ==> (KeyOf(def, r[i]) in keys) == present && r[i] in rows)
      && (forall k :: 0 <= k < |rows| && (KeyOf(def, rows[k]) in keys) == present ==> rows[k] in r)
  {
    var at := RowsByPresenceAre(def, rows, keys, present);
    var r := RowsByPresence(def, rows, keys, present);
    forall k | 0 <= k < |rows| && (KeyOf(def, rows[k]) in keys) == present
      ensures rows[k] in r
    {
      var i :| 0 <= i < |at| && at[i] == k;
      assert r[i] == rows[k];
    }
  }

  /** A row that was put in is found under its key. */
  lemma RowIsFound(table: Table, def: TableDef, rows: seq<Row>, row: Row)
    requires HasKeys(def, rows) && UniqueKeys(def, rows) && row in rows
    ensures KeyOf(def, row) in WithRows(table, def, rows) && WithRows(table, def, rows)[KeyOf(def, row)] == row
  {
    WithRowsIs(table, def, rows);
    var i :| 0 <= i < |rows| && rows[i] == row;
    assert IsKeyOf(def, rows, KeyOf(def, row));
  }

  /** Inserting what is missing and updating what is there leaves the source's rows and those that are to leave. */
  lemma UpsertContent(def: TableDef, rows: seq<Row>, before: Table, batchSize: int, pk: int)
    requires HasKeys(def, rows) && UniqueKeys(def, rows)
    ensures var inserted := InsertedRows(RowsByPresence(def, rows, before.Keys, false), batchSize);
      var after := WithRows(WithRows(before, def, inserted), def, RowsByPresence(def, rows, before.Keys, true));
      var copy := WithRows(map[], def, rows);
      && (pk in after <==> pk in before || (pk in copy && batchSize > 0))
      && (pk in copy && pk in after ==> after[pk] == copy[pk])
  {
    hide WithRows, RowsByPresence;
    var missing, known := RowsByPresence(def, rows, before.Keys, false), RowsByPresence(def, rows, before.Keys, true);
    var inserted := InsertedRows(missing, batchSize);
    SelectionIsKeyed(def, rows, before.Keys, false);
    SelectionIsKeyed(def, rows, before.Keys, true);
    var middle, copy := WithRows(before, def, inserted), WithRows(map[], def, rows);
    WithRowsIs(before, def, inserted);
    WithRowsIs(middle, def, known);
    WithRowsIs(map[], def, rows);
    if pk in copy {
      var k :| 0 <= k < |rows| && KeyOf(def, rows[k]) == pk;
      RowIsFound(map[], def, rows, rows[k]);
      if pk in before {
        RowIsFound(middle, def, known, rows[k]);
      } else {
        assert !IsKeyOf(def, known, pk);
        if batchSize > 0 {
          RowIsFound(before, def, inserted, rows[k]);
        }
      }
    } else {
      assert forall i :: 0 <= i < |missing| ==> missing[i] in rows;
      assert forall i :: 0 <= i < |known| ==> known[i] in rows;
    }
  }

  /** Merged tables have no foreign keys, so their rows always hold. */
  lemma MergeCanWrite(schema: Schema, tables: seq<nat>, source: Source, before: Database, batchSize: int,
                      merged: set<nat>, t: nat, db: Database)
    requires MergesStandAlone(schema) && IsMerged(schema, tables, t) && t !in merged
    requires AtStage(schema, tables, source, before, batchSize, merged, {}, db)
    ensures KeyedSource(schema, source) && |source| == |schema| == |before| == |db|
    ensures db[t] == before[t] && KeyedRows(schema[t], source[t]) && schema[t].foreignKeys == []
  {
    MergedHasNoKeys(schema, t);
    assert KeyedRows(schema[t], source[t]);
  }

  /** What a table without foreign keys holds after its missing rows are inserted and its known ones updated. */
  function Upserted(def: TableDef, rows: seq<Row>, before: Table, batchSize: int): Table
    requires HasKeys(def, rows)
  {
    WithRows(WithRows(before, def, InsertedRows(RowsByPresence(def, rows, before.Keys, false), batchSize)),
             def, RowsByPresence(def, rows, before.Keys, true))
  }

  /** The inserts and updates of a merge. */
  method UpsertRows(oracle: OracleConnection, t: nat, rows: seq<Row>, batchSize: int) returns (r: Option<SyncError>)
    requires oracle.Valid() && t < |oracle.schema| && oracle.schema[t].foreignKeys == []
    requires HasKeys(oracle.schema[t], rows) && UniqueKeys(oracle.schema[t], rows)
    modifies oracle
    ensures oracle.Valid() && oracle.executed >= old(oracle.executed)
    ensures r.None? <==> batchSize != 0 && NoFaults(oracle.fails, old(oracle.executed), oracle.executed)
    ensures r.Some? ==> r.value != CountMismatch
    ensures r.None? ==> oracle.db == old(oracle.db)[t := Upserted(oracle.schema[t], rows, old(oracle.db)[t], batchSize)]
  {
    hide RowsByPresence, WithRows, TableHolds;
    var def := oracle.schema[t];
    assert forall batch :: RowsHold(oracle.schema, oracle.db, t, batch);
    var oracleKeys := oracle.db[t].Keys;
    var toInsert := RowsByPresence(def, rows, oracleKeys, false);
    var toUpdate := RowsByPresence(def, rows, oracleKeys, true);
    SelectionIsKeyed(def, rows, oracleKeys, false);
    UpdateKeysPresent(def, rows, oracleKeys, oracle.db[t], InsertedRows(toInsert, batchSize));
    r := InsertInBatches(oracle, t, toInsert, batchSize);
    if r.None? {
      EmptyUpdate(oracle.db[t], def, toUpdate);
      if toUpdate != [] {
        var ok := oracle.Update(t, toUpdate);
        if !ok {
          return Some(StatementFailed);
        }
      }
    }
  }

  lemma UpsertIsMidMerge(schema: Schema, tables: seq<nat>, source: Source, before: Database, batchSize: int,
                         merged: set<nat>, t: nat, db: Database, after: Table)
    requires MergesStandAlone(schema) && IsMerged(schema, tables, t) && t !in merged
    requires AtStage(schema, tables, source, before, batchSize, merged, {}, db) && KeyedRows(schema[t], source[t])
    requires after == Upserted(schema[t], TransformedRows(schema[t].name, source[t]), before[t], batchSize)
    ensures MidMerge(schema, tables, source, before, batchSize, merged, t, db[t := after])
  {
    hide RowsByPresence, WithRows, TransformedRows;
    var rows := TransformedRows(schema[t].name, source[t]);
    forall pk
      ensures pk in after <==> pk in before[t] || (pk in Copy(schema[t], source[t]) && batchSize > 0)
      ensures pk in Copy(schema[t], source[t]) && pk in after ==> after[pk] == Copy(schema[t], source[t])[pk]
    {
      UpsertContent(schema[t], rows, before[t], batchSize, pk);
    }
  }

  /** Merges one table: insert the missing rows, update the known ones, delete those that the source no longer has. */
  method UpsertTable(source: Source, oracle: OracleConnection, tables: seq<nat>, t: nat, batchSize: int,
                     ghost before: Database, ghost merged: set<nat>)
    returns (r: Result<nat, SyncError>)
    requires oracle.Valid() && MergesStandAlone(oracle.schema) && IsMerged(oracle.schema, tables, t) && t !in merged
    requires AtStage(oracle.schema, tables, source, before, batchSize, merged, {}, oracle.db)
    modifies oracle
    ensures oracle.Valid() && oracle.executed >= old(oracle.executed)
    ensures r.Ok? <==> && batchSize != 0 && NoFaults(oracle.fails, old(oracle.executed), oracle.executed)
                       && !IsRestrictedBy(oracle.schema, tables, source, before, {t})
    ensures r.Err? ==> r.error != CountMismatch
    ensures r.Ok? ==> r.value == |source[t]| && AtStage(oracle.schema, tables, source, before, batchSize,
                                                        merged + {t}, {}, oracle.db)
  {
    hide AtStage, MidMerge, MergesStandAlone, IsRestrictedBy, Upserted, KeyedSource, KeyedRows, TableHolds, IsSchema;
    hide NoFaults;
    MergeCanWrite(oracle.schema, tables, source, before, batchSize, merged, t, oracle.db);
    var def := oracle.schema[t];
    var read := ReadKeys(oracle);
    if !read {
      return Err(StatementFailed);
    }
    RowsAreKeyed(def, source[t]);
    var rows := TransformedRows(def.name, source[t]);
    var toDelete := oracle.db[t].Keys - (set i | 0 <= i < |rows| :: KeyOf(def, rows[i]));
    LeavingIs(oracle.schema, source, before, t, set i | 0 <= i < |rows| :: KeyOf(def, rows[i]));
    ghost var stage, begun := oracle.db, oracle.executed;
    var failed := UpsertRows(oracle, t, rows, batchSize);
    ghost var written := oracle.executed;
    MoreStatements(oracle.fails, old(oracle.executed), begun, written);
    if failed.Some? {
      return Err(failed.value);
    }
    UpsertIsMidMerge(oracle.schema, tables, source, before, batchSize, merged, t, stage, oracle.db[t]);
    r := DeleteLeaving(source, oracle, tables, t, batchSize, before, merged, toDelete, |rows|);
    MoreStatements(oracle.fails, old(oracle.executed), written, oracle.executed);
  }

  /** Reads the rows on one side and the keys on the other. */
  method ReadKeys(oracle: OracleConnection) returns (ok: bool)
    requires oracle.Valid()
    modifies oracle`executed
    ensures oracle.Valid() && oracle.executed > old(oracle.executed)
    ensures ok <==> NoFaults(oracle.fails, old(oracle.executed), oracle.executed)
  {
    hide IsSchema, ForeignKeysHold;
    ok := oracle.Query();
    if ok {
      ok := oracle.Query();
    }
  }

  lemma RowsAreKeyed(def: TableDef, rows: seq<Row>)
    requires KeyedRows(def, rows)
    ensures HasKeys(def, TransformedRows(def.name, rows)) && UniqueKeys(def, TransformedRows(def.name, rows))
  {
  }

  /** The deletion that ends a merge. */
  method DeleteLeaving(source: Source, oracle: OracleConnection, tables: seq<nat>, t: nat, batchSize: int,
                       ghost before: Database, ghost merged: set<nat>, toDelete: set<int>, count: nat)
    returns (r: Result<nat, SyncError>)
    requires oracle.Valid() && MergesStandAlone(oracle.schema) && t < |oracle.schema| == |oracle.db| == |before|
    requires KeyedSource(oracle.schema, source)
    requires MidMerge(oracle.schema, tables, source, before, batchSize, merged, t, oracle.db)
    requires toDelete == Leaving(oracle.schema, source, before, t)
    modifies oracle
    ensures oracle.Valid() && oracle.executed >= old(oracle.executed)
    ensures r.Ok? <==> && NoFaults(oracle.fails, old(oracle.executed), oracle.executed)
                       && !IsRestrictedBy(oracle.schema, tables, source, before, {t})
    ensures r.Err? ==> r.error != CountMismatch
    ensures r.Ok? ==> r.value == count && AtStage(oracle.schema, tables, source, before, batchSize, merged + {t}, {},
                                                  oracle.db)
  {
    hide AtStage, MidMerge, MergesStandAlone, IsRestrictedBy, IsBlocked, AllDoomed, Only, Leaving, AfterDelete;
    hide ForeignKeysHold, IsSchema;
    MergeCompletes(oracle.schema, tables, source, before, batchSize, merged, t, oracle.db);
    MergeBlockedExactly(oracle.schema, tables, source, before, batchSize, merged, t, oracle.db);
    if toDelete != {} {
      var ok := oracle.Delete(t, toDelete);
      if !ok {
        return Err(StatementFailed);
      }
    } else {
      MergeWithoutDeletion(oracle.schema, tables, source, before, batchSize, merged, t, oracle.db);
    }
    return Ok(count);
  }

  lemma EmptyUpdate(table: Table, def: TableDef, rows: seq<Row>)
    requires HasKeys(def, rows)
    ensures rows == [] ==> WithRows(table, def, rows) == table
  {
  }

  lemma UpdateKeysPresent(def: TableDef, rows: seq<Row>, keys: set<int>, table: Table, inserted: seq<Row>)
    requires HasKeys(def, rows) && UniqueKeys(def, rows) && keys == table.Keys && HasKeys(def, inserted)
    ensures forall i :: 0 <= i < |RowsByPresence(def, rows, keys, true)| ==>
              KeyOf(def, RowsByPresence(def, rows, keys, true)[i]) in WithRows(table, def, inserted)
  {
    SelectionIsKeyed(def, rows, keys, true);
    WithRowsIs(table, def, inserted);
  }

  lemma LeavingIs(schema: Schema, source: Source, before: Database, t: nat, sourceKeys: set<int>)
    requires KeyedSource(schema, source) && |before| == |schema| && t < |schema| && KeyedRows(schema[t], source[t])
    requires var rows := TransformedRows(schema[t].name, source[t]);
      sourceKeys == set i | 0 <= i < |rows| :: KeyOf(schema[t], rows[i])
    ensures Leaving(schema, source, before, t) == before[t].Keys - sourceKeys
  {
    var rows := TransformedRows(schema[t].name, source[t]);
    WithRowsIs(map[], schema[t], rows);
    assert forall pk :: pk in Copy(schema[t], source[t]) <==> IsKeyOf(schema[t], rows, pk);
    assert forall pk :: pk in sourceKeys <==> IsKeyOf(schema[t], rows, pk);
    assert forall pk :: pk in Leaving(schema, source, before, t) <==> pk in before[t].Keys - sourceKeys;
  }

  // ---------- Loading one table ----------

  /** Every table's rows have distinct keys and foreign keys that hold within the source. */
  ghost predicate IsConsistent(schema: Schema, source: Source) {
    |source| == |schema| && HaveUniqueKeys(schema, source) && ReferencesHoldInSource(schema, source)
  }

  ghost predicate HaveUniqueKeys(schema: Schema, source: Source)
    requires |source| == |schema|
  {
    forall t :: 0 <= t < |schema| ==> HasKeys(schema[t], source[t]) && UniqueKeys(schema[t], source[t])
  }

  ghost predicate ReferencesHoldInSource(schema: Schema, source: Source)
    requires |source| == |schema|
  {
    forall t, i :: 0 <= t < |schema| && 0 <= i < |source[t]| ==> RowHoldsInSource(schema, source, t, i)
  }

  /** Each foreign key of the row names a row of the parent's list, or is null where it may be. */
  predicate RowHoldsInSource(schema: Schema, source: Source, t: nat, i: nat)
    requires t < |schema| == |source| && i < |source[t]|
  {
    forall k :: 0 <= k < |schema[t].foreignKeys| ==>
        KeyHoldsInSource(schema, source, source[t][i], schema[t].foreignKeys[k])
  }

  predicate KeyHoldsInSource(schema: Schema, source: Source, row: Row, fk: ForeignKey)
    requires |schema| == |source|
  {
    && fk.parent < |schema| && fk.column in row
    && (|| (row[fk.column].Null? && fk.nullable)
        || (row[fk.column].Int? && Names(schema[fk.parent], source[fk.parent], row[fk.column].n)))
  }

  predicate Names(def: TableDef, rows: seq<Row>, pk: int) {
    exists i :: 0 <= i < |rows| && HasKey(def, rows[i]) && KeyOf(def, rows[i]) == pk
  }

  lemma ConsistentSourceIsKeyed(schema: Schema, source: Source)
    requires IsConsistent(schema, source)
    ensures KeyedSource(schema, source)
  {
    forall t | 0 <= t < |schema|
      ensures KeyedRows(schema[t], source[t])
    {
      var rows := TransformedRows(schema[t].name, source[t]);
      assert forall i :: 0 <= i < |rows| ==>
               HasKey(schema[t], source[t][i]) && rows[i][schema[t].primaryKey] == source[t][i][schema[t].primaryKey];
    }
  }

  lemma CopyNames(def: TableDef, rows: seq<Row>, pk: int)
    requires KeyedRows(def, rows) && HasKeys(def, rows)
    ensures pk in Copy(def, rows) <==> Names(def, rows, pk)
    ensures |Copy(def, rows)| == |rows|
  {
    var transformed := TransformedRows(def.name, rows);
    WithRowsIs(map[], def, transformed);
    CountWithRows(def, transformed);
    assert forall i :: 0 <= i < |rows| ==> HasKey(def, rows[i]) && KeyOf(def, transformed[i]) == KeyOf(def, rows[i]);
  }

  lemma {:induction false} CountWithRows(def: TableDef, rows: seq<Row>)
    requires HasKeys(def, rows) && UniqueKeys(def, rows)
    ensures |WithRows(map[], def, rows)| == |rows|
  {
    if rows != [] {
      var init := rows[..|rows| - 1];
      CountWithRows(def, init);
      WithRowsIs(map[], def, init);
      assert !IsKeyOf(def, init, KeyOf(def, rows[|rows| - 1]));
    }
  }

  /** Each reference of the row into a table that is left out finds its row there, and the clearing leaves it. */
  predicate ReferencesAreLeft(schema: Schema, tables: seq<nat>, before: Database, def: TableDef, row: Row)
    requires |before| == |schema|
  {
    forall k :: 0 <= k < |def.foreignKeys| && def.foreignKeys[k].parent !in tables ==>
        ReferenceIsLeft(schema, tables, before, row, def.foreignKeys[k])
  }

  predicate ReferenceIsLeft(schema: Schema, tables: seq<nat>, before: Database, row: Row, fk: ForeignKey)
    requires |before| == |schema|
  {
    fk.parent < |schema| && fk.column in row && row[fk.column].Int? ==>
      row[fk.column].n in before[fk.parent] && row[fk.column].n !in Lost(schema, tables, before, 0)[fk.parent]
  }

  predicate TableReferencesAreLeft(schema: Schema, tables: seq<nat>, source: Source, before: Database, t: nat)
    requires |before| == |schema| && t < |schema| && t < |source|
  {
    forall i :: 0 <= i < |source[t]| ==> ReferencesAreLeft(schema, tables, before, schema[t], source[t][i])
  }

  /** With its synchronised parents copied, a row of the source holds in Oracle exactly if its references into tables
      left out are left. */
  lemma CopiedRowHolds(schema: Schema, tables: seq<nat>, source: Source, before: Database, db: Database, t: nat, i: nat)
    requires IsSchema(schema) && IsConsistent(schema, source) && KeyedSource(schema, source)
    requires |db| == |before| == |schema| && t < |schema| && i < |source[t]|
    requires forall p: nat :: p < t ==>
               if p in tables then db[p] == Copy(schema[p], source[p])
               else db[p].Keys == before[p].Keys - Lost(schema, tables, before, 0)[p]
    ensures RowHolds(Transformed(schema[t].name, source[t][i]), schema[t], db)
            <==> ReferencesAreLeft(schema, tables, before, schema[t], source[t][i])
  {
    hide Copy, KeyedSource, Lost;
    var row := source[t][i];
    assert RowHoldsInSource(schema, source, t, i);
    forall k | 0 <= k < |schema[t].foreignKeys|
      ensures var fk := schema[t].foreignKeys[k];
              ReferenceHolds(Transformed(schema[t].name, row), fk, db)
              <==> fk.parent in tables || ReferenceIsLeft(schema, tables, before, row, fk)
    {
      var fk := schema[t].foreignKeys[k];
      assert KeyHoldsInSource(schema, source, row, fk);
      if row[fk.column].Int? && fk.parent in tables {
        KeyedTable(schema, source, fk.parent);
        CopyNames(schema[fk.parent], source[fk.parent], row[fk.column].n);
      }
      assert fk.parent !in tables ==>
          (row[fk.column].Int? ==> (row[fk.column].n in db[fk.parent] <==> row[fk.column].n in db[fk.parent].Keys));
    }
  }

  lemma KeyedTable(schema: Schema, source: Source, t: nat)
    requires KeyedSource(schema, source) && t < |schema|
    ensures KeyedRows(schema[t], source[t])
  {
  }

  lemma LoadHolds(schema: Schema, tables: seq<nat>, source: Source, before: Database, batchSize: int,
                  merged: set<nat>, loaded: set<nat>, t: nat, db: Database)
    requires IsSchema(schema) && IsConsistent(schema, source)
    requires AtStage(schema, tables, source, before, batchSize, merged, loaded, db) && batchSize > 0
    requires IsReloaded(schema, tables, t) && t !in loaded
    requires forall u: nat :: u < t && IsReloaded(schema, tables, u) ==> u in loaded
    requires merged == MergedTables(schema, tables)
    ensures RowsHold(schema, db, t, TransformedRows(schema[t].name, source[t]))
            <==> TableReferencesAreLeft(schema, tables, source, before, t)
  {
    hide Copy, Transformed, RowHolds, ReferencesAreLeft, Lost, NulledRow;
    var rows := TransformedRows(schema[t].name, source[t]);
    forall p: nat | p < t
      ensures if p in tables then db[p] == Copy(schema[p], source[p])
              else db[p].Keys == before[p].Keys - Lost(schema, tables, before, 0)[p]
    {
      assert p in tables && IsUpsert(schema[p]) ==> IsMerged(schema, tables, p);
      assert p in tables && !IsUpsert(schema[p]) ==> IsReloaded(schema, tables, p);
      if p !in tables {
        LeftKeys(schema, tables, source, before, merged, p);
      }
    }
    forall i | 0 <= i < |rows|
      ensures RowHolds(rows[i], schema[t], db) <==> ReferencesAreLeft(schema, tables, before, schema[t], source[t][i])
    {
      CopiedRowHolds(schema, tables, source, before, db, t, i);
    }
  }

  lemma LeftKeys(schema: Schema, tables: seq<nat>, source: Source, before: Database, merged: set<nat>, t: nat)
    requires KeyedSource(schema, source) && |before| == |schema| && t < |schema|
    ensures LeftTable(schema, tables, source, before, merged, t).Keys
            == before[t].Keys - Lost(schema, tables, before, 0)[t]
  {
    hide Lost, Copy, NulledRow;
    assert forall pk :: pk in LeftTable(schema, tables, source, before, merged, t)
                        <==> pk in before[t] && pk !in Lost(schema, tables, before, 0)[t];
  }

  lemma LoadAdvances(schema: Schema, tables: seq<nat>, source: Source, before: Database, batchSize: int,
                     merged: set<nat>, loaded: set<nat>, t: nat, db: Database)
    requires AtStage(schema, tables, source, before, batchSize, merged, loaded, db)
    requires IsReloaded(schema, tables, t) && t !in loaded && KeyedRows(schema[t], source[t])
    ensures db[t] == map[]
    ensures batchSize != 0 ==>
              AtStage(schema, tables, source, before, batchSize, merged, loaded + {t},
                      db[t := WithRows(db[t], schema[t], InsertedRows(TransformedRows(schema[t].name, source[t]),
                                                                      batchSize))])
  {
  }

  /** Fills one emptied table. */
  method LoadTable(source: Source, oracle: OracleConnection, tables: seq<nat>, t: nat, batchSize: int,
                   ghost before: Database, ghost merged: set<nat>, ghost loaded: set<nat>)
    returns (r: Result<nat, SyncError>)
    requires oracle.Valid() && IsConsistent(oracle.schema, source)
    requires AtStage(oracle.schema, tables, source, before, batchSize, merged, loaded, oracle.db)
    requires IsReloaded(oracle.schema, tables, t) && t !in loaded
    requires forall u: nat :: u < t && IsReloaded(oracle.schema, tables, u) ==> u in loaded
    requires merged == MergedTables(oracle.schema, tables)
    modifies oracle
    ensures oracle.Valid() && oracle.executed >= old(oracle.executed) && t < |source| && |before| == |oracle.schema|
    ensures r.Ok? <==> && batchSize != 0 && NoFaults(oracle.fails, old(oracle.executed), oracle.executed)
                       && (batchSize > 0 ==> TableReferencesAreLeft(oracle.schema, tables, source, before, t))
    ensures r.Err? ==> r.error != CountMismatch
    ensures r.Ok? ==> r.value == |source[t]|
    ensures r.Ok? ==> AtStage(oracle.schema, tables, source, before, batchSize, merged, loaded + {t}, oracle.db)
  {
    KeyedTable(oracle.schema, source, t);
    assert |source| == |oracle.schema|;
    hide AtStage, IsConsistent, KeyedRows, WithRows, TableHolds, IsSchema, RowsHold, TableReferencesAreLeft;
    var def := oracle.schema[t];
    var selected := oracle.Query();
    if !selected {
      return Err(StatementFailed);
    }
    RowsAreKeyed(def, source[t]);
    var rows := TransformedRows(def.name, source[t]);
    if batchSize > 0 {
      LoadHolds(oracle.schema, tables, source, before, batchSize, merged, loaded, t, oracle.db);
    }
    LoadAdvances(oracle.schema, tables, source, before, batchSize, merged, loaded, t, oracle.db);
    var failed := InsertInBatches(oracle, t, rows, batchSize);
    if failed.Some? {
      return Err(failed.value);
    }
    return Ok(|rows|);
  }
}
