/** What the rows of Oracle hold after a committed synchronisation (sync_to_oracle.py). */
module StoredRows {
  import opened Relational
  import opened OracleSync
  import opened SyncStages
  import opened SyncRun

  /** The row of the source with this key. */
  ghost predicate IsRowOfKey(def: TableDef, row: Row, pk: int) {
    def.primaryKey in row && row[def.primaryKey] == Int(pk)
  }

  /** The table holds the source rows, each once and under its key, and nothing else. */
  ghost predicate HoldsRows(def: TableDef, rows: seq<Row>, table: Table) {
    && |table| == |rows|
    && (forall pk :: pk in table ==> HoldsRow(def, rows, table, pk))
    && (forall i :: 0 <= i < |rows| ==>
          exists pk :: pk in table && IsRowOfKey(def, rows[i], pk) && IsStoredRow(def.name, rows[i], table[pk]))
  }

  ghost predicate HoldsRow(def: TableDef, rows: seq<Row>, table: Table, pk: int)
    requires pk in table
  {
    exists i :: 0 <= i < |rows| && IsRowOfKey(def, rows[i], pk) && IsStoredRow(def.name, rows[i], table[pk])
  }

  /** Every table of the run holds the rows of its source. */
  ghost predicate HoldSource(schema: Schema, tables: seq<nat>, source: Source, db: Database) {
    |source| == |schema| == |db|
    && forall t :: t in tables && t < |schema| ==> HoldsRows(schema[t], source[t], db[t])
  }

  lemma KeyIsStored(def: TableDef, row: Row)
    requires HasKey(def, row)
    ensures var stored := Transformed(def.name, row);
      HasKey(def, stored) && IsRowOfKey(def, row, KeyOf(def, stored))
  {
  }

  /** Row i of the source is what the copy holds under its key. */
  lemma CopyHoldsRow(def: TableDef, rows: seq<Row>, i: nat)
    requires HasKeys(def, rows) && KeyedRows(def, rows) && i < |rows|
    ensures var transformed, copy := TransformedRows(def.name, rows), Copy(def, rows);
      && KeyOf(def, transformed[i]) in copy && copy[KeyOf(def, transformed[i])] == transformed[i]
      && IsRowOfKey(def, rows[i], KeyOf(def, transformed[i])) && IsStoredRow(def.name, rows[i], transformed[i])
  {
    var transformed := TransformedRows(def.name, rows);
    WithRowsIs(map[], def, transformed);
    assert IsKeyOf(def, transformed, KeyOf(def, transformed[i]));
    var j :| 0 <= j < |rows| && KeyOf(def, transformed[j]) == KeyOf(def, transformed[i])
          && Copy(def, rows)[KeyOf(def, transformed[i])] == transformed[j];
    hide TransformedRows, Transformed, WithRows;
    KeyIsStored(def, rows[i]);
    TransformedIsStored(def.name, rows[i]);
  }

  lemma CopyHoldsRows(def: TableDef, rows: seq<Row>)
    requires HasKeys(def, rows) && KeyedRows(def, rows)
    ensures HoldsRows(def, rows, Copy(def, rows))
  {
    var transformed, copy := TransformedRows(def.name, rows), Copy(def, rows);
    hide TransformedRows, Copy, IsStoredRow, IsRowOfKey, HasKeys;
    forall pk | pk in copy
      ensures HoldsRow(def, rows, copy, pk)
    {
      var i := RowOfCopiedKey(def, rows, pk);
      CopyHoldsRow(def, rows, i);
    }
    forall i: nat | i < |rows|
      ensures exists pk :: pk in copy && IsRowOfKey(def, rows[i], pk) && IsStoredRow(def.name, rows[i], copy[pk])
    {
      CopyHoldsRow(def, rows, i);
    }
    CopyNames(def, rows, 0);
  }

  lemma RowOfCopiedKey(def: TableDef, rows: seq<Row>, pk: int) returns (i: nat)
    requires KeyedRows(def, rows) && pk in Copy(def, rows)
    ensures i < |rows| && KeyOf(def, TransformedRows(def.name, rows)[i]) == pk
  {
    var transformed := TransformedRows(def.name, rows);
    WithRowsIs(map[], def, transformed);
    assert IsKeyOf(def, transformed, pk);
    i :| i < |transformed| && KeyOf(def, transformed[i]) == pk;
  }

  /** After a committed run every synchronised table holds the rows of its source. */
  lemma CommittedRowsHold(schema: Schema, tables: seq<nat>, source: Source, before: Database, after: Database)
    requires IsConsistent(schema, source) && KeyedSource(schema, source) && |before| == |schema|
    requires IsSynchronised(schema, tables, source, before, after)
    ensures HoldSource(schema, tables, source, after)
  {
    hide Copy, HoldsRows, LeftTable, ReferencesHoldInSource, UniqueKeys;
    forall t | t in tables && t < |schema|
      ensures HoldsRows(schema[t], source[t], after[t])
    {
      KeyedTable(schema, source, t);
      CopyHoldsRows(schema[t], source[t]);
    }
  }
}
