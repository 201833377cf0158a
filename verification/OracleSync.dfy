/** The one-transaction reload of Oracle from MySQL (sync_to_oracle.py). */
module OracleSync {
  import opened Wrappers
  import opened Clock
  import opened Relational

  // ---------- What is copied ----------

  /** TIME columns, stored in Oracle as text. */
  predicate IsTimeColumn(table: string, column: string) {
    || (table == "train_timetables" && (column == "arrival_time" || column == "departure_time"))
    || (table == "travel_plan_items" && column == "visit_time")
  }

  function TransformedValue(value: Value): Value {
    if value.Time? then Text(ToTimeString(value.time)) else value
  }

  function Transformed(table: string, row: Row): Row {
    map column | column in row :: if IsTimeColumn(table, column) then TransformedValue(row[column]) else row[column]
  }

  /** A source time is stored as the text of its whole seconds, from which the planner reads its minutes; anything else,
      a null too, is stored as it is. */
  ghost predicate IsStoredTime(from: Value, to: Value) {
    if from.Time? then
      to.Text? && forall total :: HasSeconds(from.time, total) ==>
          && IsTimeText(to.text, total)
          && (0 <= total < 3_600_000 ==> ParseClock(Some(to.text)) == Some(total / 60))
    else to == from
  }

  /** The stored row has the source row's columns. Its times of arrival and departure, in the timetables, and of visits,
      in the plan items, are stored times; all other values are the source's. */
  ghost predicate IsStoredRow(table: string, from: Row, to: Row) {
    && to.Keys == from.Keys
    && forall column :: column in from ==>
         if || (table == "train_timetables" && (column == "arrival_time" || column == "departure_time"))
            || (table == "travel_plan_items" && column == "visit_time")
         then IsStoredTime(from[column], to[column])
         else to[column] == from[column]
  }

  lemma TimeIsStored(time: PyTime)
    ensures IsStoredTime(Time(time), Text(ToTimeString(time)))
  {
    forall total | HasSeconds(time, total)
      ensures IsTimeText(ToTimeString(time), total)
      ensures 0 <= total < 3_600_000 ==> ParseClock(Some(ToTimeString(time))) == Some(total / 60)
    {
      ToTimeStringExactly(time, total);
      WholeSecondsAre(time);
      OneWholeSeconds(time, total, WholeSeconds(time));
      hide HasSeconds, WholeSeconds, ParseClock, IsTimeText;
      if total >= 0 {
        PrintsSecondsText(time, total);
        ParseSecondsText(total);
      }
    }
  }

  lemma TransformedIsStored(table: string, row: Row)
    ensures IsStoredRow(table, row, Transformed(table, row))
  {
    hide ToTimeString, IsStoredTime;
    forall column | column in row
      ensures IsTimeColumn(table, column) ==> IsStoredTime(row[column], Transformed(table, row)[column])
    {
      if row[column].Time? {
        TimeIsStored(row[column].time);
      } else {
        OthersAreKept(row[column]);
      }
    }
  }

  lemma OthersAreKept(value: Value)
    requires !value.Time?
    ensures IsStoredTime(value, value)
  {
  }

  method TransformRow(table: string, row: Row) returns (r: Row)
    ensures r == Transformed(table, row) && IsStoredRow(table, row, r)
  {
    TransformedIsStored(table, row);
    hide IsStoredRow;
    r := row;
    var rest := row.Keys;
    while rest != {}
      invariant rest <= row.Keys && r.Keys == row.Keys
      invariant forall c :: c in row ==> r[c] == if c in rest then row[c] else Transformed(table, row)[c]
      decreases |rest|
    {
      var column :| column in rest;
      if IsTimeColumn(table, column) {
        r := r[column := TransformedValue(r[column])];
      }
      rest := rest - {column};
    }
  }

  /** The rows that SELECT returns, table by table. */
  type Source = seq<seq<Row>>

  predicate HasKey(def: TableDef, row: Row) {
    def.primaryKey in row && row[def.primaryKey].Int?
  }

  predicate HasKeys(def: TableDef, rows: seq<Row>) {
    forall i :: 0 <= i < |rows| ==> HasKey(def, rows[i])
  }

  function KeyOf(def: TableDef, row: Row): int
    requires HasKey(def, row)
  {
    row[def.primaryKey].n
  }

  predicate UniqueKeys(def: TableDef, rows: seq<Row>)
    requires HasKeys(def, rows)
  {
    forall i, j :: 0 <= i < j < |rows| ==> KeyOf(def, rows[i]) != KeyOf(def, rows[j])
  }

  /** The table with these rows put in one after the other. */
  function WithRows(table: Table, def: TableDef, rows: seq<Row>): Table
    requires HasKeys(def, rows)
  {
    if rows == [] then table else
      var last := rows[|rows| - 1];
      WithRows(table, def, rows[..|rows| - 1])[KeyOf(def, last) := last]
  }

  function TransformedRows(table: string, rows: seq<Row>): (r: seq<Row>)
    ensures |r| == |rows| && forall i :: 0 <= i < |rows| ==> r[i] == Transformed(table, rows[i])
  {
    if rows == [] then [] else TransformedRows(table, rows[..|rows| - 1]) + [Transformed(table, rows[|rows| - 1])]
  }

  /** The source table as Oracle should hold it. */
  function Copy(def: TableDef, rows: seq<Row>): Table
    requires HasKeys(def, TransformedRows(def.name, rows))
  {
    WithRows(map[], def, TransformedRows(def.name, rows))
  }

  predicate KeyedSource(schema: Schema, source: Source) {
    |source| == |schema| && forall t :: 0 <= t < |schema| ==> KeyedRows(schema[t], source[t])
  }

  predicate KeyedRows(def: TableDef, rows: seq<Row>) {
    && HasKeys(def, TransformedRows(def.name, rows))
    && UniqueKeys(def, TransformedRows(def.name, rows))
  }

  // ---------- What is kept of the rest ----------

  /** Tables that are merged rather than emptied and refilled. */
  predicate IsUpsert(def: TableDef) {
    def.name == "subway_lines" || def.name == "stations"
  }

  /** Positions in schema order of the tables that are not excluded. */
  function TablesFrom(schema: Schema, exclude: set<string>, n: nat): (tables: seq<nat>)
    requires n <= |schema|
    ensures forall t: nat :: t in tables <==> t < n && schema[t].name !in exclude
    ensures forall i :: 0 <= i < |tables| ==> tables[i] < n
    ensures forall i, j :: 0 <= i < j < |tables| ==> tables[i] < tables[j]
  {
    if n == 0 then [] else
      TablesFrom(schema, exclude, n - 1) + (if schema[n - 1].name in exclude then [] else [n - 1])
  }

  function SyncTables(schema: Schema, includeTimetables: bool, exclude: set<string>): seq<nat> {
    TablesFrom(schema, if includeTimetables then exclude else exclude + {"train_timetables"}, |schema|)
  }

  predicate IsMerged(schema: Schema, tables: seq<nat>, t: nat) {
    t < |schema| && t in tables && IsUpsert(schema[t])
  }

  function MergedTables(schema: Schema, tables: seq<nat>): (merged: set<nat>)
    ensures forall t :: t in merged <==> IsMerged(schema, tables, t)
  {
    set t | t in tables && IsMerged(schema, tables, t)
  }

  // ---------- The connection ----------

  class OracleConnection {
    const schema: Schema
    /** Which statements, counted over the session, the server or the network fails. */
    const fails: nat -> bool
    var db: Database
    var executed: nat

    constructor (schema: Schema, db: Database, fails: nat -> bool)
      requires IsSchema(schema) && ForeignKeysHold(schema, db)
      ensures Valid() && this.db == db && executed == 0 && this.schema == schema && this.fails == fails
    {
      this.schema, this.db, this.fails, executed := schema, db, fails, 0;
    }

    ghost predicate Valid()
      reads this
    {
      IsSchema(schema) && ForeignKeysHold(schema, db)
    }

    /** A statement that changes nothing: a SELECT on either side. */
    method Query() returns (ok: bool)
      requires Valid()
      modifies this`executed
      ensures Valid() && executed == old(executed) + 1 && ok == !fails(old(executed))
    {
      ok := !fails(executed);
      executed := executed + 1;
    }

    /** DELETE with the given keys, cascading, nulling and checked for restricting references. */
    method Delete(t: nat, victims: set<int>) returns (ok: bool)
      requires Valid() && t < |schema|
      modifies this
      ensures Valid() && executed == old(executed) + 1
      ensures var doomed := AllDoomed(schema, old(db), Only(|schema|, t, victims));
              && (ok <==> !fails(old(executed)) && !IsBlocked(schema, old(db), doomed))
              && db == if ok then AfterDelete(schema, old(db), doomed) else old(db)
    {
      var doomed := AllDoomed(schema, db, Only(|schema|, t, victims));
      ok := !fails(executed) && !IsBlocked(schema, db, doomed);
      executed := executed + 1;
      if ok {
        DeleteKeepsForeignKeys(schema, db, Only(|schema|, t, victims));
        db := AfterDelete(schema, db, doomed);
      }
    }

    /** INSERT of one batch: fresh distinct keys, and references that hold. */
    method Insert(t: nat, rows: seq<Row>) returns (ok: bool)
      requires Valid() && t < |schema| && HasKeys(schema[t], rows)
      modifies this
      ensures Valid() && executed == old(executed) + 1
      ensures ok <==> !fails(old(executed)) && CanInsert(schema, old(db), t, rows)
      ensures db == if ok then old(db)[t := WithRows(old(db)[t], schema[t], rows)] else old(db)
    {
      ok := !fails(executed) && CanInsert(schema, db, t, rows);
      executed := executed + 1;
      if ok {
        PutKeepsForeignKeys(schema, db, t, rows);
        db := db[t := WithRows(db[t], schema[t], rows)];
      }
    }

    /** UPDATE of the rows with these keys, all of them present. */
    method Update(t: nat, rows: seq<Row>) returns (ok: bool)
      requires Valid() && t < |schema| && HasKeys(schema[t], rows)
      requires forall i :: 0 <= i < |rows| ==> KeyOf(schema[t], rows[i]) in db[t]
      modifies this
      ensures Valid() && executed == old(executed) + 1
      ensures ok <==> !fails(old(executed)) && RowsHold(schema, old(db), t, rows)
      ensures db == if ok then old(db)[t := WithRows(old(db)[t], schema[t], rows)] else old(db)
    {
      ok := !fails(executed) && RowsHold(schema, db, t, rows);
      executed := executed + 1;
      if ok {
        PutKeepsForeignKeys(schema, db, t, rows);
        db := db[t := WithRows(db[t], schema[t], rows)];
      }
    }
  }

  predicate RowsHold(schema: Schema, db: Database, t: nat, rows: seq<Row>)
    requires t < |schema|
  {
    forall i :: 0 <= i < |rows| ==> RowHolds(rows[i], schema[t], db)
  }

  predicate CanInsert(schema: Schema, db: Database, t: nat, rows: seq<Row>)
    requires t < |schema| == |db| && HasKeys(schema[t], rows)
  {
    && UniqueKeys(schema[t], rows)
    && (forall i :: 0 <= i < |rows| ==> KeyOf(schema[t], rows[i]) !in db[t])
    && RowsHold(schema, db, t, rows)
  }

  predicate IsKeyOf(def: TableDef, rows: seq<Row>, pk: int)
    requires HasKeys(def, rows)
  {
    exists i :: 0 <= i < |rows| && KeyOf(def, rows[i]) == pk
  }

  lemma {:induction false} WithRowsIs(table: Table, def: TableDef, rows: seq<Row>)
    requires HasKeys(def, rows)
    ensures forall pk :: pk in WithRows(table, def, rows) <==> pk in table || IsKeyOf(def, rows, pk)
    ensures forall pk :: pk in table && !IsKeyOf(def, rows, pk) ==> WithRows(table, def, rows)[pk] == table[pk]
    ensures forall pk :: IsKeyOf(def, rows, pk) ==>
      exists i :: 0 <= i < |rows| && KeyOf(def, rows[i]) == pk && WithRows(table, def, rows)[pk] == rows[i]
  {
    if rows != [] {
      var init, last := rows[..|rows| - 1], rows[|rows| - 1];
      WithRowsIs(table, def, init);
      forall pk
        ensures IsKeyOf(def, rows, pk) <==> IsKeyOf(def, init, pk) || KeyOf(def, last) == pk
      {
        assert rows[|rows| - 1] == last;
        if IsKeyOf(def, init, pk) {
          var i :| 0 <= i < |init| && KeyOf(def, init[i]) == pk;
          assert rows[i] == init[i];
        }
      }
    }
  }

  lemma PutKeepsForeignKeys(schema: Schema, db: Database, t: nat, rows: seq<Row>)
    requires IsSchema(schema) && ForeignKeysHold(schema, db) && t < |schema| && HasKeys(schema[t], rows)
    requires RowsHold(schema, db, t, rows)
    ensures ForeignKeysHold(schema, db[t := WithRows(db[t], schema[t], rows)])
  {
    var after := db[t := WithRows(db[t], schema[t], rows)];
    WithRowsIs(db[t], schema[t], rows);
    forall u, pk | 0 <= u < |schema| && pk in after[u]
      ensures RowHolds(after[u][pk], schema[u], after)
    {
      assert TableHolds(db[u], schema[u], db);
      if u != t || (pk in db[t] && after[t][pk] == db[t][pk]) {
        assert RowHolds(db[u][pk], schema[u], db);
      } else {
        assert IsKeyOf(schema[t], rows, pk);
        var i :| 0 <= i < |rows| && after[t][pk] == rows[i];
        assert RowHolds(rows[i], schema[t], db);
      }
      forall i | 0 <= i < |schema[u].foreignKeys|
        ensures ReferenceHolds(after[u][pk], schema[u].foreignKeys[i], after)
      {
        assert ReferenceHolds(after[u][pk], schema[u].foreignKeys[i], db);
      }
    }
  }
}
