/** The relational engine that the synchronisation writes to: keyed tables, foreign keys checked after every
    statement, and the three ON DELETE actions. */
module Relational {
  import opened Clock

  datatype Value = Null | Int(n: int) | Text(text: string) | Time(time: PyTime)

  type Row = map<string, Value>

  /** The rows of a table under their primary keys. */
  type Table = map<int, Row>

  datatype OnDelete = Restrict | Cascade | SetNull

  /** A column that refers to the primary key of the table at position `parent`. */
  datatype ForeignKey = ForeignKey(column: string, parent: nat, onDelete: OnDelete, nullable: bool)

  datatype TableDef = TableDef(name: string, primaryKey: string, foreignKeys: seq<ForeignKey>)

  /** The tables in foreign-key order: every table comes after those it refers to. */
  type Schema = seq<TableDef>

  /** The tables' contents, position by position. */
  type Database = seq<Table>

  predicate ParentsFirst(schema: Schema) {
    forall t, i :: 0 <= t < |schema| && 0 <= i < |schema[t].foreignKeys| ==> schema[t].foreignKeys[i].parent < t
  }

  predicate DistinctColumns(def: TableDef) {
    forall i, j :: 0 <= i < j < |def.foreignKeys| ==> def.foreignKeys[i].column != def.foreignKeys[j].column
  }

  /** No column is both NOT NULL and nulled by a deletion. */
  predicate NullsNullable(def: TableDef) {
    forall i :: 0 <= i < |def.foreignKeys| && def.foreignKeys[i].onDelete == SetNull ==> def.foreignKeys[i].nullable
  }

  predicate IsSchema(schema: Schema) {
    ParentsFirst(schema) && forall t :: 0 <= t < |schema| ==> DistinctColumns(schema[t]) && NullsNullable(schema[t])
  }

  // ---------- Foreign keys ----------

  /** The row's foreign key refers to an existing row, or is null where it may be. */
  predicate ReferenceHolds(row: Row, fk: ForeignKey, db: Database) {
    && fk.column in row && fk.parent < |db|
    && ((row[fk.column].Null? && fk.nullable) || (row[fk.column].Int? && row[fk.column].n in db[fk.parent]))
  }

  predicate RowHolds(row: Row, def: TableDef, db: Database) {
    forall i :: 0 <= i < |def.foreignKeys| ==> ReferenceHolds(row, def.foreignKeys[i], db)
  }

  ghost predicate TableHolds(table: Table, def: TableDef, db: Database) {
    forall pk :: pk in table ==> RowHolds(table[pk], def, db)
  }

  ghost predicate ForeignKeysHold(schema: Schema, db: Database) {
    |db| == |schema| && forall t :: 0 <= t < |schema| ==> TableHolds(db[t], schema[t], db)
  }

  // ---------- DELETE ----------

  /** Rows to go, table by table. */
  type Doomed = seq<set<int>>

  predicate RefersInto(row: Row, fk: ForeignKey, doomed: Doomed) {
    fk.column in row && row[fk.column].Int? && fk.parent < |doomed| && row[fk.column].n in doomed[fk.parent]
  }

  /** Some foreign key of this kind refers to a doomed row. */
  predicate RefersThrough(row: Row, def: TableDef, action: OnDelete, doomed: Doomed) {
    exists i :: 0 <= i < |def.foreignKeys| && def.foreignKeys[i].onDelete == action &&
        RefersInto(row, def.foreignKeys[i], doomed)
  }

  /** The victims among the rows, and what a cascade takes with the doomed rows before them. */
  function DoomedIn(def: TableDef, table: Table, victims: set<int>, doomed: Doomed): set<int> {
    set pk | pk in table && (pk in victims || RefersThrough(table[pk], def, Cascade, doomed))
  }

  /** The victims and everything that a cascade reaches from them, in the first n tables. */
  function DoomedUpTo(schema: Schema, db: Database, victims: Doomed, n: nat): (doomed: Doomed)
    requires |db| == |schema| == |victims| && n <= |schema|
    ensures |doomed| == n
  {
    if n == 0 then [] else
      var before := DoomedUpTo(schema, db, victims, n - 1);
      before + [DoomedIn(schema[n - 1], db[n - 1], victims[n - 1], before)]
  }

  function AllDoomed(schema: Schema, db: Database, victims: Doomed): (doomed: Doomed)
    requires |db| == |schema| == |victims|
    ensures |doomed| == |schema|
  {
    DoomedUpTo(schema, db, victims, |schema|)
  }

  /** Rows of one table. */
  function Only(n: nat, t: nat, keys: set<int>): (doomed: Doomed)
    ensures |doomed| == n && forall u :: 0 <= u < n ==> doomed[u] == if u == t then keys else {}
  {
    seq(n, u requires 0 <= u < n => if u == t then keys else {})
  }

  function Either(first: Doomed, second: Doomed): (both: Doomed)
    requires |first| == |second|
    ensures |both| == |first| && forall u :: 0 <= u < |both| ==> both[u] == first[u] + second[u]
  {
    seq(|first|, u requires 0 <= u < |first| => first[u] + second[u])
  }

  /** A surviving row restricts the deletion of a row it refers to. */
  predicate IsRestricted(table: Table, def: TableDef, gone: set<int>, doomed: Doomed) {
    exists pk :: pk in table && pk !in gone && RefersThrough(table[pk], def, Restrict, doomed)
  }

  predicate IsBlocked(schema: Schema, db: Database, doomed: Doomed)
    requires |db| == |schema| == |doomed|
  {
    exists u :: 0 <= u < |schema| && IsRestricted(db[u], schema[u], doomed[u], doomed)
  }

  /** The foreign key on the column is to be nulled. */
  predicate IsNulled(row: Row, def: TableDef, column: string, doomed: Doomed) {
    exists i :: 0 <= i < |def.foreignKeys| && def.foreignKeys[i].column == column
             && def.foreignKeys[i].onDelete == SetNull && RefersInto(row, def.foreignKeys[i], doomed)
  }

  function NulledRow(row: Row, def: TableDef, doomed: Doomed): Row {
    map column | column in row :: if IsNulled(row, def, column, doomed) then Null else row[column]
  }

  function NulledTable(table: Table, def: TableDef, doomed: Doomed): Table {
    map pk | pk in table :: NulledRow(table[pk], def, doomed)
  }

  function SurvivingTable(table: Table, def: TableDef, gone: set<int>, doomed: Doomed): Table {
    map pk | pk in table && pk !in gone :: NulledRow(table[pk], def, doomed)
  }

  function AfterDelete(schema: Schema, db: Database, doomed: Doomed): (after: Database)
    requires |db| == |schema| == |doomed|
    ensures |after| == |schema|
    ensures forall u :: 0 <= u < |schema| ==> after[u] == SurvivingTable(db[u], schema[u], doomed[u], doomed)
  {
    seq(|schema|, u requires 0 <= u < |schema| => SurvivingTable(db[u], schema[u], doomed[u], doomed))
  }

  lemma {:induction false} DoomedPrefix(schema: Schema, db: Database, victims: Doomed, k: nat, n: nat)
    requires |db| == |schema| == |victims| && k <= n <= |schema|
    ensures DoomedUpTo(schema, db, victims, n)[..k] == DoomedUpTo(schema, db, victims, k)
    decreases n
  {
    if k < n {
      DoomedPrefix(schema, db, victims, k, n - 1);
      var before := DoomedUpTo(schema, db, victims, n - 1);
      assert DoomedUpTo(schema, db, victims, n)[..n - 1] == before;
      assert DoomedUpTo(schema, db, victims, n)[..k] == before[..k];
    } else {
      assert DoomedUpTo(schema, db, victims, n)[..n] == DoomedUpTo(schema, db, victims, n);
    }
  }

  lemma RefersThroughPrefix(row: Row, def: TableDef, action: OnDelete, doomed: Doomed, k: nat)
    requires k <= |doomed| && forall i :: 0 <= i < |def.foreignKeys| ==> def.foreignKeys[i].parent < k
    ensures RefersThrough(row, def, action, doomed[..k]) <==> RefersThrough(row, def, action, doomed)
  {
    assert forall i :: 0 <= i < |def.foreignKeys| ==>
      (RefersInto(row, def.foreignKeys[i], doomed[..k]) <==> RefersInto(row, def.foreignKeys[i], doomed));
  }

  /** Exactly the victims are doomed, and the rows that a cascading key ties to a doomed row. */
  lemma DoomedIsClosed(schema: Schema, db: Database, victims: Doomed, u: nat)
    requires IsSchema(schema) && |db| == |schema| == |victims| && u < |schema|
    ensures var doomed := AllDoomed(schema, db, victims);
            forall pk :: pk in doomed[u] <==>
                (pk in db[u] && (pk in victims[u] || RefersThrough(db[u][pk], schema[u], Cascade, doomed)))
  {
    var doomed := AllDoomed(schema, db, victims);
    DoomedPrefix(schema, db, victims, u + 1, |schema|);
    DoomedPrefix(schema, db, victims, u, |schema|);
    assert doomed[u] == doomed[..u + 1][u];
    forall pk | pk in db[u]
      ensures RefersThrough(db[u][pk], schema[u], Cascade, doomed[..u]) <==>
                RefersThrough(db[u][pk], schema[u], Cascade, doomed)
    {
      RefersThroughPrefix(db[u][pk], schema[u], Cascade, doomed, u);
    }
  }

  lemma SurvivorHolds(schema: Schema, db: Database, doomed: Doomed, u: nat, pk: int)
    requires IsSchema(schema) && ForeignKeysHold(schema, db) && |doomed| == |schema| && u < |schema|
    requires pk in db[u] && pk !in doomed[u]
    requires RefersThrough(db[u][pk], schema[u], Cascade, doomed) ==> pk in doomed[u]
    requires !IsBlocked(schema, db, doomed)
    ensures RowHolds(NulledRow(db[u][pk], schema[u], doomed), schema[u], AfterDelete(schema, db, doomed))
  {
    var row, def := db[u][pk], schema[u];
    var after := AfterDelete(schema, db, doomed);
    assert TableHolds(db[u], def, db) && RowHolds(row, def, db);
    assert !IsRestricted(db[u], def, doomed[u], doomed);
    forall i | 0 <= i < |def.foreignKeys|
      ensures ReferenceHolds(NulledRow(row, def, doomed), def.foreignKeys[i], after)
    {
      var fk := def.foreignKeys[i];
      assert ReferenceHolds(row, fk, db);
      if RefersInto(row, fk, doomed) {
        assert fk.onDelete == SetNull;
        assert IsNulled(row, def, fk.column, doomed);
      } else if row[fk.column].Int? {
        assert !IsNulled(row, def, fk.column, doomed) by {
          OnlyOwnKeyNulls(row, def, i, doomed);
        }
      }
    }
  }

  lemma OnlyOwnKeyNulls(row: Row, def: TableDef, i: nat, doomed: Doomed)
    requires DistinctColumns(def) && i < |def.foreignKeys|
    ensures IsNulled(row, def, def.foreignKeys[i].column, doomed)
       <==> def.foreignKeys[i].onDelete == SetNull && RefersInto(row, def.foreignKeys[i], doomed)
  {
  }

  /** A deletion that no restricting reference blocks leaves all foreign keys valid, whatever it cascades to. */
  lemma DeleteKeepsForeignKeys(schema: Schema, db: Database, victims: Doomed)
    requires IsSchema(schema) && ForeignKeysHold(schema, db) && |victims| == |schema|
    requires !IsBlocked(schema, db, AllDoomed(schema, db, victims))
    ensures ForeignKeysHold(schema, AfterDelete(schema, db, AllDoomed(schema, db, victims)))
  {
    var doomed := AllDoomed(schema, db, victims);
    var after := AfterDelete(schema, db, doomed);
    forall u, pk | 0 <= u < |schema| && pk in after[u]
      ensures RowHolds(after[u][pk], schema[u], after)
    {
      DoomedIsClosed(schema, db, victims, u);
      SurvivorHolds(schema, db, doomed, u, pk);
    }
  }

  // ---------- Two deletions in a row ----------

  lemma NulledColumnIsOwn(row: Row, def: TableDef, i: nat, doomed: Doomed)
    requires DistinctColumns(def) && i < |def.foreignKeys| && def.foreignKeys[i].column in row
    ensures NulledRow(row, def, doomed)[def.foreignKeys[i].column]
         == if def.foreignKeys[i].onDelete == SetNull && RefersInto(row, def.foreignKeys[i], doomed) then Null
            else row[def.foreignKeys[i].column]
  {
    OnlyOwnKeyNulls(row, def, i, doomed);
  }

  /** Nulling references into some rows, then into more rows, nulls the references into either. */
  lemma NulledTwice(row: Row, def: TableDef, first: Doomed, second: Doomed)
    requires DistinctColumns(def) && |first| == |second|
    ensures NulledRow(NulledRow(row, def, first), def, second) == NulledRow(row, def, Either(first, second))
  {
    var once, both := NulledRow(row, def, first), Either(first, second);
    forall column | column in row
      ensures NulledRow(once, def, second)[column] == NulledRow(row, def, both)[column]
    {
      if IsNulled(row, def, column, both) || IsNulled(row, def, column, first) || IsNulled(once, def, column, second) {
        var i :| 0 <= i < |def.foreignKeys| && def.foreignKeys[i].column == column;
        OnlyOwnKeyNulls(row, def, i, both);
        OnlyOwnKeyNulls(row, def, i, first);
        OnlyOwnKeyNulls(once, def, i, second);
      }
    }
  }

  /** Nulling leaves restricting and cascading references as they were. */
  lemma NullingKeepsReferences(row: Row, def: TableDef, first: Doomed, action: OnDelete, second: Doomed)
    requires DistinctColumns(def) && action != SetNull
    ensures RefersThrough(NulledRow(row, def, first), def, action, second) <==> RefersThrough(row, def, action, second)
  {
    forall i | 0 <= i < |def.foreignKeys| && def.foreignKeys[i].onDelete == action
      ensures RefersInto(NulledRow(row, def, first), def.foreignKeys[i], second) <==>
                RefersInto(row, def.foreignKeys[i], second)
    {
      if def.foreignKeys[i].column in row {
        NulledColumnIsOwn(row, def, i, first);
      }
    }
  }

  lemma RefersThroughEither(row: Row, def: TableDef, action: OnDelete, first: Doomed, second: Doomed)
    requires |first| == |second|
    ensures RefersThrough(row, def, action, Either(first, second))
            <==> (RefersThrough(row, def, action, first) || RefersThrough(row, def, action, second))
  {
    assert forall i :: 0 <= i < |def.foreignKeys| ==>
      (RefersInto(row, def.foreignKeys[i], Either(first, second)) <==>
       (RefersInto(row, def.foreignKeys[i], first) || RefersInto(row, def.foreignKeys[i], second)));
  }

  lemma RefersThroughMore(row: Row, def: TableDef, action: OnDelete, some: Doomed, more: Doomed)
    requires |some| == |more| && forall u :: 0 <= u < |some| ==> some[u] <= more[u]
    ensures RefersThrough(row, def, action, some) ==> RefersThrough(row, def, action, more)
  {
    assert forall i :: 0 <= i < |def.foreignKeys| ==>
      (RefersInto(row, def.foreignKeys[i], some) ==> RefersInto(row, def.foreignKeys[i], more));
  }

  /** Only the parents' doomed rows matter to a row. */
  lemma RefersThroughSame(row: Row, def: TableDef, action: OnDelete, first: Doomed, second: Doomed)
    requires |first| == |second|
    requires forall i :: 0 <= i < |def.foreignKeys| && def.foreignKeys[i].parent < |first| ==>
               first[def.foreignKeys[i].parent] == second[def.foreignKeys[i].parent]
    ensures RefersThrough(row, def, action, first) <==> RefersThrough(row, def, action, second)
  {
    assert forall i :: 0 <= i < |def.foreignKeys| ==>
      (RefersInto(row, def.foreignKeys[i], first) <==> RefersInto(row, def.foreignKeys[i], second));
  }

  /** What two deletions in a row take is what the deletion of all their victims takes. */
  lemma {:induction false} DoomedTwice(schema: Schema, db: Database, first: Doomed, second: Doomed, u: nat)
    requires IsSchema(schema) && |db| == |schema| == |first| == |second| && u < |schema|
    ensures var gone := AllDoomed(schema, db, first);
            AllDoomed(schema, db, Either(first, second))[u]
            == gone[u] + AllDoomed(schema, AfterDelete(schema, db, gone), second)[u]
    decreases u
  {
    var gone := AllDoomed(schema, db, first);
    var rest := AfterDelete(schema, db, gone);
    var more, all := AllDoomed(schema, rest, second), AllDoomed(schema, db, Either(first, second));
    DoomedIsClosed(schema, db, first, u);
    DoomedIsClosed(schema, rest, second, u);
    DoomedIsClosed(schema, db, Either(first, second), u);
    forall i | 0 <= i < |schema[u].foreignKeys|
      ensures all[schema[u].foreignKeys[i].parent] == Either(gone, more)[schema[u].foreignKeys[i].parent]
    {
      DoomedTwice(schema, db, first, second, schema[u].foreignKeys[i].parent);
    }
    forall pk | pk in db[u]
      ensures pk in all[u] <==> pk in gone[u] || pk in more[u]
    {
      RefersThroughSame(db[u][pk], schema[u], Cascade, all, Either(gone, more));
      RefersThroughEither(db[u][pk], schema[u], Cascade, gone, more);
      NullingKeepsReferences(db[u][pk], schema[u], gone, Cascade, more);
    }
    assert forall pk :: pk in all[u] <==> pk in gone[u] + more[u];
  }

  lemma TableAfterTwo(schema: Schema, db: Database, gone: Doomed, more: Doomed, u: nat)
    requires IsSchema(schema) && |db| == |schema| == |gone| == |more| && u < |schema|
    ensures AfterDelete(schema, AfterDelete(schema, db, gone), more)[u]
            == AfterDelete(schema, db, Either(gone, more))[u]
  {
    forall pk | pk in db[u]
      ensures NulledRow(NulledRow(db[u][pk], schema[u], gone), schema[u], more)
              == NulledRow(db[u][pk], schema[u], Either(gone, more))
    {
      NulledTwice(db[u][pk], schema[u], gone, more);
    }
  }

  /** A deletion that was not blocked and another one after it are one deletion of both, and it is blocked exactly when
      the second one is. */
  lemma DeletionsAddUp(schema: Schema, db: Database, first: Doomed, second: Doomed)
    requires IsSchema(schema) && |db| == |schema| == |first| == |second|
    requires !IsBlocked(schema, db, AllDoomed(schema, db, first))
    ensures var rest := AfterDelete(schema, db, AllDoomed(schema, db, first));
            var more, all := AllDoomed(schema, rest, second), AllDoomed(schema, db, Either(first, second));
            && (IsBlocked(schema, rest, more) <==> IsBlocked(schema, db, all))
            && AfterDelete(schema, rest, more) == AfterDelete(schema, db, all)
  {
    var gone := AllDoomed(schema, db, first);
    var rest := AfterDelete(schema, db, gone);
    var more, all := AllDoomed(schema, rest, second), AllDoomed(schema, db, Either(first, second));
    forall u | 0 <= u < |schema|
      ensures all[u] == Either(gone, more)[u]
    {
      DoomedTwice(schema, db, first, second, u);
    }
    assert all == Either(gone, more);
    forall u | 0 <= u < |schema|
      ensures AfterDelete(schema, rest, more)[u] == AfterDelete(schema, db, all)[u]
      ensures IsRestricted(rest[u], schema[u], more[u], more) <==> IsRestricted(db[u], schema[u], all[u], all)
    {
      TableAfterTwo(schema, db, gone, more, u);
      StillRestricted(schema, db, gone, more, u);
    }
  }

  lemma StillRestricted(schema: Schema, db: Database, gone: Doomed, more: Doomed, u: nat)
    requires IsSchema(schema) && |db| == |schema| == |gone| == |more| && u < |schema| && !IsBlocked(schema, db, gone)
    ensures var rest, all := AfterDelete(schema, db, gone), Either(gone, more);
            IsRestricted(rest[u], schema[u], more[u], more) <==> IsRestricted(db[u], schema[u], all[u], all)
  {
    var rest, all := AfterDelete(schema, db, gone), Either(gone, more);
    assert !IsRestricted(db[u], schema[u], gone[u], gone);
    forall pk | pk in db[u] && pk !in gone[u]
      ensures RefersThrough(rest[u][pk], schema[u], Restrict, more)
              <==> RefersThrough(db[u][pk], schema[u], Restrict, all)
    {
      NullingKeepsReferences(db[u][pk], schema[u], gone, Restrict, more);
      RefersThroughEither(db[u][pk], schema[u], Restrict, gone, more);
    }
  }

  /** Victims that are not there make no difference. */
  lemma {:induction false} OnlyExistingVictims(schema: Schema, db: Database, some: Doomed, others: Doomed, n: nat)
    requires |db| == |schema| == |some| == |others| && n <= |schema|
    requires forall u, pk :: 0 <= u < |schema| && pk in db[u] ==> (pk in some[u] <==> pk in others[u])
    ensures DoomedUpTo(schema, db, some, n) == DoomedUpTo(schema, db, others, n)
  {
    if n > 0 {
      OnlyExistingVictims(schema, db, some, others, n - 1);
      var before := DoomedUpTo(schema, db, some, n - 1);
      assert DoomedIn(schema[n - 1], db[n - 1], some[n - 1], before)
          == DoomedIn(schema[n - 1], db[n - 1], others[n - 1], before);
    }
  }
}
