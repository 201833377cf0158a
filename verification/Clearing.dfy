/** Emptying the reloaded tables, children first: what goes with them, what is nulled, and what blocks it
    (sync_to_oracle.py). */
module Clearing {
  import opened Relational
  import opened OracleSync

  /** Whether a table is emptied and refilled. */
  predicate IsReloaded(schema: Schema, tables: seq<nat>, t: nat) {
    t < |schema| && t in tables && !IsUpsert(schema[t])
  }

  /** The rows of the reloaded tables from position n on. */
  function Cleared(schema: Schema, tables: seq<nat>, db: Database, n: nat): (cleared: Doomed)
    requires |db| == |schema|
    ensures |cleared| == |schema|
    ensures forall u :: 0 <= u < |schema| ==>
              cleared[u] == if u >= n && IsReloaded(schema, tables, u) then db[u].Keys else {}
  {
    seq(|schema|, u requires 0 <= u < |schema| =>
        if u >= n && IsReloaded(schema, tables, u) then db[u].Keys else {})
  }

  /** The rows that are lost in clearing these tables: their own, and all that a cascade takes along. */
  function Lost(schema: Schema, tables: seq<nat>, db: Database, n: nat): (lost: Doomed)
    requires |db| == |schema|
    ensures |lost| == |schema|
  {
    AllDoomed(schema, db, Cleared(schema, tables, db, n))
  }

  /** While clearing: the reloaded tables from position n on are empty, and what refers to them is gone or nulled. */
  ghost predicate ClearedFrom(schema: Schema, tables: seq<nat>, before: Database, n: nat, db: Database) {
    |before| == |schema| && db == AfterDelete(schema, before, Lost(schema, tables, before, n))
  }

  /** When the reloaded tables from n on are to be cleared, a row that is left restricts one that is lost. */
  predicate IsBlockedAt(schema: Schema, tables: seq<nat>, before: Database, n: nat)
    requires |before| == |schema|
  {
    IsBlocked(schema, before, Lost(schema, tables, before, n))
  }

  predicate BlocksClearing(schema: Schema, tables: seq<nat>, before: Database)
    requires |before| == |schema|
  {
    exists n :: 0 <= n < |schema| && IsReloaded(schema, tables, n) && IsBlockedAt(schema, tables, before, n)
  }

  lemma NothingClearedYet(schema: Schema, tables: seq<nat>, before: Database)
    requires IsSchema(schema) && |before| == |schema|
    ensures ClearedFrom(schema, tables, before, |schema|, before) && !IsBlockedAt(schema, tables, before, |schema|)
  {
    var lost := Lost(schema, tables, before, |schema|);
    forall u: nat | u < |schema|
      ensures lost[u] == {}
    {
      NothingLostWithoutVictims(schema, before, Cleared(schema, tables, before, |schema|), u);
    }
    forall u: nat, pk | u < |schema| && pk in before[u]
      ensures NulledRow(before[u][pk], schema[u], lost) == before[u][pk]
      ensures forall action :: !RefersThrough(before[u][pk], schema[u], action, lost)
    {
      NullingNothing(before[u][pk], schema[u], lost);
    }
    forall u | 0 <= u < |schema|
      ensures SurvivingTable(before[u], schema[u], lost[u], lost) == before[u]
    {
    }
  }

  lemma {:induction false} NothingLostWithoutVictims(schema: Schema, db: Database, victims: Doomed, u: nat)
    requires IsSchema(schema) && |db| == |schema| == |victims| && u < |schema|
    requires forall p :: 0 <= p <= u ==> victims[p] == {}
    ensures AllDoomed(schema, db, victims)[u] == {}
    decreases u
  {
    DoomedIsClosed(schema, db, victims, u);
    forall i | 0 <= i < |schema[u].foreignKeys|
      ensures AllDoomed(schema, db, victims)[schema[u].foreignKeys[i].parent] == {}
    {
      NothingLostWithoutVictims(schema, db, victims, schema[u].foreignKeys[i].parent);
    }
    assert forall pk :: pk !in AllDoomed(schema, db, victims)[u];
  }

  lemma NullingNothing(row: Row, def: TableDef, doomed: Doomed)
    requires forall i :: 0 <= i < |def.foreignKeys| ==> !RefersInto(row, def.foreignKeys[i], doomed)
    ensures NulledRow(row, def, doomed) == row
    ensures forall action :: !RefersThrough(row, def, action, doomed)
  {
  }

  /** Emptying one more table clears from there on, and is blocked exactly by a row that restricts a lost one. */
  lemma ClearNextTable(schema: Schema, tables: seq<nat>, before: Database, n: nat, t: nat, db: Database)
    requires IsSchema(schema) && ClearedFrom(schema, tables, before, n, db) && !IsBlockedAt(schema, tables, before, n)
    requires IsReloaded(schema, tables, t) && t < n && forall u :: t < u < n ==> !IsReloaded(schema, tables, u)
    ensures |db| == |schema|
    ensures var doomed := AllDoomed(schema, db, Only(|schema|, t, db[t].Keys));
            && (IsBlocked(schema, db, doomed) <==> IsBlockedAt(schema, tables, before, t))
            && ClearedFrom(schema, tables, before, t, AfterDelete(schema, db, doomed))
  {
    var some, others := Only(|schema|, t, db[t].Keys), Only(|schema|, t, before[t].Keys);
    OnlyExistingVictims(schema, db, some, others, |schema|);
    hide IsSchema, AllDoomed, IsBlocked, AfterDelete, Only, Either, Cleared, IsReloaded;
    DeletionsAddUp(schema, before, Cleared(schema, tables, before, n), others);
    ClearsOneMore(schema, tables, before, n, t);
  }

  lemma ClearsOneMore(schema: Schema, tables: seq<nat>, before: Database, n: nat, t: nat)
    requires |before| == |schema|
    requires IsReloaded(schema, tables, t) && t < n && forall u :: t < u < n ==> !IsReloaded(schema, tables, u)
    ensures Either(Cleared(schema, tables, before, n), Only(|schema|, t, before[t].Keys))
            == Cleared(schema, tables, before, t)
  {
    var both := Either(Cleared(schema, tables, before, n), Only(|schema|, t, before[t].Keys));
    forall u | 0 <= u < |schema|
      ensures both[u] == Cleared(schema, tables, before, t)[u]
    {
    }
  }

  // ---------- What is lost ----------

  datatype RowId = RowId(table: nat, key: int)

  /** One row refers to another through a cascading key. */
  ghost predicate CascadesFrom(schema: Schema, db: Database, row: RowId, parent: RowId) {
    && row.table < |schema| == |db| && row.key in db[row.table]
    && exists i :: 0 <= i < |schema[row.table].foreignKeys| && schema[row.table].foreignKeys[i].onDelete == Cascade
                && RefersTo(db[row.table][row.key], schema[row.table].foreignKeys[i], parent)
  }

  predicate RefersTo(row: Row, fk: ForeignKey, parent: RowId) {
    fk.parent == parent.table && fk.column in row && row[fk.column] == Int(parent.key)
  }

  /** Rows that refer each to the next by cascading keys, up to a row of a reloaded table at or after position n. */
  ghost predicate IsCascadeChain(schema: Schema, tables: seq<nat>, db: Database, n: nat, chain: seq<RowId>) {
    && chain != [] && |db| == |schema|
    && (forall k :: 0 <= k < |chain| - 1 ==> CascadesFrom(schema, db, chain[k], chain[k + 1]))
    && var last := chain[|chain| - 1];
       last.table >= n && IsReloaded(schema, tables, last.table) && last.key in db[last.table]
  }

  ghost predicate LeadsToReloaded(schema: Schema, tables: seq<nat>, db: Database, n: nat, row: RowId) {
    exists chain :: IsCascadeChain(schema, tables, db, n, chain) && chain[0] == row
  }

  lemma {:induction false} LostHasChain(schema: Schema, tables: seq<nat>, db: Database, n: nat, u: nat, pk: int)
    returns (chain: seq<RowId>)
    requires IsSchema(schema) && |db| == |schema| && u < |schema| && pk in Lost(schema, tables, db, n)[u]
    ensures IsCascadeChain(schema, tables, db, n, chain) && chain[0] == RowId(u, pk)
    decreases u
  {
    var lost := Lost(schema, tables, db, n);
    DoomedIsClosed(schema, db, Cleared(schema, tables, db, n), u);
    if u >= n && IsReloaded(schema, tables, u) {
      chain := [RowId(u, pk)];
    } else {
      var i :| 0 <= i < |schema[u].foreignKeys| && schema[u].foreignKeys[i].onDelete == Cascade
            && RefersInto(db[u][pk], schema[u].foreignKeys[i], lost);
      var fk := schema[u].foreignKeys[i];
      var rest := LostHasChain(schema, tables, db, n, fk.parent, db[u][pk][fk.column].n);
      assert RefersTo(db[u][pk], fk, rest[0]);
      chain := [RowId(u, pk)] + rest;
    }
  }

  lemma CascadeLoses(schema: Schema, tables: seq<nat>, db: Database, n: nat, row: RowId, parent: RowId)
    requires IsSchema(schema) && CascadesFrom(schema, db, row, parent) && parent.table < |schema|
    requires parent.key in Lost(schema, tables, db, n)[parent.table]
    ensures row.key in Lost(schema, tables, db, n)[row.table]
  {
    var lost, def, values := Lost(schema, tables, db, n), schema[row.table], db[row.table][row.key];
    DoomedIsClosed(schema, db, Cleared(schema, tables, db, n), row.table);
    var i :| 0 <= i < |def.foreignKeys| && def.foreignKeys[i].onDelete == Cascade
          && RefersTo(values, def.foreignKeys[i], parent);
    assert RefersInto(values, def.foreignKeys[i], lost);
  }

  lemma {:induction false} ChainIsLost(schema: Schema, tables: seq<nat>, db: Database, n: nat, chain: seq<RowId>)
    requires IsSchema(schema) && IsCascadeChain(schema, tables, db, n, chain)
    ensures chain[0].table < |schema| && chain[0].key in Lost(schema, tables, db, n)[chain[0].table]
  {
    if |chain| == 1 {
      DoomedIsClosed(schema, db, Cleared(schema, tables, db, n), chain[0].table);
    } else {
      var rest := chain[1..];
      hide CascadesFrom, Lost;
      forall k | 0 <= k < |rest| - 1
        ensures CascadesFrom(schema, db, rest[k], rest[k + 1])
      {
        assert CascadesFrom(schema, db, chain[k + 1], chain[k + 1 + 1]);
      }
      assert CascadesFrom(schema, db, chain[0], chain[0 + 1]);
      ChainIsLost(schema, tables, db, n, rest);
      CascadeLoses(schema, tables, db, n, chain[0], rest[0]);
    }
  }

  /** The lost rows are exactly those from which a chain of cascading keys, however long, leads to a reloaded table. */
  lemma LostExactly(schema: Schema, tables: seq<nat>, db: Database, n: nat, row: RowId)
    requires IsSchema(schema) && |db| == |schema|
    ensures LeadsToReloaded(schema, tables, db, n, row)
            <==> (row.table < |schema| && row.key in Lost(schema, tables, db, n)[row.table])
  {
    if row.table < |schema| && row.key in Lost(schema, tables, db, n)[row.table] {
      var chain := LostHasChain(schema, tables, db, n, row.table, row.key);
    }
    if LeadsToReloaded(schema, tables, db, n, row) {
      var chain :| IsCascadeChain(schema, tables, db, n, chain) && chain[0] == row;
      ChainIsLost(schema, tables, db, n, chain);
    }
  }

  /** A row is left after the clearing exactly if no such chain leads from it to a reloaded table. */
  lemma LeftExactly(schema: Schema, tables: seq<nat>, before: Database, db: Database, u: nat, pk: int)
    requires IsSchema(schema) && ClearedFrom(schema, tables, before, 0, db) && u < |schema| && pk in before[u]
    ensures |db| == |schema| && (pk in db[u] <==> !LeadsToReloaded(schema, tables, before, 0, RowId(u, pk)))
  {
    LostExactly(schema, tables, before, 0, RowId(u, pk));
  }

  /** A value is a SET NULL reference to a lost row. */
  lemma LostReferenceExactly(schema: Schema, tables: seq<nat>, before: Database, u: nat, pk: int, column: string)
    requires IsSchema(schema) && u < |schema| == |before| && pk in before[u] && column in before[u][pk]
    ensures IsNulled(before[u][pk], schema[u], column, Lost(schema, tables, before, 0))
            <==> LosesReference(schema, tables, before, u, pk, column)
  {
    var row, def, lost := before[u][pk], schema[u], Lost(schema, tables, before, 0);
    forall i | 0 <= i < |def.foreignKeys| && def.foreignKeys[i].column in row && row[def.foreignKeys[i].column].Int?
      ensures var fk := def.foreignKeys[i];
              RefersInto(row, fk, lost)
              <==> LeadsToReloaded(schema, tables, before, 0, RowId(fk.parent, row[fk.column].n))
    {
      LostExactly(schema, tables, before, 0, RowId(def.foreignKeys[i].parent, row[def.foreignKeys[i].column].n));
    }
  }

  /** Of a row that is left a value is nulled exactly if it is a SET NULL reference to a lost row; the others stay. */
  lemma NulledExactly(schema: Schema, tables: seq<nat>, before: Database, db: Database, u: nat, pk: int, column: string)
    requires IsSchema(schema) && ClearedFrom(schema, tables, before, 0, db) && u < |schema| && pk in before[u]
    requires |db| == |schema| && pk in db[u] && column in before[u][pk]
    ensures column in db[u][pk]
    ensures db[u][pk][column]
            == if LosesReference(schema, tables, before, u, pk, column) then Null else before[u][pk][column]
  {
    LostReferenceExactly(schema, tables, before, u, pk, column);
  }

  ghost predicate LosesReference(schema: Schema, tables: seq<nat>, before: Database, u: nat, pk: int, column: string)
    requires u < |schema| == |before| && pk in before[u] && column in before[u][pk]
  {
    before[u][pk][column].Int?
    && exists i :: 0 <= i < |schema[u].foreignKeys| && schema[u].foreignKeys[i].column == column
                && schema[u].foreignKeys[i].onDelete == SetNull
                && LeadsToReloaded(schema, tables, before, 0,
                                   RowId(schema[u].foreignKeys[i].parent, before[u][pk][column].n))
  }

  /** Before some table is emptied a row is left that restricts a row that goes with it or went before. */
  ghost predicate Restricts(schema: Schema, tables: seq<nat>, before: Database, n: nat, row: RowId, parent: RowId) {
    && row.table < |schema| == |before| && row.key in before[row.table]
    && !LeadsToReloaded(schema, tables, before, n, row) && LeadsToReloaded(schema, tables, before, n, parent)
    && exists i :: 0 <= i < |schema[row.table].foreignKeys| && schema[row.table].foreignKeys[i].onDelete == Restrict
                && RefersTo(before[row.table][row.key], schema[row.table].foreignKeys[i], parent)
  }

  /** The clearing is blocked exactly if, at some reloaded table, a row that is left by then restricts a lost one. */
  lemma BlockedExactly(schema: Schema, tables: seq<nat>, before: Database)
    requires IsSchema(schema) && |before| == |schema|
    ensures BlocksClearing(schema, tables, before)
            <==> exists n, row, parent ::
                   IsReloaded(schema, tables, n) && Restricts(schema, tables, before, n, row, parent)
  {
    if BlocksClearing(schema, tables, before) {
      var n: nat :| n < |schema| && IsReloaded(schema, tables, n) && IsBlockedAt(schema, tables, before, n);
      var row, parent := BlockIsRestriction(schema, tables, before, n);
    }
    forall n: nat, row, parent | IsReloaded(schema, tables, n) && Restricts(schema, tables, before, n, row, parent)
      ensures IsBlockedAt(schema, tables, before, n)
    {
      RestrictionBlocks(schema, tables, before, n, row, parent);
    }
  }

  lemma BlockIsRestriction(schema: Schema, tables: seq<nat>, before: Database, n: nat)
    returns (row: RowId, parent: RowId)
    requires IsSchema(schema) && |before| == |schema| && IsBlockedAt(schema, tables, before, n)
    ensures Restricts(schema, tables, before, n, row, parent)
  {
    var lost := Lost(schema, tables, before, n);
    var u: nat :| u < |schema| && IsRestricted(before[u], schema[u], lost[u], lost);
    var pk :| pk in before[u] && pk !in lost[u] && RefersThrough(before[u][pk], schema[u], Restrict, lost);
    var i :| 0 <= i < |schema[u].foreignKeys| && schema[u].foreignKeys[i].onDelete == Restrict
          && RefersInto(before[u][pk], schema[u].foreignKeys[i], lost);
    var fk := schema[u].foreignKeys[i];
    row, parent := RowId(u, pk), RowId(fk.parent, before[u][pk][fk.column].n);
    LostExactly(schema, tables, before, n, row);
    LostExactly(schema, tables, before, n, parent);
    assert RefersTo(before[u][pk], fk, parent);
  }

  lemma RestrictionBlocks(schema: Schema, tables: seq<nat>, before: Database, n: nat, row: RowId, parent: RowId)
    requires IsSchema(schema) && |before| == |schema| && Restricts(schema, tables, before, n, row, parent)
    ensures IsBlockedAt(schema, tables, before, n)
  {
    var lost, def, values := Lost(schema, tables, before, n), schema[row.table], before[row.table][row.key];
    LostExactly(schema, tables, before, n, row);
    LostExactly(schema, tables, before, n, parent);
    var i :| 0 <= i < |def.foreignKeys| && def.foreignKeys[i].onDelete == Restrict
          && RefersTo(values, def.foreignKeys[i], parent);
    assert RefersInto(values, def.foreignKeys[i], lost);
    assert RefersThrough(values, def, Restrict, lost);
    assert IsRestricted(before[row.table], def, lost[row.table], lost);
  }
}
