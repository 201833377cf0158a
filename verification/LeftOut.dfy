/** What a committed synchronisation does to the tables that it leaves out (sync_to_oracle.py). */
module LeftOut {
  import opened Relational
  import opened OracleSync
  import opened Clearing
  import opened SyncStages
  import opened SyncRun
  import opened Synchronisation

  /** A run over these tables, from valid foreign keys and a consistent source, that commits. */
  ghost predicate Commits(schema: Schema, tables: seq<nat>, source: Source, before: Database, batchSize: int,
                          after: Database)
  {
    && |source| == |schema| == |before| && IsConsistent(schema, source) && KeyedSource(schema, source)
    && ForeignKeysHold(schema, before)
    && MayCommit(schema, tables, source, before, batchSize)
    && IsSynchronised(schema, tables, source, before, after)
  }

  // ---------- One row ----------

  /** A reference to a row that the source no longer has in a merged table. */
  predicate IsDeadReference(schema: Schema, tables: seq<nat>, source: Source, before: Database, t: nat, row: Row,
                            column: string)
    requires KeyedSource(schema, source) && |before| == |schema| && t < |schema|
  {
    IsNulled(row, schema[t], column, Removed(schema, source, before, MergedTables(schema, tables)))
  }

  /** A row left out stays exactly if no chain of cascading keys leads from it to a reloaded table, and of its values
      exactly the SET NULL references to lost rows and the dead ones are nulled. */
  lemma LeftOutRowExactly(schema: Schema, tables: seq<nat>, source: Source, before: Database, after: Database, t: nat,
                          pk: int)
    requires IsSchema(schema) && KeyedSource(schema, source) && |before| == |schema|
    requires IsSynchronised(schema, tables, source, before, after) && t < |schema| && t !in tables && pk in before[t]
    ensures pk in after[t] <==> !LeadsToReloaded(schema, tables, before, 0, RowId(t, pk))
    ensures pk in after[t] ==>
              && after[t][pk].Keys == before[t][pk].Keys
              && forall column :: column in before[t][pk] ==>
                   after[t][pk][column]
                   == if || LosesReference(schema, tables, before, t, pk, column)
                         || IsDeadReference(schema, tables, source, before, t, before[t][pk], column)
                      then Null else before[t][pk][column]
  {
    var row, def, lost := before[t][pk], schema[t], Lost(schema, tables, before, 0);
    var removed := Removed(schema, source, before, MergedTables(schema, tables));
    LostExactly(schema, tables, before, 0, RowId(t, pk));
    forall column | column in row
      ensures IsNulled(row, def, column, Either(lost, removed))
              <==> (LosesReference(schema, tables, before, t, pk, column) || IsNulled(row, def, column, removed))
    {
      NulledByEither(row, def, column, lost, removed);
      LostReferenceExactly(schema, tables, before, t, pk, column);
    }
  }

  lemma NulledByEither(row: Row, def: TableDef, column: string, first: Doomed, second: Doomed)
    requires |first| == |second|
    ensures IsNulled(row, def, column, Either(first, second))
            <==> (IsNulled(row, def, column, first) || IsNulled(row, def, column, second))
  {
    assert forall i :: 0 <= i < |def.foreignKeys| ==>
      (RefersInto(row, def.foreignKeys[i], Either(first, second)) <==>
       (RefersInto(row, def.foreignKeys[i], first) || RefersInto(row, def.foreignKeys[i], second)));
  }

  // ---------- What cascading and nulling keys take ----------

  /** A row left out whose cascading keys are all null stays; one that refers to a reloaded table by such a key goes. */
  lemma CascadingKeysDecide(schema: Schema, tables: seq<nat>, source: Source, before: Database, batchSize: int,
                            after: Database, t: nat, pk: int)
    requires IsSchema(schema) && Commits(schema, tables, source, before, batchSize, after)
    requires t < |schema| && t !in tables && pk in before[t]
    ensures (forall i :: 0 <= i < |schema[t].foreignKeys| && schema[t].foreignKeys[i].onDelete == Cascade ==>
               !IsReference(before[t][pk], schema[t].foreignKeys[i]))
            ==> pk in after[t]
    ensures (exists i :: 0 <= i < |schema[t].foreignKeys| && schema[t].foreignKeys[i].onDelete == Cascade
                      && IsReloaded(schema, tables, schema[t].foreignKeys[i].parent)
                      && IsReference(before[t][pk], schema[t].foreignKeys[i]))
            ==> pk !in after[t]
  {
    var row, def, lost := before[t][pk], schema[t], Lost(schema, tables, before, 0);
    assert TableHolds(before[t], def, before) && RowHolds(row, def, before);
    DoomedIsClosed(schema, before, Cleared(schema, tables, before, 0), t);
    forall i | 0 <= i < |def.foreignKeys| && IsReloaded(schema, tables, def.foreignKeys[i].parent)
               && IsReference(row, def.foreignKeys[i])
      ensures RefersInto(row, def.foreignKeys[i], lost)
    {
      ReferenceIsLost(schema, tables, before, row, def.foreignKeys[i]);
    }
  }

  predicate IsReference(row: Row, fk: ForeignKey) {
    fk.column in row && row[fk.column].Int?
  }

  lemma ReferenceIsLost(schema: Schema, tables: seq<nat>, before: Database, row: Row, fk: ForeignKey)
    requires IsSchema(schema) && |before| == |schema| && IsReloaded(schema, tables, fk.parent)
    requires ReferenceHolds(row, fk, before) && IsReference(row, fk)
    ensures RefersInto(row, fk, Lost(schema, tables, before, 0))
  {
    DoomedIsClosed(schema, before, Cleared(schema, tables, before, 0), fk.parent);
  }

  /** Every SET NULL reference that a row left out holds into a reloaded table is nulled, though its row is copied
      back. */
  lemma NullingKeysAreNulled(schema: Schema, tables: seq<nat>, source: Source, before: Database, batchSize: int,
                             after: Database, t: nat, pk: int, i: nat)
    requires IsSchema(schema) && Commits(schema, tables, source, before, batchSize, after)
    requires t < |schema| && t !in tables && pk in after[t] && i < |schema[t].foreignKeys|
    requires schema[t].foreignKeys[i].onDelete == SetNull
    requires IsReloaded(schema, tables, schema[t].foreignKeys[i].parent)
    ensures schema[t].foreignKeys[i].column in after[t][pk] && after[t][pk][schema[t].foreignKeys[i].column] == Null
  {
    var row, def, fk := before[t][pk], schema[t], schema[t].foreignKeys[i];
    assert TableHolds(before[t], def, before) && RowHolds(row, def, before) && ReferenceHolds(row, fk, before);
    if IsReference(row, fk) {
      ReferenceIsLost(schema, tables, before, row, fk);
    }
    NulledColumnIsOwn(row, def, i, Either(Lost(schema, tables, before, 0),
                                          Removed(schema, source, before, MergedTables(schema, tables))));
  }

  // ---------- Tables that stand apart ----------

  /** Where a table that is left out refers to a reloaded one, it restricts. */
  predicate OnlyRestricts(schema: Schema, tables: seq<nat>) {
    forall t, i :: 0 <= t < |schema| && 0 <= i < |schema[t].foreignKeys| && t !in tables
              && IsReloaded(schema, tables, schema[t].foreignKeys[i].parent)
      ==> schema[t].foreignKeys[i].onDelete == Restrict
  }

  /** Every key leads into a synchronised table, and from a table left out only into a merged one. */
  predicate IsSeparated(schema: Schema, tables: seq<nat>) {
    forall t, i :: 0 <= t < |schema| && 0 <= i < |schema[t].foreignKeys| ==>
        IsSeparate(schema, tables, t, schema[t].foreignKeys[i])
  }

  predicate IsSeparate(schema: Schema, tables: seq<nat>, t: nat, fk: ForeignKey)
    requires t < |schema|
  {
    fk.parent < |schema| && fk.parent in tables && (t !in tables ==> IsUpsert(schema[fk.parent]))
  }

  /** Nothing before the tables that are cleared is lost. */
  lemma LostOnlyBehind(schema: Schema, tables: seq<nat>, db: Database, n: nat, t: nat)
    requires IsSchema(schema) && |db| == |schema| && t < n && t < |schema|
    ensures Lost(schema, tables, db, n)[t] == {}
  {
    NothingLostWithoutVictims(schema, db, Cleared(schema, tables, db, n), t);
  }

  lemma MergedIsNotLost(schema: Schema, tables: seq<nat>, db: Database, n: nat, t: nat)
    requires IsSchema(schema) && MergesStandAlone(schema) && |db| == |schema| && t < |schema| && IsUpsert(schema[t])
    ensures Lost(schema, tables, db, n)[t] == {}
  {
    MergedHasNoKeys(schema, t);
    DoomedIsClosed(schema, db, Cleared(schema, tables, db, n), t);
    assert forall pk :: pk !in Lost(schema, tables, db, n)[t];
  }

  /** Where the tables stand apart, only a failing statement, a restricted merge or the batch size prevents a commit. */
  lemma SeparatedRunsAreFree(schema: Schema, tables: seq<nat>, source: Source, before: Database, batchSize: int)
    requires IsSchema(schema) && MergesStandAlone(schema) && IsSeparated(schema, tables)
    requires KeyedSource(schema, source) && |before| == |schema|
    ensures MayCommit(schema, tables, source, before, batchSize)
            <==> (!IsRestrictedBy(schema, tables, source, before, MergedTables(schema, tables))
                  && BatchSizeFits(schema, tables, source, before, batchSize))
    ensures OnlyRestricts(schema, tables)
  {
    assert |source| == |schema|;
    hide Copy, IsRestrictedBy, BatchSizeFits, KeyedSource;
    assert forall t, i :: 0 <= t < |schema| && 0 <= i < |schema[t].foreignKeys| ==>
             IsSeparate(schema, tables, t, schema[t].foreignKeys[i]);
    forall n: nat | n < |schema| && IsReloaded(schema, tables, n)
      ensures !IsBlockedAt(schema, tables, before, n)
    {
      forall u: nat | u < |schema|
        ensures !IsRestricted(before[u], schema[u], Lost(schema, tables, before, n)[u],
                              Lost(schema, tables, before, n))
      {
        SeparatedIsUnrestricted(schema, tables, before, n, u);
      }
    }
    forall t: nat, i: nat | t < |schema| && i < |source[t]|
      ensures ReferencesAreLeft(schema, tables, before, schema[t], source[t][i])
    {
      assert forall k :: 0 <= k < |schema[t].foreignKeys| ==>
               IsSeparate(schema, tables, t, schema[t].foreignKeys[k]);
    }
  }

  lemma SeparatedIsUnrestricted(schema: Schema, tables: seq<nat>, before: Database, n: nat, u: nat)
    requires IsSchema(schema) && MergesStandAlone(schema) && IsSeparated(schema, tables) && |before| == |schema|
    requires u < |schema|
    ensures !IsRestricted(before[u], schema[u], Lost(schema, tables, before, n)[u], Lost(schema, tables, before, n))
  {
    var lost := Lost(schema, tables, before, n);
    DoomedIsClosed(schema, before, Cleared(schema, tables, before, n), u);
    if u < n || u !in tables || IsUpsert(schema[u]) {
      forall i | 0 <= i < |schema[u].foreignKeys|
        ensures lost[schema[u].foreignKeys[i].parent] == {}
      {
        var p := schema[u].foreignKeys[i].parent;
        assert IsSeparate(schema, tables, u, schema[u].foreignKeys[i]);
        if u < n {
          LostOnlyBehind(schema, tables, before, n, p);
        } else {
          assert KeepsMergesAlone(schema, u, schema[u].foreignKeys[i]);
          MergedIsNotLost(schema, tables, before, n, p);
        }
      }
      hide Lost, AllDoomed;
      assert forall pk :: pk in before[u] ==> !RefersThrough(before[u][pk], schema[u], Restrict, lost);
    } else {
      assert IsReloaded(schema, tables, u);
    }
  }

  // ---------- Running again ----------

  lemma {:induction false} LeastReloaded(schema: Schema, tables: seq<nat>, t: nat) returns (n: nat)
    requires IsReloaded(schema, tables, t)
    ensures n <= t && IsReloaded(schema, tables, n) && forall u :: 0 <= u < n ==> !IsReloaded(schema, tables, u)
    decreases t
  {
    if u: nat :| u < t && IsReloaded(schema, tables, u) {
      n := LeastReloaded(schema, tables, u);
    } else {
      n := t;
    }
  }

  /** If nothing blocks the clearing, no row that is left restricts a row of a reloaded table. */
  lemma LeftRowsDoNotRestrict(schema: Schema, tables: seq<nat>, before: Database, t: nat, pk: int, p: nat)
    requires IsSchema(schema) && |before| == |schema| && !BlocksClearing(schema, tables, before)
    requires t < |schema| && pk in before[t] && pk !in Lost(schema, tables, before, 0)[t]
    requires IsReloaded(schema, tables, p)
    ensures !RefersThrough(before[t][pk], schema[t], Restrict, Lost(schema, tables, before, 0))
  {
    var n := LeastReloaded(schema, tables, p);
    forall u | 0 <= u < |schema|
      ensures Cleared(schema, tables, before, n)[u] == Cleared(schema, tables, before, 0)[u]
    {
    }
    assert Cleared(schema, tables, before, n) == Cleared(schema, tables, before, 0);
    assert !IsBlockedAt(schema, tables, before, n);
    assert !IsRestricted(before[t], schema[t], Lost(schema, tables, before, 0)[t], Lost(schema, tables, before, 0));
  }

  /** After a run no row left out refers to a reloaded table. */
  lemma NoReferenceIntoReloaded(schema: Schema, tables: seq<nat>, source: Source, before: Database, batchSize: int,
                                after: Database, t: nat, pk: int, i: nat)
    requires IsSchema(schema) && Commits(schema, tables, source, before, batchSize, after)
    requires t < |schema| && t !in tables && pk in after[t] && i < |schema[t].foreignKeys|
    requires IsReloaded(schema, tables, schema[t].foreignKeys[i].parent)
    ensures schema[t].foreignKeys[i].column in after[t][pk] && !after[t][pk][schema[t].foreignKeys[i].column].Int?
  {
    var def, fk, lost := schema[t], schema[t].foreignKeys[i], Lost(schema, tables, before, 0);
    var row, removed := before[t][pk], Removed(schema, source, before, MergedTables(schema, tables));
    assert TableHolds(before[t], def, before) && RowHolds(row, def, before) && ReferenceHolds(row, fk, before);
    DoomedIsClosed(schema, before, Cleared(schema, tables, before, 0), fk.parent);
    DoomedIsClosed(schema, before, Cleared(schema, tables, before, 0), t);
    LeftRowsDoNotRestrict(schema, tables, before, t, pk, fk.parent);
    NulledColumnIsOwn(row, def, i, Either(lost, removed));
    hide Lost, Copy, AllDoomed, MayCommit, IsConsistent;
    if row[fk.column].Int? {
      assert RefersInto(row, fk, lost);
      assert fk.onDelete == SetNull;
    }
  }

  /** A second clearing takes nothing that is left out. */
  lemma {:induction false} NothingMoreIsLost(schema: Schema, tables: seq<nat>, source: Source, before: Database,
                                             batchSize: int, after: Database, n: nat, t: nat)
    requires IsSchema(schema) && MergesStandAlone(schema) && Commits(schema, tables, source, before, batchSize, after)
    requires t < |schema| && !IsReloaded(schema, tables, t)
    ensures Lost(schema, tables, after, n)[t] == {}
    decreases t
  {
    var lost := Lost(schema, tables, after, n);
    DoomedIsClosed(schema, after, Cleared(schema, tables, after, n), t);
    if t in tables {
      MergedIsNotLost(schema, tables, after, n, t);
    } else {
      forall pk, i | pk in after[t] && 0 <= i < |schema[t].foreignKeys|
        ensures !RefersInto(after[t][pk], schema[t].foreignKeys[i], lost)
      {
        NothingMoreReferred(schema, tables, source, before, batchSize, after, n, t, pk, i);
      }
      assert forall pk :: pk !in lost[t];
    }
  }

  lemma {:induction false} NothingMoreReferred(schema: Schema, tables: seq<nat>, source: Source, before: Database,
                                               batchSize: int, after: Database, n: nat, t: nat, pk: int, i: nat)
    requires IsSchema(schema) && MergesStandAlone(schema) && Commits(schema, tables, source, before, batchSize, after)
    requires t < |schema| && t !in tables && pk in after[t] && i < |schema[t].foreignKeys|
    ensures !RefersInto(after[t][pk], schema[t].foreignKeys[i], Lost(schema, tables, after, n))
    decreases t, 0
  {
    var p := schema[t].foreignKeys[i].parent;
    hide Commits, Lost;
    if IsReloaded(schema, tables, p) {
      NoReferenceIntoReloaded(schema, tables, source, before, batchSize, after, t, pk, i);
    } else {
      NothingMoreIsLost(schema, tables, source, before, batchSize, after, n, p);
    }
  }

  /** No reference that is left after a run leads to a row that a second run loses or removes. */
  lemma NothingMoreIsReferred(schema: Schema, tables: seq<nat>, source: Source, before: Database, batchSize: int,
                              after: Database, n: nat, t: nat, pk: int)
    requires IsSchema(schema) && MergesStandAlone(schema) && Commits(schema, tables, source, before, batchSize, after)
    requires t < |schema| && t !in tables && pk in after[t]
    ensures var doomed := Either(Lost(schema, tables, after, n),
                                 Removed(schema, source, after, MergedTables(schema, tables)));
            NulledRow(after[t][pk], schema[t], doomed) == after[t][pk]
    ensures !RefersThrough(after[t][pk], schema[t], Restrict, Lost(schema, tables, after, n))
  {
    var lost, removed := Lost(schema, tables, after, n), Removed(schema, source, after, MergedTables(schema, tables));
    var row, def := after[t][pk], schema[t];
    forall i | 0 <= i < |def.foreignKeys|
      ensures !RefersInto(row, def.foreignKeys[i], lost)
    {
      NothingMoreReferred(schema, tables, source, before, batchSize, after, n, t, pk, i);
    }
    NothingMoreRemoved(schema, tables, source, before, batchSize, after);
    hide Lost, Removed, Commits;
    NullingNothing(row, def, lost);
    NullingNothing(row, def, Either(lost, removed));
  }

  lemma NothingMoreRemoved(schema: Schema, tables: seq<nat>, source: Source, before: Database, batchSize: int,
                           after: Database)
    requires Commits(schema, tables, source, before, batchSize, after)
    ensures forall p :: 0 <= p < |schema| ==>
              Removed(schema, source, after, MergedTables(schema, tables))[p] == {}
  {
    hide Copy;
    forall p | 0 <= p < |schema|
      ensures Removed(schema, source, after, MergedTables(schema, tables))[p] == {}
    {
      assert p in MergedTables(schema, tables) ==> after[p] == Copy(schema[p], source[p]);
    }
  }

  lemma NothingMoreIsRestricted(schema: Schema, tables: seq<nat>, source: Source, before: Database, batchSize: int,
                                after: Database, n: nat, u: nat)
    requires IsSchema(schema) && MergesStandAlone(schema) && Commits(schema, tables, source, before, batchSize, after)
    requires u < |schema|
    ensures !IsRestricted(after[u], schema[u], Lost(schema, tables, after, n)[u], Lost(schema, tables, after, n))
  {
    var lost := Lost(schema, tables, after, n);
    DoomedIsClosed(schema, after, Cleared(schema, tables, after, n), u);
    if u !in tables {
      forall pk | pk in after[u]
        ensures !RefersThrough(after[u][pk], schema[u], Restrict, lost)
      {
        NothingMoreIsReferred(schema, tables, source, before, batchSize, after, n, u, pk);
      }
    } else if IsUpsert(schema[u]) {
      MergedHasNoKeys(schema, u);
    } else if u < n {
      forall i | 0 <= i < |schema[u].foreignKeys|
        ensures lost[schema[u].foreignKeys[i].parent] == {}
      {
        LostOnlyBehind(schema, tables, after, n, schema[u].foreignKeys[i].parent);
      }
      hide Lost, AllDoomed;
      assert forall pk :: pk in after[u] ==> !RefersThrough(after[u][pk], schema[u], Restrict, lost);
    } else {
      assert IsReloaded(schema, tables, u);
    }
  }

  /** A run from the state that a run left, and from the same source, can commit too and changes nothing. */
  lemma SecondRunChangesNothing(schema: Schema, tables: seq<nat>, source: Source, before: Database, batchSize: int,
                                after: Database, again: Database)
    requires IsSchema(schema) && MergesStandAlone(schema) && Commits(schema, tables, source, before, batchSize, after)
    requires |after| == |schema| && IsSynchronised(schema, tables, source, after, again)
    ensures again == after
    ensures MayCommit(schema, tables, source, after, batchSize)
  {
    SecondRunKeepsTables(schema, tables, source, before, batchSize, after, again);
    SecondRunIsFree(schema, tables, source, before, batchSize, after);
    hide *;
  }

  lemma SecondRunKeepsTables(schema: Schema, tables: seq<nat>, source: Source, before: Database, batchSize: int,
                             after: Database, again: Database)
    requires IsSchema(schema) && MergesStandAlone(schema) && Commits(schema, tables, source, before, batchSize, after)
    requires |after| == |schema| && IsSynchronised(schema, tables, source, after, again)
    ensures again == after
  {
    hide IsSchema, MergesStandAlone, LeftTable, Copy, KeyedSource, MayCommit, IsConsistent, ForeignKeysHold;
    assert Commits(schema, tables, source, before, batchSize, after);
    forall t | 0 <= t < |schema|
      ensures again[t] == after[t]
    {
      if t !in tables {
        LeftTableStays(schema, tables, source, before, batchSize, after, t);
      }
    }
  }

  lemma LeftTableStays(schema: Schema, tables: seq<nat>, source: Source, before: Database, batchSize: int,
                       after: Database, t: nat)
    requires IsSchema(schema) && MergesStandAlone(schema) && Commits(schema, tables, source, before, batchSize, after)
    requires |after| == |schema| && t < |schema| && t !in tables && KeyedSource(schema, source)
    ensures LeftTable(schema, tables, source, after, MergedTables(schema, tables), t) == after[t]
  {
    var doomed := Either(Lost(schema, tables, after, 0), Removed(schema, source, after, MergedTables(schema, tables)));
    hide Lost, Removed, NulledRow, Commits, Copy, KeyedSource, IsSchema, MergesStandAlone, SurvivingTable, Either;
    NothingMoreIsLost(schema, tables, source, before, batchSize, after, 0, t);
    forall pk | pk in after[t]
      ensures NulledRow(after[t][pk], schema[t], doomed) == after[t][pk]
    {
      NothingMoreIsReferred(schema, tables, source, before, batchSize, after, 0, t, pk);
    }
    AllSurvive(after[t], schema[t], doomed);
  }

  lemma AllSurvive(table: Table, def: TableDef, doomed: Doomed)
    requires forall pk :: pk in table ==> NulledRow(table[pk], def, doomed) == table[pk]
    ensures SurvivingTable(table, def, {}, doomed) == table
  {
    var surviving := SurvivingTable(table, def, {}, doomed);
    forall pk | pk in table
      ensures pk in surviving && surviving[pk] == table[pk]
    {
    }
    assert forall pk :: pk in surviving <==> pk in table;
  }

  lemma SecondRunIsFree(schema: Schema, tables: seq<nat>, source: Source, before: Database, batchSize: int,
                        after: Database)
    requires IsSchema(schema) && MergesStandAlone(schema) && Commits(schema, tables, source, before, batchSize, after)
    ensures KeyedSource(schema, source) && |after| == |schema|
    ensures MayCommit(schema, tables, source, after, batchSize)
  {
    hide Copy, Lost, Removed;
    forall n: nat | n < |schema| && IsReloaded(schema, tables, n)
      ensures !IsBlockedAt(schema, tables, after, n)
    {
      forall u: nat | u < |schema|
        ensures !IsRestricted(after[u], schema[u], Lost(schema, tables, after, n)[u], Lost(schema, tables, after, n))
      {
        NothingMoreIsRestricted(schema, tables, source, before, batchSize, after, n, u);
      }
    }
    assert !BlocksClearing(schema, tables, after);
    NothingMoreRemoved(schema, tables, source, before, batchSize, after);
    assert !IsRestrictedBy(schema, tables, source, after, MergedTables(schema, tables));
    forall t: nat | t < |schema| && IsReloaded(schema, tables, t)
      ensures TableReferencesAreLeft(schema, tables, source, after, t)
    {
      ReferencesStayLeft(schema, tables, source, before, batchSize, after, t);
    }
  }

  lemma ReferencesStayLeft(schema: Schema, tables: seq<nat>, source: Source, before: Database, batchSize: int,
                           after: Database, t: nat)
    requires IsSchema(schema) && MergesStandAlone(schema) && Commits(schema, tables, source, before, batchSize, after)
    requires t < |schema| && IsReloaded(schema, tables, t)
    ensures |after| == |schema| && TableReferencesAreLeft(schema, tables, source, after, t)
  {
    assert TableReferencesAreLeft(schema, tables, source, before, t);
    forall i, k | 0 <= i < |source[t]| && 0 <= k < |schema[t].foreignKeys| && schema[t].foreignKeys[k].parent !in tables
      ensures ReferenceIsLeft(schema, tables, after, source[t][i], schema[t].foreignKeys[k])
    {
      var fk := schema[t].foreignKeys[k];
      assert ReferencesAreLeft(schema, tables, before, schema[t], source[t][i]);
      assert ReferenceIsLeft(schema, tables, before, source[t][i], fk);
      if fk.parent < |schema| {
        NothingMoreIsLost(schema, tables, source, before, batchSize, after, 0, fk.parent);
        LeftKeys(schema, tables, source, before, MergedTables(schema, tables), fk.parent);
        hide Lost, Copy, MayCommit, IsConsistent;
        assert after[fk.parent] == LeftTable(schema, tables, source, before, MergedTables(schema, tables), fk.parent);
        assert after[fk.parent].Keys == before[fk.parent].Keys - Lost(schema, tables, before, 0)[fk.parent];
      }
    }
  }
}
