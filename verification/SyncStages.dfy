/** The stages that a synchronisation run leads Oracle through: cleared, merged, loaded (sync_to_oracle.py). */
module SyncStages {
  import opened Relational
  import opened OracleSync
  import opened Clearing

  /** Merged tables refer to nothing, and no deletion cascades from them: a property of the tables' definitions. */
  predicate MergesStandAlone(schema: Schema) {
    forall t, i :: 0 <= t < |schema| && 0 <= i < |schema[t].foreignKeys| ==>
        KeepsMergesAlone(schema, t, schema[t].foreignKeys[i])
  }

  predicate KeepsMergesAlone(schema: Schema, t: nat, fk: ForeignKey)
    requires t < |schema|
  {
    !IsUpsert(schema[t]) && (fk.parent < |schema| && IsUpsert(schema[fk.parent]) ==> !fk.onDelete.Cascade?)
  }

  lemma MergedHasNoKeys(schema: Schema, t: nat)
    requires MergesStandAlone(schema) && t < |schema| && IsUpsert(schema[t])
    ensures schema[t].foreignKeys == []
  {
    assert |schema[t].foreignKeys| > 0 ==> KeepsMergesAlone(schema, t, schema[t].foreignKeys[0]);
  }

  // ---------- The stages of a run ----------

  /** Keys that leave the merged tables. */
  function Removed(schema: Schema, source: Source, oracle: Database, merged: set<nat>): (removed: Doomed)
    requires KeyedSource(schema, source) && |oracle| == |schema|
    ensures |removed| == |schema|
    ensures forall t :: 0 <= t < |schema| ==>
              removed[t] == if t in merged then oracle[t].Keys - Copy(schema[t], source[t]).Keys else {}
  {
    seq(|schema|, t requires 0 <= t < |schema| =>
        if t in merged then oracle[t].Keys - Copy(schema[t], source[t]).Keys else {})
  }

  /** A table that is left out, once everything is cleared and these tables are merged: without the lost rows, and
      without references to rows that are lost or removed. */
  function LeftTable(schema: Schema, tables: seq<nat>, source: Source, before: Database, merged: set<nat>,
                     t: nat): Table
    requires KeyedSource(schema, source) && |before| == |schema| && t < |schema|
  {
    var lost := Lost(schema, tables, before, 0);
    SurvivingTable(before[t], schema[t], lost[t], Either(lost, Removed(schema, source, before, merged)))
  }

  /** A row that is left out and left restricts the removal of a row that the source no longer has. */
  predicate IsRestrictedBy(schema: Schema, tables: seq<nat>, source: Source, before: Database, merged: set<nat>)
    requires KeyedSource(schema, source) && |before| == |schema|
  {
    exists t :: 0 <= t < |schema| && t !in tables &&
        IsRestricted(before[t], schema[t], Lost(schema, tables, before, 0)[t],
                     Removed(schema, source, before, merged))
  }

  /** Oracle after a committed run: synchronised tables copy the source; the others have lost what the clearing and the
      merging take and null, nothing else. */
  ghost predicate IsSynchronised(schema: Schema, tables: seq<nat>, source: Source, before: Database, after: Database)
    requires KeyedSource(schema, source) && |before| == |schema|
  {
    && |after| == |schema|
    && (forall t :: 0 <= t < |schema| && t in tables ==> after[t] == Copy(schema[t], source[t]))
    && (forall t :: 0 <= t < |schema| && t !in tables ==>
          after[t] == LeftTable(schema, tables, source, before, MergedTables(schema, tables), t))
  }

  /** What a synchronised table holds once it is done: all of the source where batches run forward, only the rows that
      were there already where a negative batch size leaves the insertion loop empty. */
  function Stored(schema: Schema, source: Source, before: Database, batchSize: int, t: nat): Table
    requires KeyedSource(schema, source) && |before| == |schema| && t < |schema|
  {
    var copy := Copy(schema[t], source[t]);
    if batchSize > 0 then copy
    else if IsUpsert(schema[t]) then map pk | pk in copy && pk in before[t] :: copy[pk]
    else map[]
  }

  function StageTable(schema: Schema, tables: seq<nat>, source: Source, before: Database, batchSize: int,
                      merged: set<nat>, loaded: set<nat>, t: nat): Table
    requires KeyedSource(schema, source) && |before| == |schema| && t < |schema|
  {
    if t !in tables then LeftTable(schema, tables, source, before, merged, t)
    else if IsUpsert(schema[t]) then if t in merged then Stored(schema, source, before, batchSize, t) else before[t]
    else if t in loaded then Stored(schema, source, before, batchSize, t) else map[]
  }

  /** After clearing: these tables are merged and loaded, the others not yet. */
  ghost predicate AtStage(schema: Schema, tables: seq<nat>, source: Source, before: Database, batchSize: int,
                          merged: set<nat>, loaded: set<nat>, db: Database) {
    && KeyedSource(schema, source) && |db| == |before| == |schema|
    && forall t :: 0 <= t < |schema| ==>
         db[t] == StageTable(schema, tables, source, before, batchSize, merged, loaded, t)
  }

  lemma NothingRemovedYet(schema: Schema, tables: seq<nat>, source: Source, before: Database, batchSize: int,
                          db: Database)
    requires IsSchema(schema) && MergesStandAlone(schema) && KeyedSource(schema, source)
    requires ClearedFrom(schema, tables, before, 0, db)
    ensures AtStage(schema, tables, source, before, batchSize, {}, {}, db)
  {
    var lost := Lost(schema, tables, before, 0);
    forall t | 0 <= t < |schema|
      ensures Either(lost, Removed(schema, source, before, {}))[t] == lost[t]
    {
    }
    assert Either(lost, Removed(schema, source, before, {})) == lost;
    forall t: nat | t < |schema|
      ensures db[t] == StageTable(schema, tables, source, before, batchSize, {}, {}, t)
    {
      DoomedIsClosed(schema, before, Cleared(schema, tables, before, 0), t);
      if IsUpsert(schema[t]) {
        MergedHasNoKeys(schema, t);
        assert forall pk :: pk !in lost[t];
        forall pk | pk in before[t]
          ensures NulledRow(before[t][pk], schema[t], lost) == before[t][pk]
        {
          NullingNothing(before[t][pk], schema[t], lost);
        }
        assert db[t] == before[t];
      } else if t in tables {
        assert IsReloaded(schema, tables, t);
        assert forall pk :: pk in before[t] ==> pk in lost[t];
        assert db[t] == map[];
      }
    }
  }

  // ---------- Merging a table ----------

  /** Oracle while table t is being merged: its inserts and updates are done, its deletions are not. */
  ghost predicate MidMerge(schema: Schema, tables: seq<nat>, source: Source, before: Database, batchSize: int,
                           merged: set<nat>, t: nat, db: Database) {
    && KeyedSource(schema, source) && |db| == |before| == |schema| && IsMerged(schema, tables, t) && t !in merged
    && (forall u :: 0 <= u < |schema| && u != t ==>
         db[u] == StageTable(schema, tables, source, before, batchSize, merged, {}, u))
    && Leaving(schema, source, before, t) <= db[t].Keys
    && (forall pk :: pk in db[t] && pk !in Leaving(schema, source, before, t) <==>
         pk in Stored(schema, source, before, batchSize, t))
    && (forall pk :: pk in Stored(schema, source, before, batchSize, t) ==>
         db[t][pk] == Stored(schema, source, before, batchSize, t)[pk])
  }

  /** The keys that the merge of table t deletes. */
  function Leaving(schema: Schema, source: Source, before: Database, t: nat): set<int>
    requires KeyedSource(schema, source) && |before| == |schema| && t < |schema|
  {
    before[t].Keys - Copy(schema[t], source[t]).Keys
  }

  /** Deleting rows of a merged table takes exactly these rows. */
  lemma {:induction false} MergeTakesOnly(schema: Schema, db: Database, t: nat, victims: set<int>, u: nat)
    requires IsSchema(schema) && MergesStandAlone(schema) && |db| == |schema|
    requires t < |schema| && IsUpsert(schema[t]) && victims <= db[t].Keys && u < |schema|
    ensures AllDoomed(schema, db, Only(|schema|, t, victims))[u] == Only(|schema|, t, victims)[u]
    decreases u
  {
    var doomed := AllDoomed(schema, db, Only(|schema|, t, victims));
    DoomedIsClosed(schema, db, Only(|schema|, t, victims), u);
    forall i | 0 <= i < |schema[u].foreignKeys| && schema[u].foreignKeys[i].onDelete == Cascade
      ensures doomed[schema[u].foreignKeys[i].parent] == {}
    {
      var p := schema[u].foreignKeys[i].parent;
      assert KeepsMergesAlone(schema, u, schema[u].foreignKeys[i]);
      MergeTakesOnly(schema, db, t, victims, p);
    }
    assert forall pk :: pk in doomed[u] <==> pk in Only(|schema|, t, victims)[u];
  }

  lemma OnlyVictimsDoomed(schema: Schema, db: Database, t: nat, victims: set<int>)
    requires IsSchema(schema) && MergesStandAlone(schema) && |db| == |schema|
    requires t < |schema| && IsUpsert(schema[t]) && victims <= db[t].Keys
    ensures AllDoomed(schema, db, Only(|schema|, t, victims)) == Only(|schema|, t, victims)
  {
    forall u | 0 <= u < |schema|
      ensures AllDoomed(schema, db, Only(|schema|, t, victims))[u] == Only(|schema|, t, victims)[u]
    {
      MergeTakesOnly(schema, db, t, victims, u);
    }
  }

  lemma RemovedGrows(schema: Schema, source: Source, before: Database, merged: set<nat>, t: nat)
    requires KeyedSource(schema, source) && |before| == |schema| && t < |schema| && t !in merged
    ensures Removed(schema, source, before, merged + {t})
         == Either(Removed(schema, source, before, merged), Only(|schema|, t, Leaving(schema, source, before, t)))
    ensures Removed(schema, source, before, {t}) == Only(|schema|, t, Leaving(schema, source, before, t))
  {
    hide Copy;
    forall p | 0 <= p < |schema|
      ensures Removed(schema, source, before, merged + {t})[p]
              == Removed(schema, source, before, merged)[p] + Only(|schema|, t, Leaving(schema, source, before, t))[p]
    {
    }
  }

  lemma EitherAssociates(a: Doomed, b: Doomed, c: Doomed)
    requires |a| == |b| == |c|
    ensures Either(Either(a, b), c) == Either(a, Either(b, c))
  {
    forall u | 0 <= u < |a|
      ensures Either(Either(a, b), c)[u] == Either(a, Either(b, c))[u]
    {
    }
  }

  /** A row that is left out, before and after the rows that leave table t are deleted. */
  lemma RowAfterMerge(schema: Schema, tables: seq<nat>, source: Source, before: Database, merged: set<nat>, t: nat,
                      u: nat, pk: int)
    requires IsSchema(schema) && KeyedSource(schema, source) && |before| == |schema| && t < |schema| && t !in merged
    requires u < |schema| && pk in before[u]
    ensures var lost, doomed := Lost(schema, tables, before, 0), Only(|schema|, t, Leaving(schema, source, before, t));
            var row := NulledRow(before[u][pk], schema[u], Either(lost, Removed(schema, source, before, merged)));
            && NulledRow(row, schema[u], doomed)
               == NulledRow(before[u][pk], schema[u], Either(lost, Removed(schema, source, before, merged + {t})))
            && (RefersThrough(row, schema[u], Restrict, doomed)
                <==> RefersThrough(before[u][pk], schema[u], Restrict, Removed(schema, source, before, {t})))
  {
    hide AllDoomed, Copy, NulledRow, RefersThrough, Lost;
    var lost, doomed := Lost(schema, tables, before, 0), Only(|schema|, t, Leaving(schema, source, before, t));
    var first := Either(lost, Removed(schema, source, before, merged));
    RemovedGrows(schema, source, before, merged, t);
    EitherAssociates(lost, Removed(schema, source, before, merged), doomed);
    hide Removed, Either, Only, Leaving, IsSchema;
    NulledTwice(before[u][pk], schema[u], first, doomed);
    NullingKeepsReferences(before[u][pk], schema[u], first, Restrict, doomed);
  }

  /** The deletion that ends a merge is blocked exactly by a restricting reference from a table left out. */
  lemma MergeBlockedExactly(schema: Schema, tables: seq<nat>, source: Source, before: Database, batchSize: int,
                            merged: set<nat>, t: nat, db: Database)
    requires IsSchema(schema) && MergesStandAlone(schema)
    requires MidMerge(schema, tables, source, before, batchSize, merged, t, db)
    ensures var doomed := Only(|schema|, t, Leaving(schema, source, before, t));
      IsBlocked(schema, db, doomed) <==> IsRestrictedBy(schema, tables, source, before, {t})
  {
    var doomed := Only(|schema|, t, Leaving(schema, source, before, t));
    var removed, lost := Removed(schema, source, before, {t}), Lost(schema, tables, before, 0);
    hide AllDoomed, Copy, Lost, NulledRow;
    forall u: nat | u < |schema|
      ensures IsRestricted(db[u], schema[u], doomed[u], doomed) <==>
                (u !in tables && IsRestricted(before[u], schema[u], lost[u], removed))
    {
      if IsUpsert(schema[u]) {
        MergedHasNoKeys(schema, u);
      } else if u in tables {
        assert db[u] == map[];
      } else {
        forall pk | pk in before[u] && pk !in lost[u]
          ensures RefersThrough(db[u][pk], schema[u], Restrict, doomed) <==>
                    RefersThrough(before[u][pk], schema[u], Restrict, removed)
        {
          RowAfterMerge(schema, tables, source, before, merged, t, u, pk);
        }
      }
    }
  }

  lemma MergedTableAfterMerge(schema: Schema, tables: seq<nat>, source: Source, before: Database, batchSize: int,
                              merged: set<nat>, t: nat, db: Database, u: nat)
    requires MergesStandAlone(schema) && MidMerge(schema, tables, source, before, batchSize, merged, t, db)
    requires u < |schema| && IsUpsert(schema[u]) && u in tables
    ensures var doomed := Only(|schema|, t, Leaving(schema, source, before, t));
            SurvivingTable(db[u], schema[u], doomed[u], doomed)
            == StageTable(schema, tables, source, before, batchSize, merged + {t}, {}, u)
  {
    var doomed := Only(|schema|, t, Leaving(schema, source, before, t));
    hide Copy, Lost, Stored, Leaving;
    MergedHasNoKeys(schema, u);
    forall pk | pk in db[u]
      ensures NulledRow(db[u][pk], schema[u], doomed) == db[u][pk]
    {
      NullingNothing(db[u][pk], schema[u], doomed);
    }
    var surviving := SurvivingTable(db[u], schema[u], doomed[u], doomed);
    assert forall pk :: pk in surviving <==> pk in db[u] && pk !in doomed[u];
    if u == t {
      var stored := Stored(schema, source, before, batchSize, t);
      assert forall pk :: pk in surviving <==> pk in stored;
      assert forall pk :: pk in surviving ==> surviving[pk] == stored[pk];
    } else {
      assert surviving == db[u];
    }
  }

  lemma LeftTableAfterMerge(schema: Schema, tables: seq<nat>, source: Source, before: Database, merged: set<nat>,
                            t: nat, u: nat)
    requires IsSchema(schema) && KeyedSource(schema, source) && |before| == |schema| && t < |schema| && t !in merged
    requires u < |schema| && u != t
    ensures var doomed := Only(|schema|, t, Leaving(schema, source, before, t));
            SurvivingTable(LeftTable(schema, tables, source, before, merged, u), schema[u], doomed[u], doomed)
            == LeftTable(schema, tables, source, before, merged + {t}, u)
  {
    var lost := Lost(schema, tables, before, 0);
    var doomed := Only(|schema|, t, Leaving(schema, source, before, t));
    var first := Either(lost, Removed(schema, source, before, merged));
    var both := Either(lost, Removed(schema, source, before, merged + {t}));
    hide Copy, Lost, NulledRow, Leaving, SurvivingTable, Either, Removed, IsSchema, KeyedSource;
    forall pk | pk in before[u]
      ensures NulledRow(NulledRow(before[u][pk], schema[u], first), schema[u], doomed)
              == NulledRow(before[u][pk], schema[u], both)
    {
      RowAfterMerge(schema, tables, source, before, merged, t, u, pk);
    }
    SurvivesTwice(before[u], schema[u], lost[u], first, doomed, both);
  }

  lemma SurvivesTwice(table: Table, def: TableDef, gone: set<int>, first: Doomed, second: Doomed, both: Doomed)
    requires forall pk :: pk in table ==>
               NulledRow(NulledRow(table[pk], def, first), def, second) == NulledRow(table[pk], def, both)
    ensures SurvivingTable(SurvivingTable(table, def, gone, first), def, {}, second)
            == SurvivingTable(table, def, gone, both)
  {
    hide NulledRow;
    var once, twice := SurvivingTable(table, def, gone, first), SurvivingTable(table, def, gone, both);
    forall pk
      ensures pk in SurvivingTable(once, def, {}, second) <==> pk in twice
      ensures pk in twice ==> SurvivingTable(once, def, {}, second)[pk] == twice[pk]
    {
    }
  }

  lemma TableAfterMerge(schema: Schema, tables: seq<nat>, source: Source, before: Database, batchSize: int,
                        merged: set<nat>, t: nat, db: Database, u: nat)
    requires IsSchema(schema) && MergesStandAlone(schema)
    requires MidMerge(schema, tables, source, before, batchSize, merged, t, db)
    requires u < |schema|
    ensures var doomed := Only(|schema|, t, Leaving(schema, source, before, t));
            SurvivingTable(db[u], schema[u], doomed[u], doomed)
            == StageTable(schema, tables, source, before, batchSize, merged + {t}, {}, u)
  {
    hide LeftTable, SurvivingTable, Leaving, Lost, Copy;
    if u !in tables {
      LeftTableAfterMerge(schema, tables, source, before, merged, t, u);
    } else if IsUpsert(schema[u]) {
      MergedTableAfterMerge(schema, tables, source, before, batchSize, merged, t, db, u);
    } else {
      assert db[u] == map[];
      NothingSurvives(schema[u], Only(|schema|, t, Leaving(schema, source, before, t))[u],
                      Only(|schema|, t, Leaving(schema, source, before, t)));
    }
  }

  lemma NothingSurvives(def: TableDef, gone: set<int>, doomed: Doomed)
    ensures SurvivingTable(map[], def, gone, doomed) == map[]
  {
  }

  /** The deletion that ends a merge, where it is not blocked, completes the merge. */
  lemma MergeCompletes(schema: Schema, tables: seq<nat>, source: Source, before: Database, batchSize: int,
                       merged: set<nat>, t: nat, db: Database)
    requires IsSchema(schema) && MergesStandAlone(schema)
    requires MidMerge(schema, tables, source, before, batchSize, merged, t, db)
    ensures AllDoomed(schema, db, Only(|schema|, t, Leaving(schema, source, before, t)))
            == Only(|schema|, t, Leaving(schema, source, before, t))
    ensures AtStage(schema, tables, source, before, batchSize, merged + {t}, {},
                    AfterDelete(schema, db, Only(|schema|, t, Leaving(schema, source, before, t))))
  {
    OnlyVictimsDoomed(schema, db, t, Leaving(schema, source, before, t));
    hide AllDoomed, Copy, StageTable, SurvivingTable, Leaving;
    forall u: nat | u < |schema|
      ensures var doomed := Only(|schema|, t, Leaving(schema, source, before, t));
        SurvivingTable(db[u], schema[u], doomed[u], doomed) == StageTable(schema, tables, source, before, batchSize,
                                                                          merged + {t}, {}, u)
    {
      TableAfterMerge(schema, tables, source, before, batchSize, merged, t, db, u);
    }
  }

  /** A merge that deletes nothing is complete, and nothing restricts it. */
  lemma MergeWithoutDeletion(schema: Schema, tables: seq<nat>, source: Source, before: Database, batchSize: int,
                             merged: set<nat>, t: nat, db: Database)
    requires IsSchema(schema) && MergesStandAlone(schema)
    requires MidMerge(schema, tables, source, before, batchSize, merged, t, db)
    requires |db| == |schema| && Leaving(schema, source, before, t) == {}
    ensures AtStage(schema, tables, source, before, batchSize, merged + {t}, {}, db)
    ensures !IsRestrictedBy(schema, tables, source, before, {t})
  {
    var doomed := Only(|schema|, t, {});
    hide *;
    MergeBlockedExactly(schema, tables, source, before, batchSize, merged, t, db);
    MergeCompletes(schema, tables, source, before, batchSize, merged, t, db);
    NothingDoomed(schema, db, doomed);
  }

  lemma NothingDoomed(schema: Schema, db: Database, doomed: Doomed)
    requires |db| == |schema| == |doomed| && forall u :: 0 <= u < |schema| ==> doomed[u] == {}
    ensures AfterDelete(schema, db, doomed) == db && !IsBlocked(schema, db, doomed)
  {
    forall u: nat, pk | u < |schema| && pk in db[u]
      ensures NulledRow(db[u][pk], schema[u], doomed) == db[u][pk]
      ensures !RefersThrough(db[u][pk], schema[u], Restrict, doomed)
    {
      NullingNothing(db[u][pk], schema[u], doomed);
    }
    forall u | 0 <= u < |schema|
      ensures SurvivingTable(db[u], schema[u], doomed[u], doomed) == db[u]
    {
    }
  }

  lemma RestrictionsAddUp(schema: Schema, tables: seq<nat>, source: Source, before: Database, merged: set<nat>, t: nat)
    requires KeyedSource(schema, source) && |before| == |schema| && t < |schema| && t !in merged
    ensures IsRestrictedBy(schema, tables, source, before, merged + {t})
            <==> (IsRestrictedBy(schema, tables, source, before, merged)
                  || IsRestrictedBy(schema, tables, source, before, {t}))
  {
    var first, second := Removed(schema, source, before, merged), Removed(schema, source, before, {t});
    var both, lost := Removed(schema, source, before, merged + {t}), Lost(schema, tables, before, 0);
    RemovedGrows(schema, source, before, merged, t);
    hide AllDoomed, Copy, Lost, Removed, Leaving;
    forall u: nat | u < |schema|
      ensures IsRestricted(before[u], schema[u], lost[u], both)
              <==> (IsRestricted(before[u], schema[u], lost[u], first)
                    || IsRestricted(before[u], schema[u], lost[u], second))
    {
      forall pk | pk in before[u]
        ensures RefersThrough(before[u][pk], schema[u], Restrict, both)
                <==> (RefersThrough(before[u][pk], schema[u], Restrict, first)
                      || RefersThrough(before[u][pk], schema[u], Restrict, second))
      {
        RefersThroughEither(before[u][pk], schema[u], Restrict, first, second);
      }
    }
  }

  /** More removed rows restrict no less. */
  lemma RestrictionsGrow(schema: Schema, tables: seq<nat>, source: Source, before: Database, some: set<nat>,
                         all: set<nat>)
    requires KeyedSource(schema, source) && |before| == |schema| && some <= all
    requires IsRestrictedBy(schema, tables, source, before, some)
    ensures IsRestrictedBy(schema, tables, source, before, all)
  {
    hide Copy, AllDoomed, Lost, RefersThrough;
    var removed, more := Removed(schema, source, before, some), Removed(schema, source, before, all);
    var lost := Lost(schema, tables, before, 0);
    var u: nat :| u < |schema| && u !in tables && IsRestricted(before[u], schema[u], lost[u], removed);
    var pk :| pk in before[u] && pk !in lost[u] && RefersThrough(before[u][pk], schema[u], Restrict, removed);
    RefersThroughMore(before[u][pk], schema[u], Restrict, removed, more);
    assert IsRestricted(before[u], schema[u], lost[u], more);
  }
}
