/** `run_sync` as one transaction, and what its commit means (sync_to_oracle.py). */
module Synchronisation {
  import opened Sets
  import opened Wrappers
  import opened Relational
  import opened OracleSync
  import opened Clearing
  import opened SyncStages
  import opened SyncRun
  import opened StoredRows

  /** Nothing would have to be inserted: what a negative batch size, whose insertion loops are empty, can still copy. */
  ghost predicate NothingToInsert(schema: Schema, tables: seq<nat>, source: Source, before: Database)
    requires KeyedSource(schema, source) && |before| == |schema|
  {
    forall t :: t in tables && t < |schema| ==>
      if IsUpsert(schema[t]) then Copy(schema[t], source[t]).Keys <= before[t].Keys else source[t] == []
  }

  ghost predicate BatchSizeFits(schema: Schema, tables: seq<nat>, source: Source, before: Database, batchSize: int)
    requires KeyedSource(schema, source) && |before| == |schema|
  {
    batchSize > 0 || tables == [] || (batchSize < 0 && NothingToInsert(schema, tables, source, before))
  }

  predicate InOrder(schema: Schema, tables: seq<nat>) {
    && (forall i :: 0 <= i < |tables| ==> tables[i] < |schema|)
    && (forall i, j :: 0 <= i < j < |tables| ==> tables[i] < tables[j])
  }

  // ---------- The phases ----------

  method ClearTables(oracle: OracleConnection, tables: seq<nat>, ghost before: Database) returns (ok: bool)
    requires oracle.Valid() && InOrder(oracle.schema, tables)
    requires oracle.db == before
    modifies oracle
    ensures oracle.Valid() && oracle.executed >= old(oracle.executed) && |before| == |oracle.schema|
    ensures ok <==> && NoFaults(oracle.fails, old(oracle.executed), oracle.executed)
                    && !BlocksClearing(oracle.schema, tables, before)
    ensures ok ==> ClearedFrom(oracle.schema, tables, before, 0, oracle.db)
  {
    assert |before| == |oracle.schema|;
    hide AllDoomed, AfterDelete, IsBlocked, ForeignKeysHold, ClearedFrom, Only, InOrder;
    hide IsClearedTo, BlocksClearing, IsAhead, IsReloaded, IsSchema, NoFaults;
    ghost var from: nat := |oracle.schema|;
    StartClearing(oracle.schema, tables, before);
    NoStatement(oracle.fails, oracle.executed);
    for i := |tables| downto 0
      invariant oracle.Valid() && oracle.executed >= old(oracle.executed)
      invariant NoFaults(oracle.fails, old(oracle.executed), oracle.executed)
      invariant IsClearedTo(oracle.schema, tables, before, from, oracle.db)
      invariant IsAhead(oracle.schema, tables, from, i)
    {
      StepBack(oracle.schema, tables, from, i);
      var t := tables[i];
      if !IsUpsert(oracle.schema[t]) {
        ghost var begun := oracle.executed;
        ok := ClearTable(oracle, tables, t, before, from);
        MoreStatements(oracle.fails, old(oracle.executed), begun, oracle.executed);
        if !ok {
          return;
        }
        from := t;
      }
    }
    EverythingCleared(oracle.schema, tables, before, from, oracle.db);
    ok := true;
  }

  /** Empties one table, after those behind it. */
  method ClearTable(oracle: OracleConnection, tables: seq<nat>, t: nat, ghost before: Database, ghost from: nat)
    returns (ok: bool)
    requires oracle.Valid() && IsClearedTo(oracle.schema, tables, before, from, oracle.db)
    requires IsReloaded(oracle.schema, tables, t) && t < from
    requires forall u :: t < u < from ==> !IsReloaded(oracle.schema, tables, u)
    modifies oracle
    ensures oracle.Valid() && oracle.executed >= old(oracle.executed) && |before| == |oracle.schema|
    ensures ok ==> && NoFaults(oracle.fails, old(oracle.executed), oracle.executed)
                   && IsClearedTo(oracle.schema, tables, before, t, oracle.db)
    ensures !ok ==> || !NoFaults(oracle.fails, old(oracle.executed), oracle.executed)
                    || BlocksClearing(oracle.schema, tables, before)
  {
    assert t < |oracle.schema|;
    hide AllDoomed, AfterDelete, IsBlocked, ForeignKeysHold, IsClearedTo, BlocksClearing, IsSchema, Only, IsReloaded;
    hide TableHolds, ClearedFrom, IsBlockedAt, NoneBlocksFrom;
    hide NoFaults;
    ClearTo(oracle.schema, tables, before, from, t, oracle.db);
    OneStatement(oracle.fails, oracle.executed);
    ok := oracle.Delete(t, oracle.db[t].Keys);
  }

  /** Everything from `from` on is cleared, and nothing blocked it. */
  ghost predicate IsClearedTo(schema: Schema, tables: seq<nat>, before: Database, from: nat, db: Database) {
    && ClearedFrom(schema, tables, before, from, db) && !IsBlockedAt(schema, tables, before, from)
    && NoneBlocksFrom(schema, tables, before, from)
  }

  ghost predicate NoneBlocksFrom(schema: Schema, tables: seq<nat>, before: Database, from: nat)
    requires |before| == |schema|
  {
    forall n :: from <= n < |schema| && IsReloaded(schema, tables, n) ==> !IsBlockedAt(schema, tables, before, n)
  }

  lemma ClearTo(schema: Schema, tables: seq<nat>, before: Database, from: nat, t: nat, db: Database)
    requires IsSchema(schema) && IsClearedTo(schema, tables, before, from, db)
    requires IsReloaded(schema, tables, t) && t < from && forall u :: t < u < from ==> !IsReloaded(schema, tables, u)
    ensures |db| == |schema| == |before|
    ensures var doomed := AllDoomed(schema, db, Only(|schema|, t, db[t].Keys));
            && (IsBlocked(schema, db, doomed) ==> BlocksClearing(schema, tables, before))
            && (!IsBlocked(schema, db, doomed) ==>
                  IsClearedTo(schema, tables, before, t, AfterDelete(schema, db, doomed)))
  {
    assert |before| == |schema|;
    hide AllDoomed, AfterDelete, IsBlocked, ClearedFrom, IsBlockedAt, IsSchema, Only, IsReloaded;
    ClearNextTable(schema, tables, before, from, t, db);
    NoneBlocksUpTo(schema, tables, before, from, t);
    hide NoneBlocksFrom, BlocksClearing;
  }

  lemma NoneBlocksUpTo(schema: Schema, tables: seq<nat>, before: Database, from: nat, t: nat)
    requires |before| == |schema| && NoneBlocksFrom(schema, tables, before, from)
    requires IsReloaded(schema, tables, t) && t < from && forall u :: t < u < from ==> !IsReloaded(schema, tables, u)
    ensures if IsBlockedAt(schema, tables, before, t) then BlocksClearing(schema, tables, before)
            else NoneBlocksFrom(schema, tables, before, t)
  {
    assert t < |schema|;
    hide IsBlockedAt, IsReloaded;
  }

  /** The first i tables stand before `from`, and so do no other reloaded tables. */
  ghost predicate IsAhead(schema: Schema, tables: seq<nat>, from: nat, i: nat) {
    && i <= |tables| && from <= |schema|
    && (forall k :: 0 <= k < i ==> tables[k] < from)
    && (forall u: nat :: u < from && IsReloaded(schema, tables, u) ==> u in tables[..i])
  }

  lemma StartClearing(schema: Schema, tables: seq<nat>, before: Database)
    requires IsSchema(schema) && InOrder(schema, tables) && |before| == |schema|
    ensures IsClearedTo(schema, tables, before, |schema|, before) && IsAhead(schema, tables, |schema|, |tables|)
  {
    assert tables[..|tables|] == tables;
    NothingClearedYet(schema, tables, before);
    hide ClearedFrom, IsBlockedAt;
  }

  lemma StepBack(schema: Schema, tables: seq<nat>, from: nat, i: nat)
    requires InOrder(schema, tables) && i < |tables| && IsAhead(schema, tables, from, i + 1)
    ensures tables[i] < from && tables[i] < |schema|
    ensures IsUpsert(schema[tables[i]]) ==> IsAhead(schema, tables, from, i)
    ensures !IsUpsert(schema[tables[i]]) ==>
              && IsAhead(schema, tables, tables[i], i)
              && IsReloaded(schema, tables, tables[i])
              && forall u :: tables[i] < u < from ==> !IsReloaded(schema, tables, u)
  {
    assert tables[..i + 1] == tables[..i] + [tables[i]];
    assert forall u :: u in tables[..i] ==> u < tables[i];
  }

  lemma EverythingCleared(schema: Schema, tables: seq<nat>, before: Database, from: nat, db: Database)
    requires IsClearedTo(schema, tables, before, from, db) && IsAhead(schema, tables, from, 0)
    ensures |before| == |schema|
    ensures ClearedFrom(schema, tables, before, 0, db) && !BlocksClearing(schema, tables, before)
  {
    forall u | 0 <= u < |schema|
      ensures Cleared(schema, tables, before, from)[u] == Cleared(schema, tables, before, 0)[u]
    {
    }
    assert Cleared(schema, tables, before, from) == Cleared(schema, tables, before, 0);
    hide IsBlockedAt;
  }

  method MergeTables(source: Source, oracle: OracleConnection, tables: seq<nat>, batchSize: int, ghost before: Database)
    returns (r: Result<map<nat, nat>, SyncError>)
    requires oracle.Valid() && MergesStandAlone(oracle.schema) && InOrder(oracle.schema, tables)
    requires |before| == |source| == |oracle.schema| && KeyedSource(oracle.schema, source)
    requires AtStage(oracle.schema, tables, source, before, batchSize, {}, {}, oracle.db)
    modifies oracle
    ensures oracle.Valid() && oracle.executed >= old(oracle.executed)
    ensures r.Ok? <==> && NoFaults(oracle.fails, old(oracle.executed), oracle.executed)
                       && (batchSize != 0 || MergedTables(oracle.schema, tables) == {})
                       && !IsRestrictedBy(oracle.schema, tables, source, before, MergedTables(oracle.schema, tables))
    ensures r.Err? ==> r.error != CountMismatch
    ensures r.Ok? ==> AtStage(oracle.schema, tables, source, before, batchSize, MergedTables(oracle.schema, tables),
                              {}, oracle.db)
    ensures r.Ok? ==> CountsAre(r.value, MergedTables(oracle.schema, tables), source)
  {
    hide MergesStandAlone, AtStage, IsRestrictedBy, KeyedSource, TableHolds, IsSchema, NoFaults;
    var counts: map<nat, nat> := map[];
    ghost var merged: set<nat> := {};
    NoStatement(oracle.fails, oracle.executed);
    ghost var all := MergedTables(oracle.schema, tables);
    NothingRestrictsNothing(oracle.schema, tables, source, before);
    for i := 0 to |tables|
      invariant oracle.Valid() && oracle.executed >= old(oracle.executed)
      invariant NoFaults(oracle.fails, old(oracle.executed), oracle.executed)
      invariant batchSize != 0 || merged == {}
      invariant !IsRestrictedBy(oracle.schema, tables, source, before, merged)
      invariant forall t :: t in merged <==> t in tables[..i] && IsMerged(oracle.schema, tables, t)
      invariant AtStage(oracle.schema, tables, source, before, batchSize, merged, {}, oracle.db)
      invariant CountsAre(counts, merged, source)
    {
      var t := tables[i];
      assert tables[..i + 1] == tables[..i] + [t];
      assert t !in tables[..i];
      if IsUpsert(oracle.schema[t]) {
        assert t in all && IsMerged(oracle.schema, tables, t);
        ghost var begun := oracle.executed;
        var count := UpsertTable(source, oracle, tables, t, batchSize, before, merged);
        MoreStatements(oracle.fails, old(oracle.executed), begun, oracle.executed);
        if count.Err? {
          if IsRestrictedBy(oracle.schema, tables, source, before, {t}) {
            RestrictionsGrow(oracle.schema, tables, source, before, {t}, all);
          }
          return Err(count.error);
        }
        RestrictionsAddUp(oracle.schema, tables, source, before, merged, t);
        AddCount(counts, merged, source, t);
        counts := counts[t := count.value];
        merged := merged + {t};
      }
    }
    assert tables[..|tables|] == tables;
    assert merged == all;
    return Ok(counts);
  }

  lemma NothingRestrictsNothing(schema: Schema, tables: seq<nat>, source: Source, before: Database)
    requires KeyedSource(schema, source) && |before| == |schema|
    ensures !IsRestrictedBy(schema, tables, source, before, {})
  {
    forall u: nat, pk | u < |schema| && pk in before[u]
      ensures !RefersThrough(before[u][pk], schema[u], Restrict, Removed(schema, source, before, {}))
    {
      NullingNothing(before[u][pk], schema[u], Removed(schema, source, before, {}));
    }
  }

  ghost function ReloadedAmong(schema: Schema, tables: seq<nat>, n: nat): (loaded: set<nat>)
    requires n <= |tables|
    ensures forall t :: t in loaded <==> t in tables[..n] && IsReloaded(schema, tables, t)
  {
    set t | t in tables[..n] && IsReloaded(schema, tables, t)
  }

  method LoadTables(source: Source, oracle: OracleConnection, tables: seq<nat>, batchSize: int, ghost before: Database)
    returns (r: Result<map<nat, nat>, SyncError>)
    requires oracle.Valid() && InOrder(oracle.schema, tables)
    requires IsConsistent(oracle.schema, source) && |source| == |oracle.schema|
    requires AtStage(oracle.schema, tables, source, before, batchSize, MergedTables(oracle.schema, tables), {},
                     oracle.db)
    modifies oracle
    ensures oracle.Valid() && oracle.executed >= old(oracle.executed) && |before| == |oracle.schema|
    ensures r.Ok? <==> && NoFaults(oracle.fails, old(oracle.executed), oracle.executed)
                       && (batchSize != 0 || ReloadedAmong(oracle.schema, tables, |tables|) == {})
                       && (batchSize > 0 ==> AllReferencesAreLeft(oracle.schema, tables, source, before))
    ensures r.Err? ==> r.error != CountMismatch
    ensures r.Ok? ==> AtStage(oracle.schema, tables, source, before, batchSize, MergedTables(oracle.schema, tables),
                              ReloadedAmong(oracle.schema, tables, |tables|), oracle.db)
    ensures r.Ok? ==> CountsAre(r.value, ReloadedAmong(oracle.schema, tables, |tables|), source)
  {
    hide *;
    LengthsAgree(oracle.schema, tables, source, before, batchSize, oracle.db);
    NothingLoadedYet(oracle.schema, tables, source, before);
    NoStatement(oracle.fails, oracle.executed);
    var counts: map<nat, nat> := map[];
    ghost var merged, loaded: set<nat> := MergedTables(oracle.schema, tables), {};
    for i := 0 to |tables|
      invariant oracle.Valid() && oracle.executed >= old(oracle.executed)
      invariant NoFaults(oracle.fails, old(oracle.executed), oracle.executed)
      invariant batchSize != 0 || loaded == {}
      invariant loaded == ReloadedAmong(oracle.schema, tables, i)
      invariant AtStage(oracle.schema, tables, source, before, batchSize, merged, loaded, oracle.db)
      invariant CountsAre(counts, loaded, source)
      invariant batchSize > 0 ==> ReferencesLeftAmong(oracle.schema, tables, source, before, i)
    {
      LoadedStep(oracle.schema, tables, i);
      var t := tables[i];
      if !IsUpsert(oracle.schema[t]) {
        EarlierTablesAreLoaded(oracle.schema, tables, i);
        OneMoreTableLeft(oracle.schema, tables, source, before, i);
        ghost var begun := oracle.executed;
        var count := LoadTable(source, oracle, tables, t, batchSize, before, merged, loaded);
        MoreStatements(oracle.fails, old(oracle.executed), begun, oracle.executed);
        if count.Err? {
          return Err(count.error);
        }
        AddCount(counts, loaded, source, t);
        counts := counts[t := count.value];
        loaded := loaded + {t};
      } else {
        MergedTableLeft(oracle.schema, tables, source, before, i);
      }
    }
    AllTablesLeft(oracle.schema, tables, source, before);
    return Ok(counts);
  }

  /** Every reference of a row to be loaded into a table that is left out finds its row there after the clearing. */
  predicate AllReferencesAreLeft(schema: Schema, tables: seq<nat>, source: Source, before: Database)
    requires |before| == |schema| == |source|
  {
    forall t :: 0 <= t < |schema| && IsReloaded(schema, tables, t) ==>
        TableReferencesAreLeft(schema, tables, source, before, t)
  }

  ghost predicate ReferencesLeftAmong(schema: Schema, tables: seq<nat>, source: Source, before: Database, n: nat)
    requires |before| == |schema| == |source| && n <= |tables|
  {
    forall t :: t in tables[..n] && IsReloaded(schema, tables, t) ==>
        TableReferencesAreLeft(schema, tables, source, before, t)
  }

  lemma NothingLoadedYet(schema: Schema, tables: seq<nat>, source: Source, before: Database)
    requires |before| == |schema| == |source|
    ensures ReloadedAmong(schema, tables, 0) == {} && CountsAre(map[], {}, source)
    ensures ReferencesLeftAmong(schema, tables, source, before, 0)
  {
    hide TableReferencesAreLeft;
  }

  lemma LengthsAgree(schema: Schema, tables: seq<nat>, source: Source, before: Database, batchSize: int, db: Database)
    requires AtStage(schema, tables, source, before, batchSize, MergedTables(schema, tables), {}, db)
    ensures |before| == |schema| == |source|
  {
  }

  lemma OneMoreTableLeft(schema: Schema, tables: seq<nat>, source: Source, before: Database, i: nat)
    requires |before| == |schema| == |source| && i < |tables| && IsReloaded(schema, tables, tables[i])
    ensures ReferencesLeftAmong(schema, tables, source, before, i + 1)
            <==> (ReferencesLeftAmong(schema, tables, source, before, i)
                  && TableReferencesAreLeft(schema, tables, source, before, tables[i]))
    ensures !TableReferencesAreLeft(schema, tables, source, before, tables[i])
            ==> !AllReferencesAreLeft(schema, tables, source, before)
  {
    assert tables[..i + 1] == tables[..i] + [tables[i]];
    hide TableReferencesAreLeft;
  }

  lemma MergedTableLeft(schema: Schema, tables: seq<nat>, source: Source, before: Database, i: nat)
    requires |before| == |schema| == |source| && i < |tables| && tables[i] < |schema| && IsUpsert(schema[tables[i]])
    ensures ReferencesLeftAmong(schema, tables, source, before, i + 1)
            <==> ReferencesLeftAmong(schema, tables, source, before, i)
  {
    assert tables[..i + 1] == tables[..i] + [tables[i]];
    hide TableReferencesAreLeft;
  }

  lemma AllTablesLeft(schema: Schema, tables: seq<nat>, source: Source, before: Database)
    requires |before| == |schema| == |source|
    ensures ReferencesLeftAmong(schema, tables, source, before, |tables|)
            <==> AllReferencesAreLeft(schema, tables, source, before)
  {
    assert tables[..|tables|] == tables;
    hide TableReferencesAreLeft;
  }

  ghost predicate CountsAre(counts: map<nat, nat>, tables: set<nat>, source: Source) {
    counts.Keys == tables && forall t :: t in tables ==> t < |source| && counts[t] == |source[t]|
  }

  lemma AddCount(counts: map<nat, nat>, tables: set<nat>, source: Source, t: nat)
    requires CountsAre(counts, tables, source) && t < |source|
    ensures CountsAre(counts[t := |source[t]|], tables + {t}, source)
  {
  }

  lemma LoadedStep(schema: Schema, tables: seq<nat>, i: nat)
    requires InOrder(schema, tables) && i < |tables|
    ensures tables[i] < |schema|
    ensures var t, loaded := tables[i], ReloadedAmong(schema, tables, i);
            && t !in loaded
            && ReloadedAmong(schema, tables, i + 1) == (if IsUpsert(schema[t]) then loaded else loaded + {t})
            && (!IsUpsert(schema[t]) ==>
                  IsReloaded(schema, tables, t) && t in ReloadedAmong(schema, tables, |tables|))
  {
    assert tables[..i + 1] == tables[..i] + [tables[i]];
    assert tables[..|tables|] == tables;
    assert forall u :: u in tables[..i] ==> u < tables[i];
  }

  lemma EarlierTablesAreLoaded(schema: Schema, tables: seq<nat>, i: nat)
    requires InOrder(schema, tables) && i < |tables|
    ensures forall u: nat :: u < tables[i] && IsReloaded(schema, tables, u) ==> u in ReloadedAmong(schema, tables, i)
  {
    forall u: nat | u < tables[i] && IsReloaded(schema, tables, u)
      ensures u in tables[..i]
    {
      var k :| 0 <= k < |tables| && tables[k] == u;
      assert k < i;
      assert tables[..i][k] == u;
    }
  }

  // ---------- The row counts ----------

  predicate CountsMatch(tables: seq<nat>, counts: map<nat, nat>, db: Database) {
    forall t :: t in tables ==> t < |db| && t in counts && |db[t]| == counts[t]
  }

  method CheckCounts(oracle: OracleConnection, tables: seq<nat>, counts: map<nat, nat>)
    returns (r: Result<bool, SyncError>)
    requires oracle.Valid() && InOrder(oracle.schema, tables) && forall t :: t in tables ==> t in counts
    modifies oracle`executed
    ensures oracle.Valid() && oracle.executed >= old(oracle.executed)
    ensures r.Ok? <==> NoFaults(oracle.fails, old(oracle.executed), oracle.executed)
    ensures r.Err? ==> r.error != CountMismatch
    ensures r.Ok? ==> r.value == CountsMatch(tables, counts, oracle.db)
  {
    hide IsSchema, TableHolds, NoFaults;
    NoStatement(oracle.fails, oracle.executed);
    var matching := true;
    for i := 0 to |tables|
      invariant oracle.Valid() && oracle.executed >= old(oracle.executed)
      invariant NoFaults(oracle.fails, old(oracle.executed), oracle.executed)
      invariant matching == CountsMatch(tables[..i], counts, oracle.db)
    {
      assert tables[..i + 1] == tables[..i] + [tables[i]];
      OneStatement(oracle.fails, oracle.executed);
      MoreStatements(oracle.fails, old(oracle.executed), oracle.executed, oracle.executed + 1);
      var ok := oracle.Query();
      if !ok {
        return Err(StatementFailed);
      }
      if |oracle.db[tables[i]]| != counts[tables[i]] {
        matching := false;
      }
    }
    assert tables[..|tables|] == tables;
    return Ok(matching);
  }

  /** All merged and reloaded tables are done. */
  ghost predicate AtEnd(schema: Schema, tables: seq<nat>, source: Source, before: Database, batchSize: int,
                        db: Database)
  {
    AtStage(schema, tables, source, before, batchSize, MergedTables(schema, tables),
            ReloadedAmong(schema, tables, |tables|), db)
  }

  lemma StoredAtEnd(schema: Schema, tables: seq<nat>, source: Source, before: Database, batchSize: int, db: Database,
                    t: nat)
    requires InOrder(schema, tables) && AtEnd(schema, tables, source, before, batchSize, db) && t in tables
    ensures t < |schema| == |db| == |before| && KeyedSource(schema, source)
    ensures db[t] == Stored(schema, source, before, batchSize, t)
  {
    assert tables[..|tables|] == tables;
    assert t in MergedTables(schema, tables) <==> IsMerged(schema, tables, t);
  }

  lemma SubmapOfSameSize(small: Table, large: Table)
    requires forall pk :: pk in small ==> pk in large && small[pk] == large[pk]
    requires |small| == |large|
    ensures small == large
  {
    assert |small| == |small.Keys| && |large| == |large.Keys|;
    forall pk | pk in small.Keys
      ensures pk in large.Keys
    {
      assert small[pk] == large[pk];
    }
    SubsetOfSameSize(small.Keys, large.Keys);
    forall pk | pk in large
      ensures pk in small && small[pk] == large[pk]
    {
      assert pk in small.Keys;
    }
  }

  /** A stored table has as many rows as the source exactly when it is the whole copy. */
  lemma CountMatchesExactly(schema: Schema, source: Source, before: Database, batchSize: int, t: nat)
    requires IsConsistent(schema, source) && KeyedSource(schema, source) && |before| == |schema| && t < |schema|
    ensures |Stored(schema, source, before, batchSize, t)| == |source[t]|
            <==> (batchSize > 0
                  || if IsUpsert(schema[t]) then Copy(schema[t], source[t]).Keys <= before[t].Keys else source[t] == [])
    ensures |Stored(schema, source, before, batchSize, t)| == |source[t]|
        ==> Stored(schema, source, before, batchSize, t) == Copy(schema[t], source[t])
  {
    hide Copy, IsConsistent;
    KeyedTable(schema, source, t);
    HasSourceKeys(schema, source, t);
    CopyNames(schema[t], source[t], 0);
    var copy, stored := Copy(schema[t], source[t]), Stored(schema, source, before, batchSize, t);
    if |stored| == |copy| {
      SubmapOfSameSize(stored, copy);
      assert stored.Keys == copy.Keys;
    }
    if batchSize <= 0 && IsUpsert(schema[t]) && copy.Keys <= before[t].Keys {
      assert stored.Keys == copy.Keys;
    }
  }

  lemma HasSourceKeys(schema: Schema, source: Source, t: nat)
    requires IsConsistent(schema, source) && t < |schema|
    ensures HasKeys(schema[t], source[t])
  {
  }

  /** The count check passes exactly for batch sizes that copy everything, and then everything is copied. */
  lemma CountCheckIsExact(schema: Schema, tables: seq<nat>, source: Source, before: Database, batchSize: int,
                          db: Database, counts: map<nat, nat>)
    requires IsConsistent(schema, source) && InOrder(schema, tables)
    requires AtEnd(schema, tables, source, before, batchSize, db)
    requires KeyedSource(schema, source) && |before| == |schema| == |source| && (batchSize != 0 || tables == [])
    requires HasCounts(tables, counts, source)
    ensures CountsMatch(tables, counts, db) <==> BatchSizeFits(schema, tables, source, before, batchSize)
    ensures CountsMatch(tables, counts, db) ==> IsSynchronised(schema, tables, source, before, db)
  {
    hide AtEnd, IsConsistent, Stored, Copy;
    forall t | t in tables
      ensures t < |schema| == |db|
      ensures |db[t]| == counts[t] <==>
                batchSize > 0
                || if IsUpsert(schema[t]) then Copy(schema[t], source[t]).Keys <= before[t].Keys else source[t] == []
      ensures |db[t]| == counts[t] ==> db[t] == Copy(schema[t], source[t])
    {
      StoredAtEnd(schema, tables, source, before, batchSize, db, t);
      CountMatchesExactly(schema, source, before, batchSize, t);
    }
    OthersAtEnd(schema, tables, source, before, batchSize, db);
  }

  lemma OthersAtEnd(schema: Schema, tables: seq<nat>, source: Source, before: Database, batchSize: int, db: Database)
    requires AtEnd(schema, tables, source, before, batchSize, db)
    ensures |db| == |schema| && forall t :: 0 <= t < |schema| && t !in tables ==>
              db[t] == LeftTable(schema, tables, source, before, MergedTables(schema, tables), t)
  {
  }

  // ---------- The run ----------

  /** Nothing but a failing statement stands against a commit: no row that is left out restricts the clearing or a
      merge, what is loaded finds the rows it refers to, and the batch size lets everything be inserted. */
  ghost predicate MayCommit(schema: Schema, tables: seq<nat>, source: Source, before: Database, batchSize: int)
    requires KeyedSource(schema, source) && |before| == |schema|
  {
    && !BlocksClearing(schema, tables, before)
    && !IsRestrictedBy(schema, tables, source, before, MergedTables(schema, tables))
    && AllReferencesAreLeft(schema, tables, source, before)
    && BatchSizeFits(schema, tables, source, before, batchSize)
  }

  /** One transaction over any choice of tables. It commits exactly when no statement fails and nothing else stands
      against it; then Oracle is synchronised. Otherwise it is unchanged. */
  method RunSync(source: Source, oracle: OracleConnection, tables: seq<nat>, batchSize: int)
    returns (r: Result<map<nat, nat>, SyncError>)
    requires oracle.Valid() && MergesStandAlone(oracle.schema) && InOrder(oracle.schema, tables)
    requires IsConsistent(oracle.schema, source) && KeyedSource(oracle.schema, source)
    requires |source| == |oracle.schema| == |oracle.db|
    modifies oracle
    ensures oracle.Valid() && oracle.executed >= old(oracle.executed) && |old(oracle.db)| == |oracle.schema|
    ensures r.Ok? <==> && NoFaults(oracle.fails, old(oracle.executed), oracle.executed)
                       && MayCommit(oracle.schema, tables, source, old(oracle.db), batchSize)
    ensures r.Ok? ==> IsSynchronised(oracle.schema, tables, source, old(oracle.db), oracle.db)
    ensures r.Ok? ==> HoldSource(oracle.schema, tables, source, oracle.db)
    ensures r.Ok? ==> HasCounts(tables, r.value, source)
    ensures r.Err? ==> oracle.db == old(oracle.db)
    ensures r == Err(CountMismatch) ==> batchSize < 0
  {
    ghost var before := oracle.db;
    var begin := oracle.db;
    r := Reload(source, oracle, tables, batchSize, before);
    if r.Err? {
      oracle.db := begin;
    } else {
      CommittedRowsHold(oracle.schema, tables, source, before, oracle.db);
    }
  }

  /** The statements between BEGIN and COMMIT. */
  method Reload(source: Source, oracle: OracleConnection, tables: seq<nat>, batchSize: int, ghost before: Database)
    returns (r: Result<map<nat, nat>, SyncError>)
    requires oracle.Valid() && MergesStandAlone(oracle.schema) && InOrder(oracle.schema, tables)
    requires IsConsistent(oracle.schema, source) && KeyedSource(oracle.schema, source)
    requires oracle.db == before && |source| == |oracle.schema| == |before|
    modifies oracle
    ensures oracle.Valid() && oracle.executed >= old(oracle.executed)
    ensures r.Ok? <==> && NoFaults(oracle.fails, old(oracle.executed), oracle.executed)
                       && MayCommit(oracle.schema, tables, source, before, batchSize)
    ensures r.Ok? ==> IsSynchronised(oracle.schema, tables, source, before, oracle.db)
    ensures r.Ok? ==> HasCounts(tables, r.value, source)
    ensures r == Err(CountMismatch) ==> batchSize < 0
  {
    MayCommitParts(oracle.schema, tables, source, before, batchSize);
    hide MergesStandAlone, AtStage, IsConsistent, KeyedSource, IsSynchronised, TableHolds, IsSchema, MayCommit;
    hide ClearedFrom, BatchSizeFits, BlocksClearing, HasCounts, ForeignKeysHold, InOrder, CountsMatch, MayRefill, AtEnd;
    hide NoFaults, HaveUniqueKeys, ReferencesHoldInSource;
    var cleared := ClearTables(oracle, tables, before);
    ghost var begun := oracle.executed;
    if !cleared {
      return Err(StatementFailed);
    }
    NothingRemovedYet(oracle.schema, tables, source, before, batchSize, oracle.db);
    r := Refill(source, oracle, tables, batchSize, before);
    ghost var filled := oracle.executed;
    MoreStatements(oracle.fails, old(oracle.executed), begun, filled);
    if r.Ok? {
      CountCheckIsExact(oracle.schema, tables, source, before, batchSize, oracle.db, r.value);
      CountedTables(tables, r.value, source);
      var matching := CheckCounts(oracle, tables, r.value);
      MoreStatements(oracle.fails, old(oracle.executed), filled, oracle.executed);
      if matching.Err? {
        return Err(matching.error);
      }
      if !matching.value {
        return Err(CountMismatch);
      }
    }
  }

  predicate HasCounts(tables: seq<nat>, counts: map<nat, nat>, source: Source) {
    forall t :: t in tables ==> t in counts && t < |source| && counts[t] == |source[t]|
  }

  lemma CountedTables(tables: seq<nat>, counts: map<nat, nat>, source: Source)
    requires HasCounts(tables, counts, source)
    ensures forall t :: t in tables ==> t in counts
  {
  }

  /** What stands between a cleared Oracle and the count check, but for failing statements. */
  predicate MayRefill(schema: Schema, tables: seq<nat>, source: Source, before: Database, batchSize: int)
    requires KeyedSource(schema, source) && |before| == |schema|
  {
    && !IsRestrictedBy(schema, tables, source, before, MergedTables(schema, tables))
    && (batchSize > 0 ==> AllReferencesAreLeft(schema, tables, source, before))
    && (batchSize != 0 || tables == [])
  }

  lemma MayCommitParts(schema: Schema, tables: seq<nat>, source: Source, before: Database, batchSize: int)
    requires KeyedSource(schema, source) && |before| == |schema|
    ensures MayCommit(schema, tables, source, before, batchSize)
            <==> && !BlocksClearing(schema, tables, before) && MayRefill(schema, tables, source, before, batchSize)
                 && BatchSizeFits(schema, tables, source, before, batchSize)
    ensures MayRefill(schema, tables, source, before, batchSize) ==> batchSize != 0 || tables == []
    ensures batchSize > 0 || tables == [] ==> BatchSizeFits(schema, tables, source, before, batchSize)
  {
    if batchSize <= 0 && BatchSizeFits(schema, tables, source, before, batchSize) {
      FittingBatchesNeedNoReferences(schema, tables, source, before, batchSize);
    }
    hide IsRestrictedBy, AllReferencesAreLeft, KeyedSource, BlocksClearing, NothingToInsert;
  }

  /** Merges and loads after the clearing. */
  method Refill(source: Source, oracle: OracleConnection, tables: seq<nat>, batchSize: int, ghost before: Database)
    returns (r: Result<map<nat, nat>, SyncError>)
    requires oracle.Valid() && MergesStandAlone(oracle.schema) && InOrder(oracle.schema, tables)
    requires IsConsistent(oracle.schema, source) && KeyedSource(oracle.schema, source)
    requires |source| == |oracle.schema| == |before|
    requires AtStage(oracle.schema, tables, source, before, batchSize, {}, {}, oracle.db)
    modifies oracle
    ensures oracle.Valid() && oracle.executed >= old(oracle.executed)
    ensures r.Ok? <==> && NoFaults(oracle.fails, old(oracle.executed), oracle.executed)
                       && MayRefill(oracle.schema, tables, source, before, batchSize)
    ensures r.Err? ==> r.error != CountMismatch
    ensures r.Ok? ==> AtEnd(oracle.schema, tables, source, before, batchSize, oracle.db)
    ensures r.Ok? ==> HasCounts(tables, r.value, source)
  {
    EveryTableIsMergedOrReloaded(oracle.schema, tables);
    hide MergesStandAlone, AtStage, IsConsistent, KeyedSource, IsRestrictedBy, TableHolds, IsSchema, MergedTables;
    hide AllReferencesAreLeft, CountsAre, ReloadedAmong, ForeignKeysHold, InOrder, NoFaults, HaveUniqueKeys;
    hide ReferencesHoldInSource;
    var merged := MergeTables(source, oracle, tables, batchSize, before);
    ghost var begun := oracle.executed;
    if merged.Err? {
      return Err(merged.error);
    }
    var loaded := LoadTables(source, oracle, tables, batchSize, before);
    MoreStatements(oracle.fails, old(oracle.executed), begun, oracle.executed);
    if loaded.Err? {
      return Err(loaded.error);
    }
    JoinedCounts(oracle.schema, tables, source, merged.value, loaded.value);
    return Ok(merged.value + loaded.value);
  }

  lemma JoinedCounts(schema: Schema, tables: seq<nat>, source: Source, merged: map<nat, nat>, loaded: map<nat, nat>)
    requires InOrder(schema, tables) && |source| == |schema|
    requires CountsAre(merged, MergedTables(schema, tables), source)
    requires CountsAre(loaded, ReloadedAmong(schema, tables, |tables|), source)
    ensures HasCounts(tables, merged + loaded, source)
  {
    EveryTableIsMergedOrReloaded(schema, tables);
  }

  lemma FittingBatchesNeedNoReferences(schema: Schema, tables: seq<nat>, source: Source, before: Database,
                                       batchSize: int)
    requires KeyedSource(schema, source) && |before| == |schema| == |source|
    requires BatchSizeFits(schema, tables, source, before, batchSize) && batchSize <= 0
    ensures AllReferencesAreLeft(schema, tables, source, before)
  {
  }

  lemma EveryTableIsMergedOrReloaded(schema: Schema, tables: seq<nat>)
    requires InOrder(schema, tables)
    ensures forall t :: t in tables <==>
              t in MergedTables(schema, tables) || t in ReloadedAmong(schema, tables, |tables|)
    ensures forall t :: t in MergedTables(schema, tables) ==> t !in ReloadedAmong(schema, tables, |tables|)
    ensures tables == [] <==> MergedTables(schema, tables) == {} && ReloadedAmong(schema, tables, |tables|) == {}
  {
    assert tables[..|tables|] == tables;
    assert tables != [] ==>
        (tables[0] in MergedTables(schema, tables) || tables[0] in ReloadedAmong(schema, tables, |tables|));
  }

  /** The tables chosen by name are in foreign-key order and are exactly those not excluded. */
  lemma SyncTablesAreInOrder(schema: Schema, includeTimetables: bool, exclude: set<string>)
    ensures InOrder(schema, SyncTables(schema, includeTimetables, exclude))
    ensures forall t: nat :: t in SyncTables(schema, includeTimetables, exclude) <==>
              (t < |schema| && schema[t].name !in exclude
               && (schema[t].name == "train_timetables" ==> includeTimetables))
  {
  }
}
