/** Which choices of tables keep everything that they leave out (sync_to_oracle.py, config.py). */
module ExcludeLists {
  import opened Relational
  import opened OracleSync
  import opened Clearing
  import opened SyncStages
  import opened SyncRun
  import opened Synchronisation
  import opened LeftOut

  /** Every committed run, from whatever consistent state, keeps every row and every value that is left out, but for the
      dead references to merged tables. */
  ghost predicate KeepsLeftOut(schema: Schema, tables: seq<nat>) {
    forall source, before, batchSize, after, t ::
      Commits(schema, tables, source, before, batchSize, after) && 0 <= t < |schema| && t !in tables ==>
        IsKept(schema, tables, source, before, after, t)
  }

  ghost predicate IsKept(schema: Schema, tables: seq<nat>, source: Source, before: Database, after: Database, t: nat)
    requires KeyedSource(schema, source) && |before| == |schema| == |after| && t < |schema|
  {
    after[t] == NulledTable(before[t], schema[t], Removed(schema, source, before, MergedTables(schema, tables)))
  }

  // ---------- Heights ----------

  /** The height of a row that no clearing takes. */
  const GROUND := -1

  /** The height of a row is the last reloaded table, in schema order, to which a chain of cascading keys leads from it:
      it goes as soon as that table is emptied. A row of table t can stand at height h in a state that commits if it can
      fill each NOT NULL column with a row that does not go before it. */
  predicate CanStand(schema: Schema, tables: seq<nat>, t: nat, h: int)
    requires ParentsFirst(schema) && t < |schema|
    decreases t, 0
  {
    && (if IsReloaded(schema, tables, t) then h == t
        else || h == GROUND
             || exists i :: 0 <= i < |schema[t].foreignKeys| && schema[t].foreignKeys[i].onDelete == Cascade
                         && CanStand(schema, tables, schema[t].foreignKeys[i].parent, h))
    && (forall i :: 0 <= i < |schema[t].foreignKeys| && !schema[t].foreignKeys[i].nullable ==>
          CanFill(schema, tables, schema[t].foreignKeys[i], h))
  }

  /** Some row that the key can refer to goes no later than at height h. */
  predicate CanFill(schema: Schema, tables: seq<nat>, fk: ForeignKey, h: int)
    requires ParentsFirst(schema) && fk.parent < |schema|
    decreases fk.parent, 1
  {
    exists low :: GROUND <= low <= h && CanStand(schema, tables, fk.parent, low)
  }

  /** Some state that commits holds a row of table t that goes, or is nulled, by its key i. */
  ghost predicate CanLose(schema: Schema, tables: seq<nat>, t: nat, i: nat)
    requires ParentsFirst(schema) && t < |schema| && i < |schema[t].foreignKeys|
  {
    var fk := schema[t].foreignKeys[i];
    match fk.onDelete
    case Restrict => false
    case Cascade => exists h :: h != GROUND && CanStand(schema, tables, fk.parent, h) && CanStand(schema, tables, t, h)
    case SetNull => && (exists h :: h != GROUND && CanStand(schema, tables, fk.parent, h))
                    && (exists h :: CanStand(schema, tables, t, h))
  }

  ghost predicate NothingToLose(schema: Schema, tables: seq<nat>)
    requires ParentsFirst(schema)
  {
    forall t, i :: 0 <= t < |schema| && t !in tables && 0 <= i < |schema[t].foreignKeys| ==>
        !CanLose(schema, tables, t, i)
  }

  lemma {:induction false} HeightsAreReloaded(schema: Schema, tables: seq<nat>, t: nat, h: int)
    requires ParentsFirst(schema) && t < |schema| && CanStand(schema, tables, t, h)
    ensures h == GROUND || (0 <= h <= t && IsReloaded(schema, tables, h))
    decreases t
  {
    if !IsReloaded(schema, tables, t) && h != GROUND {
      var i :| 0 <= i < |schema[t].foreignKeys| && schema[t].foreignKeys[i].onDelete == Cascade
            && CanStand(schema, tables, schema[t].foreignKeys[i].parent, h);
      HeightsAreReloaded(schema, tables, schema[t].foreignKeys[i].parent, h);
    }
  }

  lemma HeightsAreBounded(schema: Schema, tables: seq<nat>, t: nat)
    requires ParentsFirst(schema) && t < |schema|
    ensures forall h :: CanStand(schema, tables, t, h) ==> GROUND <= h <= t
  {
    forall h | CanStand(schema, tables, t, h)
      ensures GROUND <= h <= t
    {
      HeightsAreReloaded(schema, tables, t, h);
    }
  }

  // ---------- Every row stands at a possible height ----------

  /** The row goes when table h is emptied, not before. */
  ghost predicate StandsAt(schema: Schema, tables: seq<nat>, db: Database, t: nat, pk: int, h: int)
    requires |db| == |schema| && t < |schema|
  {
    && GROUND <= h < |schema|
    && (h != GROUND ==> IsReloaded(schema, tables, h) && pk in Lost(schema, tables, db, h)[t])
    && (forall n: nat :: h < n <= |schema| ==> pk !in Lost(schema, tables, db, n)[t])
  }

  ghost predicate RefersToRowAt(schema: Schema, tables: seq<nat>, db: Database, row: Row, fk: ForeignKey, h: int)
    requires |db| == |schema|
  {
    IsReference(row, fk) && fk.parent < |schema| && StandsAt(schema, tables, db, fk.parent, row[fk.column].n, h)
  }

  lemma EveryRowStands(schema: Schema, tables: seq<nat>, db: Database, t: nat, pk: int) returns (h: int)
    requires IsSchema(schema) && |db| == |schema| && t < |schema|
    ensures StandsAt(schema, tables, db, t, pk, h)
  {
    LostOnlyBehind(schema, tables, db, |schema|, t);
    h := HighestLoss(schema, tables, db, t, pk, |schema|);
  }

  lemma {:induction false} HighestLoss(schema: Schema, tables: seq<nat>, db: Database, t: nat, pk: int, n: nat)
    returns (h: int)
    requires |db| == |schema| && t < |schema| && n <= |schema|
    requires forall m: nat :: n <= m <= |schema| ==> pk !in Lost(schema, tables, db, m)[t]
    ensures StandsAt(schema, tables, db, t, pk, h)
  {
    if n == 0 {
      h := GROUND;
    } else if pk in Lost(schema, tables, db, n - 1)[t] {
      h := n - 1;
      assert pk !in Lost(schema, tables, db, n)[t];
      if !IsReloaded(schema, tables, n - 1) {
        OnlyReloadedTablesTake(schema, tables, db, n - 1);
      }
    } else {
      h := HighestLoss(schema, tables, db, t, pk, n - 1);
    }
  }

  lemma OnlyReloadedTablesTake(schema: Schema, tables: seq<nat>, db: Database, n: nat)
    requires |db| == |schema| && n < |schema| && !IsReloaded(schema, tables, n)
    ensures Lost(schema, tables, db, n) == Lost(schema, tables, db, n + 1)
  {
    forall u | 0 <= u < |schema|
      ensures Cleared(schema, tables, db, n)[u] == Cleared(schema, tables, db, n + 1)[u]
    {
    }
    assert Cleared(schema, tables, db, n) == Cleared(schema, tables, db, n + 1);
  }

  /** Where nothing blocks the clearing, what a row refers to by a cascading or restricting key does not go before
      it. */
  lemma ParentGoesNoLater(schema: Schema, tables: seq<nat>, db: Database, t: nat, pk: int, h: int, i: nat, low: int)
    requires IsSchema(schema) && |db| == |schema| && !BlocksClearing(schema, tables, db) && t < |schema|
    requires !IsReloaded(schema, tables, t) && pk in db[t] && StandsAt(schema, tables, db, t, pk, h)
    requires i < |schema[t].foreignKeys| && schema[t].foreignKeys[i].onDelete != SetNull
    requires RefersToRowAt(schema, tables, db, db[t][pk], schema[t].foreignKeys[i], low)
    ensures low <= h
  {
    if low != GROUND {
      assert RefersInto(db[t][pk], schema[t].foreignKeys[i], Lost(schema, tables, db, low));
      EarlierParentTakesOrBlocks(schema, tables, db, t, pk, i, low);
    }
  }

  lemma EarlierParentTakesOrBlocks(schema: Schema, tables: seq<nat>, db: Database, t: nat, pk: int, i: nat, n: nat)
    requires IsSchema(schema) && |db| == |schema| && t < |schema| && pk in db[t] && IsReloaded(schema, tables, n)
    requires i < |schema[t].foreignKeys| && schema[t].foreignKeys[i].onDelete != SetNull
    requires RefersInto(db[t][pk], schema[t].foreignKeys[i], Lost(schema, tables, db, n))
    ensures pk in Lost(schema, tables, db, n)[t] || BlocksClearing(schema, tables, db)
  {
    var fk, lost := schema[t].foreignKeys[i], Lost(schema, tables, db, n);
    if fk.onDelete == Cascade {
      CascadeTakes(schema, tables, db, t, pk, i, n);
    } else if pk !in lost[t] {
      assert RefersThrough(db[t][pk], schema[t], Restrict, lost);
      assert IsRestricted(db[t], schema[t], lost[t], lost);
      assert IsBlockedAt(schema, tables, db, n);
    }
  }

  lemma CascadeTakes(schema: Schema, tables: seq<nat>, db: Database, t: nat, pk: int, i: nat, n: nat)
    requires IsSchema(schema) && |db| == |schema| && t < |schema| && pk in db[t]
    requires i < |schema[t].foreignKeys| && schema[t].foreignKeys[i].onDelete == Cascade
    requires RefersInto(db[t][pk], schema[t].foreignKeys[i], Lost(schema, tables, db, n))
    ensures pk in Lost(schema, tables, db, n)[t]
  {
    DoomedIsClosed(schema, db, Cleared(schema, tables, db, n), t);
    assert RefersThrough(db[t][pk], schema[t], Cascade, Lost(schema, tables, db, n));
  }

  /** A row that goes though its table is not reloaded goes with one that it cascades from. */
  lemma GoesWithParent(schema: Schema, tables: seq<nat>, db: Database, t: nat, pk: int, h: int) returns (i: nat)
    requires IsSchema(schema) && |db| == |schema| && t < |schema| && !IsReloaded(schema, tables, t)
    requires pk in db[t] && StandsAt(schema, tables, db, t, pk, h) && h != GROUND
    ensures i < |schema[t].foreignKeys| && schema[t].foreignKeys[i].onDelete == Cascade
    ensures RefersToRowAt(schema, tables, db, db[t][pk], schema[t].foreignKeys[i], h)
  {
    var row, def, lost := db[t][pk], schema[t], Lost(schema, tables, db, h);
    DoomedIsClosed(schema, db, Cleared(schema, tables, db, h), t);
    i :| 0 <= i < |def.foreignKeys| && def.foreignKeys[i].onDelete == Cascade
      && RefersInto(row, def.foreignKeys[i], lost);
    var fk := def.foreignKeys[i];
    forall n: nat | h < n <= |schema|
      ensures row[fk.column].n !in Lost(schema, tables, db, n)[fk.parent]
    {
      if row[fk.column].n in Lost(schema, tables, db, n)[fk.parent] {
        CascadeTakes(schema, tables, db, t, pk, i, n);
      }
    }
  }

  lemma {:induction false} RowsStandWhereTheyCan(schema: Schema, tables: seq<nat>, db: Database, t: nat, pk: int,
                                                 h: int)
    requires IsSchema(schema) && ForeignKeysHold(schema, db) && !BlocksClearing(schema, tables, db)
    requires t < |schema| && pk in db[t] && StandsAt(schema, tables, db, t, pk, h)
    ensures CanStand(schema, tables, t, h)
    decreases t
  {
    var row, def := db[t][pk], schema[t];
    assert TableHolds(db[t], def, db) && RowHolds(row, def, db);
    hide StandsAt;
    if IsReloaded(schema, tables, t) {
      ReloadedStandsAtItself(schema, tables, db, t, pk, h);
    } else if h != GROUND {
      var i := GoesWithParent(schema, tables, db, t, pk, h);
      assert ReferenceHolds(row, def.foreignKeys[i], db);
      RowsStandWhereTheyCan(schema, tables, db, def.foreignKeys[i].parent, row[def.foreignKeys[i].column].n, h);
    }
    forall i | 0 <= i < |def.foreignKeys| && !def.foreignKeys[i].nullable
      ensures CanFill(schema, tables, def.foreignKeys[i], h)
    {
      assert ReferenceHolds(row, def.foreignKeys[i], db);
      var parent, key := def.foreignKeys[i].parent, row[def.foreignKeys[i].column].n;
      var low := EveryRowStands(schema, tables, db, parent, key);
      RowsStandWhereTheyCan(schema, tables, db, parent, key, low);
      HeightsAreReloaded(schema, tables, parent, low);
      if !IsReloaded(schema, tables, t) {
        ParentGoesNoLater(schema, tables, db, t, pk, h, i, low);
      }
    }
  }

  lemma ReloadedStandsAtItself(schema: Schema, tables: seq<nat>, db: Database, t: nat, pk: int, h: int)
    requires IsSchema(schema) && |db| == |schema| && IsReloaded(schema, tables, t)
    requires pk in db[t] && StandsAt(schema, tables, db, t, pk, h)
    ensures h == t
  {
    DoomedIsClosed(schema, db, Cleared(schema, tables, db, t), t);
    assert pk in Lost(schema, tables, db, t)[t];
    if h > t {
      LostOnlyBehind(schema, tables, db, h, t);
    }
  }

  // ---------- Where nothing can be lost, nothing is ----------

  lemma RowIsSafe(schema: Schema, tables: seq<nat>, db: Database, t: nat, pk: int)
    requires IsSchema(schema) && ForeignKeysHold(schema, db) && !BlocksClearing(schema, tables, db)
    requires NothingToLose(schema, tables) && t < |schema| && t !in tables && pk in db[t]
    ensures pk !in Lost(schema, tables, db, 0)[t]
    ensures forall i :: 0 <= i < |schema[t].foreignKeys| && schema[t].foreignKeys[i].onDelete == SetNull ==>
              !RefersInto(db[t][pk], schema[t].foreignKeys[i], Lost(schema, tables, db, 0))
  {
    var h := EveryRowStands(schema, tables, db, t, pk);
    RowsStandWhereTheyCan(schema, tables, db, t, pk, h);
    assert TableHolds(db[t], schema[t], db) && RowHolds(db[t][pk], schema[t], db);
    if h != GROUND {
      var i := GoesWithParent(schema, tables, db, t, pk, h);
      var fk := schema[t].foreignKeys[i];
      assert ReferenceHolds(db[t][pk], fk, db);
      RowsStandWhereTheyCan(schema, tables, db, fk.parent, db[t][pk][fk.column].n, h);
      assert CanLose(schema, tables, t, i);
    }
    forall i | 0 <= i < |schema[t].foreignKeys| && schema[t].foreignKeys[i].onDelete == SetNull
      ensures !RefersInto(db[t][pk], schema[t].foreignKeys[i], Lost(schema, tables, db, 0))
    {
      var fk := schema[t].foreignKeys[i];
      assert ReferenceHolds(db[t][pk], fk, db);
      if IsReference(db[t][pk], fk) {
        var low := EveryRowStands(schema, tables, db, fk.parent, db[t][pk][fk.column].n);
        RowsStandWhereTheyCan(schema, tables, db, fk.parent, db[t][pk][fk.column].n, low);
        assert !CanLose(schema, tables, t, i);
      }
    }
  }

  lemma SafeTableIsKept(schema: Schema, tables: seq<nat>, source: Source, before: Database, batchSize: int,
                        after: Database, t: nat)
    requires IsSchema(schema) && NothingToLose(schema, tables)
    requires Commits(schema, tables, source, before, batchSize, after) && t < |schema| && t !in tables
    ensures IsKept(schema, tables, source, before, after, t)
  {
    var def, lost := schema[t], Lost(schema, tables, before, 0);
    var removed := Removed(schema, source, before, MergedTables(schema, tables));
    forall pk | pk in before[t]
      ensures pk !in lost[t]
      ensures NulledRow(before[t][pk], def, Either(lost, removed)) == NulledRow(before[t][pk], def, removed)
    {
      RowIsSafe(schema, tables, before, t, pk);
      NullsOnlySecond(before[t][pk], def, lost, removed);
    }
    hide Lost, Copy, AllDoomed, NulledRow;
  }

  lemma NullsOnlySecond(row: Row, def: TableDef, first: Doomed, second: Doomed)
    requires |first| == |second|
    requires forall i :: 0 <= i < |def.foreignKeys| && def.foreignKeys[i].onDelete == SetNull ==>
               !RefersInto(row, def.foreignKeys[i], first)
    ensures NulledRow(row, def, Either(first, second)) == NulledRow(row, def, second)
  {
    forall column | column in row
      ensures IsNulled(row, def, column, Either(first, second)) <==> IsNulled(row, def, column, second)
    {
      NulledByEither(row, def, column, first, second);
    }
  }

  // ---------- Where something can be lost, some state loses it ----------

  /** A row of this table at this height, whose key refers to a row that goes. */
  datatype Loss = Loss(table: nat, height: int, key: nat, above: int)

  ghost predicate IsLoss(schema: Schema, tables: seq<nat>, loss: Loss)
    requires ParentsFirst(schema)
  {
    && loss.table < |schema| && loss.table !in tables && loss.key < |schema[loss.table].foreignKeys|
    && var fk := schema[loss.table].foreignKeys[loss.key];
       && fk.onDelete != Restrict && (fk.onDelete == Cascade ==> loss.above == loss.height)
       && CanStand(schema, tables, loss.table, loss.height)
       && loss.above != GROUND && CanStand(schema, tables, fk.parent, loss.above)
  }

  function Columns(def: TableDef): set<string> {
    set i | 0 <= i < |def.foreignKeys| :: def.foreignKeys[i].column
  }

  ghost function KeyOn(def: TableDef, column: string): (i: nat)
    requires column in Columns(def)
    ensures i < |def.foreignKeys| && def.foreignKeys[i].column == column
  {
    var i: nat :| i < |def.foreignKeys| && def.foreignKeys[i].column == column;
    i
  }

  lemma SomethingFills(schema: Schema, tables: seq<nat>, fk: ForeignKey, h: int)
    requires ParentsFirst(schema) && fk.parent < |schema| && CanFill(schema, tables, fk, h)
    ensures exists low :: GROUND <= low <= h && CanStand(schema, tables, fk.parent, low)
  {
  }

  ghost function Lower(schema: Schema, tables: seq<nat>, fk: ForeignKey, h: int): (low: int)
    requires ParentsFirst(schema) && fk.parent < |schema| && CanFill(schema, tables, fk, h)
    ensures GROUND <= low <= h && CanStand(schema, tables, fk.parent, low)
  {
    SomethingFills(schema, tables, fk, h);
    var low :| GROUND <= low <= h && CanStand(schema, tables, fk.parent, low);
    low
  }

  /** What key k of the row of table u at height h holds: the loss, a row that goes with this one, or no more than has
      to be. */
  ghost function KeyValue(schema: Schema, tables: seq<nat>, loss: Loss, u: nat, h: int, k: nat): (value: Value)
    requires IsSchema(schema) && IsLoss(schema, tables, loss)
    requires u < |schema| && CanStand(schema, tables, u, h) && k < |schema[u].foreignKeys|
    ensures var fk := schema[u].foreignKeys[k];
      && (|| (value.Null? && fk.nullable)
          || (value.Int? && CanStand(schema, tables, fk.parent, value.n)
              && (fk.onDelete != SetNull ==> value.n <= h)))
      && (fk.onDelete == Cascade && CanStand(schema, tables, fk.parent, h) ==> value == Int(h))
  {
    var fk := schema[u].foreignKeys[k];
    if (u, h, k) == (loss.table, loss.height, loss.key) then Int(loss.above)
    else if fk.onDelete == Cascade && CanStand(schema, tables, fk.parent, h) then Int(h)
    else if fk.nullable then Null
    else Int(Lower(schema, tables, fk, h))
  }

  lemma KeysAreOnColumns(def: TableDef)
    requires DistinctColumns(def)
    ensures forall k: nat :: k < |def.foreignKeys| ==>
              def.foreignKeys[k].column in Columns(def) && KeyOn(def, def.foreignKeys[k].column) == k
  {
  }

  ghost function StandingRow(schema: Schema, tables: seq<nat>, loss: Loss, u: nat, h: int): (row: Row)
    requires IsSchema(schema) && IsLoss(schema, tables, loss)
    requires u < |schema| && CanStand(schema, tables, u, h)
    ensures forall k: nat :: k < |schema[u].foreignKeys| ==>
              && schema[u].foreignKeys[k].column in row
              && row[schema[u].foreignKeys[k].column] == KeyValue(schema, tables, loss, u, h, k)
  {
    var def := schema[u];
    KeysAreOnColumns(def);
    map column | column in Columns(def) :: KeyValue(schema, tables, loss, u, h, KeyOn(def, column))
  }

  /** A row at every possible height, under its height as key. */
  ghost function StandingRows(schema: Schema, tables: seq<nat>, loss: Loss, u: nat): (table: Table)
    requires IsSchema(schema) && IsLoss(schema, tables, loss) && u < |schema|
    ensures forall h :: h in table <==> CanStand(schema, tables, u, h)
    ensures forall h :: h in table ==> table[h] == StandingRow(schema, tables, loss, u, h)
  {
    HeightsAreBounded(schema, tables, u);
    map h | GROUND <= h <= u && CanStand(schema, tables, u, h) :: StandingRow(schema, tables, loss, u, h)
  }

  ghost function Standing(schema: Schema, tables: seq<nat>, loss: Loss): (db: Database)
    requires IsSchema(schema) && IsLoss(schema, tables, loss)
    ensures |db| == |schema|
    ensures forall u :: 0 <= u < |schema| ==> db[u] == StandingRows(schema, tables, loss, u)
  {
    seq(|schema|, u requires 0 <= u < |schema| => StandingRows(schema, tables, loss, u))
  }

  lemma StandingHolds(schema: Schema, tables: seq<nat>, loss: Loss)
    requires IsSchema(schema) && IsLoss(schema, tables, loss)
    ensures ForeignKeysHold(schema, Standing(schema, tables, loss))
  {
    var db := Standing(schema, tables, loss);
    hide CanStand, IsLoss, StandingRow, Standing, IsSchema, ReferenceHolds;
    forall u: nat, h | u < |schema| && h in db[u]
      ensures RowHolds(db[u][h], schema[u], db)
    {
      assert db[u] == StandingRows(schema, tables, loss, u);
      forall k: nat | k < |schema[u].foreignKeys|
        ensures ReferenceHolds(db[u][h], schema[u].foreignKeys[k], db)
      {
        StandingKeyHolds(schema, tables, loss, u, h, k);
      }
    }
  }

  lemma StandingKeyHolds(schema: Schema, tables: seq<nat>, loss: Loss, u: nat, h: int, k: nat)
    requires IsSchema(schema) && IsLoss(schema, tables, loss)
    requires u < |schema| && CanStand(schema, tables, u, h) && k < |schema[u].foreignKeys|
    ensures ReferenceHolds(StandingRow(schema, tables, loss, u, h), schema[u].foreignKeys[k],
                           Standing(schema, tables, loss))
  {
    var fk, db := schema[u].foreignKeys[k], Standing(schema, tables, loss);
    assert StandingRow(schema, tables, loss, u, h)[fk.column] == KeyValue(schema, tables, loss, u, h, k);
    assert db[fk.parent] == StandingRows(schema, tables, loss, fk.parent);
    hide CanStand, IsLoss, StandingRow, Standing, KeyValue, StandingRows;
  }

  /** Exactly the rows at height n and above go when the tables from n on are emptied. */
  lemma {:induction false} LostStandHigh(schema: Schema, tables: seq<nat>, loss: Loss, n: nat, u: nat, h: int)
    requires IsSchema(schema) && IsLoss(schema, tables, loss) && u < |schema| && CanStand(schema, tables, u, h)
    ensures h in Lost(schema, tables, Standing(schema, tables, loss), n)[u] <==> h >= n
    decreases u, 2
  {
    var db := Standing(schema, tables, loss);
    hide IsSchema, Standing, AllDoomed, Lost, IsLoss, StandingRow;
    if u < n {
      LostOnlyBehind(schema, tables, db, n, u);
      HeightsAreReloaded(schema, tables, u, h);
    } else {
      assert h in db[u];
      if IsReloaded(schema, tables, u) {
        ReloadedIsLost(schema, tables, db, n, u, h);
      } else {
        OnlyCascadesTake(schema, tables, db, n, u, h);
        HighRowsCascade(schema, tables, loss, n, u, h);
      }
    }
  }

  lemma ReloadedIsLost(schema: Schema, tables: seq<nat>, db: Database, n: nat, u: nat, h: int)
    requires IsSchema(schema) && |db| == |schema| && n <= u < |schema| && IsReloaded(schema, tables, u) && h in db[u]
    ensures h in Lost(schema, tables, db, n)[u]
  {
    DoomedIsClosed(schema, db, Cleared(schema, tables, db, n), u);
  }

  lemma OnlyCascadesTake(schema: Schema, tables: seq<nat>, db: Database, n: nat, u: nat, h: int)
    requires IsSchema(schema) && |db| == |schema| && u < |schema| && !IsReloaded(schema, tables, u) && h in db[u]
    ensures h in Lost(schema, tables, db, n)[u]
            <==> RefersThrough(db[u][h], schema[u], Cascade, Lost(schema, tables, db, n))
  {
    DoomedIsClosed(schema, db, Cleared(schema, tables, db, n), u);
  }

  lemma {:induction false} HighRowsCascade(schema: Schema, tables: seq<nat>, loss: Loss, n: nat, u: nat, h: int)
    requires IsSchema(schema) && IsLoss(schema, tables, loss) && u < |schema| && CanStand(schema, tables, u, h)
    requires !IsReloaded(schema, tables, u)
    ensures h >= n <==> RefersThrough(StandingRow(schema, tables, loss, u, h), schema[u], Cascade,
                                      Lost(schema, tables, Standing(schema, tables, loss), n))
    decreases u, 1
  {
    var def, lost := schema[u], Lost(schema, tables, Standing(schema, tables, loss), n);
    var row := StandingRow(schema, tables, loss, u, h);
    hide IsSchema, Standing, StandingRow, AllDoomed, Lost, IsLoss, RefersInto;
    forall k: nat | k < |def.foreignKeys|
      ensures RefersInto(row, def.foreignKeys[k], lost) <==> KeyLeadsHigh(schema, tables, loss, n, u, h, k)
    {
      HighKeysLeadToLost(schema, tables, loss, n, u, h, k);
    }
    if h >= n {
      var k: nat :| k < |def.foreignKeys| && def.foreignKeys[k].onDelete == Cascade
            && CanStand(schema, tables, def.foreignKeys[k].parent, h);
      assert KeyLeadsHigh(schema, tables, loss, n, u, h, k);
    }
  }

  ghost predicate KeyLeadsHigh(schema: Schema, tables: seq<nat>, loss: Loss, n: nat, u: nat, h: int, k: nat)
    requires IsSchema(schema) && IsLoss(schema, tables, loss)
    requires u < |schema| && CanStand(schema, tables, u, h) && k < |schema[u].foreignKeys|
  {
    KeyValue(schema, tables, loss, u, h, k).Int? && KeyValue(schema, tables, loss, u, h, k).n >= n
  }

  lemma {:induction false} HighKeysLeadToLost(schema: Schema, tables: seq<nat>, loss: Loss, n: nat, u: nat, h: int,
                                              k: nat)
    requires IsSchema(schema) && IsLoss(schema, tables, loss)
    requires u < |schema| && CanStand(schema, tables, u, h) && k < |schema[u].foreignKeys|
    ensures RefersInto(StandingRow(schema, tables, loss, u, h), schema[u].foreignKeys[k],
                       Lost(schema, tables, Standing(schema, tables, loss), n))
            <==> KeyLeadsHigh(schema, tables, loss, n, u, h, k)
    decreases u, 0
  {
    var value, row := KeyValue(schema, tables, loss, u, h, k), StandingRow(schema, tables, loss, u, h);
    assert row[schema[u].foreignKeys[k].column] == value;
    if value.Int? {
      LostStandHigh(schema, tables, loss, n, schema[u].foreignKeys[k].parent, value.n);
    }
    hide Lost, Standing, StandingRow, CanStand, KeyValue;
  }

  lemma StandingIsFree(schema: Schema, tables: seq<nat>, loss: Loss, n: nat, u: nat, h: int)
    requires IsSchema(schema) && IsLoss(schema, tables, loss) && u < |schema| && CanStand(schema, tables, u, h)
    requires h !in Lost(schema, tables, Standing(schema, tables, loss), n)[u]
    ensures !RefersThrough(StandingRow(schema, tables, loss, u, h), schema[u], Restrict,
                           Lost(schema, tables, Standing(schema, tables, loss), n))
  {
    LostStandHigh(schema, tables, loss, n, u, h);
    hide Lost, Standing, StandingRow, CanStand, RefersInto;
    forall k: nat | k < |schema[u].foreignKeys| && schema[u].foreignKeys[k].onDelete == Restrict
      ensures !RefersInto(StandingRow(schema, tables, loss, u, h), schema[u].foreignKeys[k],
                          Lost(schema, tables, Standing(schema, tables, loss), n))
    {
      HighKeysLeadToLost(schema, tables, loss, n, u, h, k);
    }
  }

  // ---------- A source that lets it happen ----------

  /** The source holds one row of each merged table and nothing else. */
  function MergedRows(schema: Schema): (source: Source)
    ensures |source| == |schema|
    ensures forall t :: 0 <= t < |schema| ==>
              source[t] == if IsUpsert(schema[t]) then [map[schema[t].primaryKey := Int(GROUND)]] else []
  {
    seq(|schema|, t requires 0 <= t < |schema| =>
        if IsUpsert(schema[t]) then [map[schema[t].primaryKey := Int(GROUND)]] else [])
  }

  lemma MergedRowsAreConsistent(schema: Schema)
    requires MergesStandAlone(schema)
    ensures IsConsistent(schema, MergedRows(schema)) && KeyedSource(schema, MergedRows(schema))
  {
    forall t, i | 0 <= t < |schema| && 0 <= i < |MergedRows(schema)[t]|
      ensures RowHoldsInSource(schema, MergedRows(schema), t, i)
    {
      MergedHasNoKeys(schema, t);
    }
    ConsistentSourceIsKeyed(schema, MergedRows(schema));
  }

  lemma MergedRowIsCopied(schema: Schema, t: nat)
    requires KeyedSource(schema, MergedRows(schema)) && t < |schema| && IsUpsert(schema[t])
    ensures GROUND in Copy(schema[t], MergedRows(schema)[t])
  {
    var rows := TransformedRows(schema[t].name, MergedRows(schema)[t]);
    assert HasKeys(schema[t], rows);
    assert rows[0][schema[t].primaryKey] == Int(GROUND);
    assert KeyOf(schema[t], rows[0]) == GROUND;
    assert IsKeyOf(schema[t], rows, GROUND);
    WithRowsIs(map[], schema[t], rows);
  }

  lemma MergedStandsOnGround(schema: Schema, tables: seq<nat>, t: nat, h: int)
    requires ParentsFirst(schema) && MergesStandAlone(schema) && t < |schema| && IsUpsert(schema[t])
    requires CanStand(schema, tables, t, h)
    ensures h == GROUND
  {
    MergedHasNoKeys(schema, t);
  }

  lemma NothingStandingIsRemoved(schema: Schema, tables: seq<nat>, loss: Loss)
    requires IsSchema(schema) && MergesStandAlone(schema) && IsLoss(schema, tables, loss)
    requires KeyedSource(schema, MergedRows(schema))
    ensures var removed := Removed(schema, MergedRows(schema), Standing(schema, tables, loss),
                                   MergedTables(schema, tables));
            forall t :: 0 <= t < |schema| ==> removed[t] == {}
  {
    var db := Standing(schema, tables, loss);
    hide Copy, CanStand, Standing, StandingRow, IsSchema, MergesStandAlone, KeyedSource, IsLoss;
    forall t: nat, h | t < |schema| && IsUpsert(schema[t]) && h in db[t]
      ensures h in Copy(schema[t], MergedRows(schema)[t])
    {
      assert db[t] == StandingRows(schema, tables, loss, t);
      MergedStandsOnGround(schema, tables, t, h);
      MergedRowIsCopied(schema, t);
    }
  }

  lemma StandingMayCommit(schema: Schema, tables: seq<nat>, loss: Loss)
    requires IsSchema(schema) && MergesStandAlone(schema) && IsLoss(schema, tables, loss)
    requires KeyedSource(schema, MergedRows(schema))
    ensures MayCommit(schema, tables, MergedRows(schema), Standing(schema, tables, loss), 1)
  {
    StandingIsCleared(schema, tables, loss);
    StandingIsMerged(schema, tables, loss);
    StandingIsLoaded(schema, tables, loss);
    hide IsSchema, MergesStandAlone, IsLoss, KeyedSource, BlocksClearing, IsRestrictedBy, AllReferencesAreLeft;
    hide Standing;
  }

  lemma StandingIsCleared(schema: Schema, tables: seq<nat>, loss: Loss)
    requires IsSchema(schema) && IsLoss(schema, tables, loss)
    ensures !BlocksClearing(schema, tables, Standing(schema, tables, loss))
  {
    var before := Standing(schema, tables, loss);
    hide Lost, Standing, IsRestricted, IsSchema, IsLoss;
    forall n: nat, u: nat | n < |schema| && u < |schema|
      ensures !IsRestricted(before[u], schema[u], Lost(schema, tables, before, n)[u], Lost(schema, tables, before, n))
    {
      NothingIsRestricted(schema, tables, loss, n, u);
    }
  }

  lemma StandingIsMerged(schema: Schema, tables: seq<nat>, loss: Loss)
    requires IsSchema(schema) && MergesStandAlone(schema) && IsLoss(schema, tables, loss)
    requires KeyedSource(schema, MergedRows(schema))
    ensures !IsRestrictedBy(schema, tables, MergedRows(schema), Standing(schema, tables, loss),
                            MergedTables(schema, tables))
  {
    var source, before := MergedRows(schema), Standing(schema, tables, loss);
    var removed := Removed(schema, source, before, MergedTables(schema, tables));
    NothingStandingIsRemoved(schema, tables, loss);
    hide Standing, IsRestricted, IsSchema, IsLoss, MergesStandAlone, KeyedSource, Removed;
    forall u: nat, gone | u < |schema|
      ensures !IsRestricted(before[u], schema[u], gone, removed)
    {
      NothingRestrictsNone(before[u], schema[u], gone, removed);
    }
  }

  lemma StandingIsLoaded(schema: Schema, tables: seq<nat>, loss: Loss)
    requires IsSchema(schema) && IsLoss(schema, tables, loss)
    ensures AllReferencesAreLeft(schema, tables, MergedRows(schema), Standing(schema, tables, loss))
  {
    hide IsSchema, IsLoss, Standing, ReferencesAreLeft;
  }

  lemma NothingRestrictsNone(table: Table, def: TableDef, gone: set<int>, doomed: Doomed)
    requires forall u :: 0 <= u < |doomed| ==> doomed[u] == {}
    ensures !IsRestricted(table, def, gone, doomed)
  {
  }

  lemma NothingIsRestricted(schema: Schema, tables: seq<nat>, loss: Loss, n: nat, u: nat)
    requires IsSchema(schema) && IsLoss(schema, tables, loss) && u < |schema|
    ensures var before := Standing(schema, tables, loss);
            !IsRestricted(before[u], schema[u], Lost(schema, tables, before, n)[u], Lost(schema, tables, before, n))
  {
    var before := Standing(schema, tables, loss);
    var lost := Lost(schema, tables, before, n);
    hide Lost, CanStand, KeyValue, StandingRow, IsLoss, RefersThrough;
    forall h | h in before[u] && h !in lost[u]
      ensures !RefersThrough(before[u][h], schema[u], Restrict, lost)
    {
      StandingIsFree(schema, tables, loss, n, u, h);
    }
  }

  function AfterRun(schema: Schema, tables: seq<nat>, source: Source, before: Database): (after: Database)
    requires KeyedSource(schema, source) && |before| == |schema|
    ensures IsSynchronised(schema, tables, source, before, after)
  {
    seq(|schema|, t requires 0 <= t < |schema| =>
        if t in tables then Copy(schema[t], source[t])
        else LeftTable(schema, tables, source, before, MergedTables(schema, tables), t))
  }

  /** The run commits, and takes the row or nulls its reference. */
  lemma LossHappens(schema: Schema, tables: seq<nat>, loss: Loss)
    requires IsSchema(schema) && MergesStandAlone(schema) && IsLoss(schema, tables, loss)
    ensures !KeepsLeftOut(schema, tables)
  {
    var source, before := MergedRows(schema), Standing(schema, tables, loss);
    MergedRowsAreConsistent(schema);
    var after := AfterRun(schema, tables, source, before);
    StandingHolds(schema, tables, loss);
    StandingMayCommit(schema, tables, loss);
    LossIsNotKept(schema, tables, loss);
    hide MayCommit, IsSynchronised, IsKept, IsConsistent, KeyedSource, ForeignKeysHold, IsSchema, MergesStandAlone;
    hide AfterRun, Standing, MergedRows;
    assert Commits(schema, tables, source, before, 1, after);
  }

  lemma LossIsNotKept(schema: Schema, tables: seq<nat>, loss: Loss)
    requires IsSchema(schema) && MergesStandAlone(schema) && IsLoss(schema, tables, loss)
    requires KeyedSource(schema, MergedRows(schema))
    ensures var source, before := MergedRows(schema), Standing(schema, tables, loss);
            !IsKept(schema, tables, source, before, AfterRun(schema, tables, source, before), loss.table)
  {
    var source, before, t, pk := MergedRows(schema), Standing(schema, tables, loss), loss.table, loss.height;
    var fk, row := schema[t].foreignKeys[loss.key], StandingRow(schema, tables, loss, t, pk);
    var lost, removed := Lost(schema, tables, before, 0), Removed(schema, source, before, MergedTables(schema, tables));
    HeightsAreReloaded(schema, tables, fk.parent, loss.above);
    LostStandHigh(schema, tables, loss, 0, t, pk);
    LostStandHigh(schema, tables, loss, 0, fk.parent, loss.above);
    NothingStandingIsRemoved(schema, tables, loss);
    assert KeyValue(schema, tables, loss, t, pk, loss.key) == Int(loss.above);
    assert before[t] == StandingRows(schema, tables, loss, t);
    hide Lost, Removed, NulledRow, StandingRow, StandingRows, Standing, CanStand, SurvivingTable, NulledTable, Copy;
    LossMakesADifference(before[t], schema[t], loss.key, pk, lost[t], lost, removed);
  }

  /** A row that cascades and goes, or refers to what goes and is nulled, is not as it was. */
  lemma LossMakesADifference(table: Table, def: TableDef, i: nat, pk: int, gone: set<int>, lost: Doomed,
                             removed: Doomed)
    requires DistinctColumns(def) && i < |def.foreignKeys| && pk in table && |lost| == |removed|
    requires def.foreignKeys[i].onDelete == SetNull || pk in gone
    requires RefersInto(table[pk], def.foreignKeys[i], lost) && !RefersInto(table[pk], def.foreignKeys[i], removed)
    ensures SurvivingTable(table, def, gone, Either(lost, removed)) != NulledTable(table, def, removed)
  {
    NulledColumnIsOwn(table[pk], def, i, removed);
    NulledColumnIsOwn(table[pk], def, i, Either(lost, removed));
    hide NulledRow;
    assert NulledTable(table, def, removed)[pk] == NulledRow(table[pk], def, removed);
  }

  // ---------- The exact condition ----------

  /** A choice of tables keeps what it leaves out exactly if no row that can stand in it can be lost or nulled. */
  lemma LeftOutSurvivesExactly(schema: Schema, tables: seq<nat>)
    requires IsSchema(schema) && MergesStandAlone(schema)
    ensures KeepsLeftOut(schema, tables) <==> NothingToLose(schema, tables)
  {
    if NothingToLose(schema, tables) {
      forall source, before, batchSize, after, t | Commits(schema, tables, source, before, batchSize, after)
                                                   && 0 <= t < |schema| && t !in tables
        ensures IsKept(schema, tables, source, before, after, t)
      {
        SafeTableIsKept(schema, tables, source, before, batchSize, after, t);
      }
    } else {
      var t: nat, i: nat :| t < |schema| && t !in tables && i < |schema[t].foreignKeys|
                         && CanLose(schema, tables, t, i);
      var loss := LossOf(schema, tables, t, i);
      LossHappens(schema, tables, loss);
    }
  }

  lemma LossOf(schema: Schema, tables: seq<nat>, t: nat, i: nat) returns (loss: Loss)
    requires ParentsFirst(schema) && t < |schema| && t !in tables && i < |schema[t].foreignKeys|
    requires CanLose(schema, tables, t, i)
    ensures IsLoss(schema, tables, loss)
  {
    var fk := schema[t].foreignKeys[i];
    if fk.onDelete == Cascade {
      var h :| h != GROUND && CanStand(schema, tables, fk.parent, h) && CanStand(schema, tables, t, h);
      loss := Loss(t, h, i, h);
    } else {
      var above :| above != GROUND && CanStand(schema, tables, fk.parent, above);
      var h :| CanStand(schema, tables, t, h);
      loss := Loss(t, h, i, above);
    }
  }

  /** With only restricting references to reloaded tables nothing that is left out goes. */
  lemma {:induction false} RestrictingStandsOnGround(schema: Schema, tables: seq<nat>, t: nat, h: int)
    requires IsSchema(schema) && MergesStandAlone(schema) && OnlyRestricts(schema, tables)
    requires t < |schema| && !IsReloaded(schema, tables, t) && CanStand(schema, tables, t, h)
    ensures h == GROUND
    decreases t
  {
    if h != GROUND {
      var i :| 0 <= i < |schema[t].foreignKeys| && schema[t].foreignKeys[i].onDelete == Cascade
            && CanStand(schema, tables, schema[t].foreignKeys[i].parent, h);
      if t in tables {
        MergedHasNoKeys(schema, t);
      } else {
        RestrictingStandsOnGround(schema, tables, schema[t].foreignKeys[i].parent, h);
      }
    }
  }

  /** That is enough to keep everything. */
  lemma OnlyRestrictingSuffices(schema: Schema, tables: seq<nat>)
    requires IsSchema(schema) && MergesStandAlone(schema) && OnlyRestricts(schema, tables)
    ensures NothingToLose(schema, tables)
  {
    forall t: nat, i: nat, h | t < |schema| && t !in tables && i < |schema[t].foreignKeys|
                               && schema[t].foreignKeys[i].onDelete != Restrict
                               && CanStand(schema, tables, schema[t].foreignKeys[i].parent, h)
      ensures h == GROUND
    {
      RestrictingStandsOnGround(schema, tables, schema[t].foreignKeys[i].parent, h);
    }
  }

  // ---------- Where restrictions do not guard what is left out ----------

  /** A column that has to hold a restricting reference refers to a merged table. */
  predicate RestrictsMergesOnly(schema: Schema) {
    forall t, i :: 0 <= t < |schema| && 0 <= i < |schema[t].foreignKeys| ==>
        RestrictsMergeOnly(schema, schema[t].foreignKeys[i])
  }

  predicate RestrictsMergeOnly(schema: Schema, fk: ForeignKey) {
    fk.onDelete == Restrict && !fk.nullable ==> fk.parent < |schema| && IsUpsert(schema[fk.parent])
  }

  ghost predicate IsSupported(schema: Schema, tables: seq<nat>, t: nat, h: int)
    requires ParentsFirst(schema) && t < |schema|
  {
    || h == GROUND
    || exists i :: 0 <= i < |schema[t].foreignKeys| && schema[t].foreignKeys[i].onDelete == Cascade
                && CanStand(schema, tables, schema[t].foreignKeys[i].parent, h)
  }

  lemma {:induction false} CanStandSomewhere(schema: Schema, tables: seq<nat>, t: nat) returns (h: int)
    requires IsSchema(schema) && MergesStandAlone(schema) && RestrictsMergesOnly(schema) && t < |schema|
    ensures CanStand(schema, tables, t, h)
    decreases t, 1, 0
  {
    if IsReloaded(schema, tables, t) {
      h := t;
      forall i | 0 <= i < |schema[t].foreignKeys|
        ensures CanFill(schema, tables, schema[t].foreignKeys[i], h)
      {
        var low := CanStandSomewhere(schema, tables, schema[t].foreignKeys[i].parent);
        HeightsAreReloaded(schema, tables, schema[t].foreignKeys[i].parent, low);
      }
    } else {
      h := CanRise(schema, tables, t, GROUND, |schema[t].foreignKeys|);
    }
  }

  /** High enough, the row can fill its first n keys. */
  lemma {:induction false} CanRise(schema: Schema, tables: seq<nat>, t: nat, base: int, n: nat) returns (h: int)
    requires IsSchema(schema) && MergesStandAlone(schema) && RestrictsMergesOnly(schema)
    requires t < |schema| && n <= |schema[t].foreignKeys| && base >= GROUND && IsSupported(schema, tables, t, base)
    ensures h >= base && IsSupported(schema, tables, t, h)
    ensures forall k :: 0 <= k < n && !schema[t].foreignKeys[k].nullable ==>
              CanFill(schema, tables, schema[t].foreignKeys[k], h)
    decreases t, 0, n
  {
    if n == 0 {
      h := base;
    } else {
      var fk := schema[t].foreignKeys[n - 1];
      var lower := CanRise(schema, tables, t, base, n - 1);
      var low := CanStandSomewhere(schema, tables, fk.parent);
      HeightsAreReloaded(schema, tables, fk.parent, low);
      h := if fk.onDelete == Cascade && low > lower then low else lower;
      forall k | 0 <= k < n - 1 && !schema[t].foreignKeys[k].nullable
        ensures CanFill(schema, tables, schema[t].foreignKeys[k], h)
      {
        FillsHigher(schema, tables, schema[t].foreignKeys[k], lower, h);
      }
      assert RestrictsMergeOnly(schema, fk);
      if fk.parent < |schema| && IsUpsert(schema[fk.parent]) {
        MergedHasNoKeys(schema, fk.parent);
      }
    }
  }

  lemma FillsHigher(schema: Schema, tables: seq<nat>, fk: ForeignKey, lower: int, h: int)
    requires ParentsFirst(schema) && fk.parent < |schema| && CanFill(schema, tables, fk, lower) && lower <= h
    ensures CanFill(schema, tables, fk, h)
  {
  }

  /** There, any cascading or nulling reference into a reloaded table can lose something. */
  lemma ReloadedParentLoses(schema: Schema, tables: seq<nat>, t: nat, i: nat)
    requires IsSchema(schema) && MergesStandAlone(schema) && RestrictsMergesOnly(schema)
    requires t < |schema| && t !in tables && i < |schema[t].foreignKeys|
    requires IsReloaded(schema, tables, schema[t].foreignKeys[i].parent)
    requires schema[t].foreignKeys[i].onDelete != Restrict
    ensures !NothingToLose(schema, tables)
  {
    var fk := schema[t].foreignKeys[i];
    var above := CanStandSomewhere(schema, tables, fk.parent);
    if fk.onDelete == SetNull {
      var h := CanStandSomewhere(schema, tables, t);
      assert CanLose(schema, tables, t, i);
    } else {
      var h := CanRise(schema, tables, t, fk.parent, |schema[t].foreignKeys|);
      assert CanStand(schema, tables, t, h);
      var j: nat :| j < |schema[t].foreignKeys| && schema[t].foreignKeys[j].onDelete == Cascade
                 && CanStand(schema, tables, schema[t].foreignKeys[j].parent, h);
      assert CanLose(schema, tables, t, j);
    }
  }

  lemma OnlyRestrictingKeeps(schema: Schema, tables: seq<nat>)
    requires IsSchema(schema) && MergesStandAlone(schema)
    ensures OnlyRestricts(schema, tables) ==> KeepsLeftOut(schema, tables)
    ensures RestrictsMergesOnly(schema) && KeepsLeftOut(schema, tables) ==> OnlyRestricts(schema, tables)
  {
    LeftOutSurvivesExactly(schema, tables);
    hide KeepsLeftOut, MergesStandAlone, IsReloaded;
    if OnlyRestricts(schema, tables) {
      OnlyRestrictingSuffices(schema, tables);
    } else if RestrictsMergesOnly(schema) {
      var t: nat, i: nat :| t < |schema| && i < |schema[t].foreignKeys| && t !in tables
                         && IsReloaded(schema, tables, schema[t].foreignKeys[i].parent)
                         && schema[t].foreignKeys[i].onDelete != Restrict;
      ReloadedParentLoses(schema, tables, t, i);
    }
  }

  /** Elsewhere a restricting reference that every row has to hold can guard the table: no state that holds a row of it
      commits, so nothing that is left out is ever nulled. */
  lemma RestrictionCanGuard() returns (schema: Schema, tables: seq<nat>)
    ensures IsSchema(schema) && MergesStandAlone(schema)
    ensures KeepsLeftOut(schema, tables) && !OnlyRestricts(schema, tables)
  {
    var owner, viewer := ForeignKey("owner", 0, Restrict, false), ForeignKey("viewer", 0, SetNull, true);
    schema, tables := [TableDef("users", "id", []), TableDef("logs", "id", [owner, viewer])], [0];
    assert schema[1].foreignKeys[0] == owner && schema[1].foreignKeys[1] == viewer;
    GuardedTable(schema, tables);
    LeftOutSurvivesExactly(schema, tables);
    hide KeepsLeftOut, NothingToLose;
    assert IsReloaded(schema, tables, schema[1].foreignKeys[1].parent);
  }

  lemma GuardedTable(schema: Schema, tables: seq<nat>)
    requires ParentsFirst(schema) && |schema| == 2 && IsReloaded(schema, tables, 0) && 1 !in tables
    requires |schema[1].foreignKeys| > 0 && schema[1].foreignKeys[0].onDelete == Restrict
    requires !schema[1].foreignKeys[0].nullable
    requires forall i :: 0 <= i < |schema[1].foreignKeys| ==> schema[1].foreignKeys[i].onDelete != Cascade
    ensures NothingToLose(schema, tables)
  {
    forall h
      ensures !CanStand(schema, tables, 1, h)
    {
      if CanStand(schema, tables, 1, h) {
        SomethingFills(schema, tables, schema[1].foreignKeys[0], h);
      }
    }
  }

  // ---------- Which exclude lists do ----------

  predicate IsExcluded(def: TableDef, includeTimetables: bool, exclude: set<string>) {
    def.name in exclude || (def.name == "train_timetables" && !includeTimetables)
  }

  /** With each table it leaves out, the list leaves out every reloaded table that this one cascades from or is nulled
      by. */
  predicate ExcludesParents(schema: Schema, includeTimetables: bool, exclude: set<string>) {
    forall t, i :: 0 <= t < |schema| && 0 <= i < |schema[t].foreignKeys| ==>
        NamesParent(schema, includeTimetables, exclude, t, schema[t].foreignKeys[i])
  }

  predicate NamesParent(schema: Schema, includeTimetables: bool, exclude: set<string>, t: nat, fk: ForeignKey)
    requires t < |schema|
  {
    IsExcluded(schema[t], includeTimetables, exclude) && fk.onDelete != Restrict && fk.parent < |schema| ==>
      IsUpsert(schema[fk.parent]) || IsExcluded(schema[fk.parent], includeTimetables, exclude)
  }

  /** An exclude list that is closed like this keeps every excluded row and value, on every consistent state; where
      restrictions guard nothing, no other list does. */
  lemma ExcludeListKeepsExactly(schema: Schema, includeTimetables: bool, exclude: set<string>)
    requires IsSchema(schema) && MergesStandAlone(schema)
    ensures ExcludesParents(schema, includeTimetables, exclude)
            ==> KeepsLeftOut(schema, SyncTables(schema, includeTimetables, exclude))
    ensures RestrictsMergesOnly(schema) && KeepsLeftOut(schema, SyncTables(schema, includeTimetables, exclude))
            ==> ExcludesParents(schema, includeTimetables, exclude)
  {
    var tables := SyncTables(schema, includeTimetables, exclude);
    OnlyRestrictingKeeps(schema, tables);
    hide KeepsLeftOut, RestrictsMergesOnly;
    forall t: nat | t < |schema|
      ensures t !in tables <==> IsExcluded(schema[t], includeTimetables, exclude)
    {
    }
    forall t, i | 0 <= t < |schema| && 0 <= i < |schema[t].foreignKeys|
      ensures NamesParent(schema, includeTimetables, exclude, t, schema[t].foreignKeys[i])
              <==> (t !in tables && IsReloaded(schema, tables, schema[t].foreignKeys[i].parent)
                    ==> schema[t].foreignKeys[i].onDelete == Restrict)
    {
    }
  }
}
