/** The repository's own tables and foreign keys (backend/app/models), in an order where parents come first. */
module MetroTripSchema {
  import opened Relational
  import opened OracleSync
  import opened Clearing
  import opened SyncStages
  import opened LeftOut
  import opened ExcludeLists

  const USERS := 0
  const AUTH_TOKENS := 3
  const SUBWAY_LINES := 5
  const STATIONS := 6
  const TIMETABLES := 8
  const PLACES := 9
  const TRAVEL_PLANS := 13
  const REVIEWS := 15
  const LINE_VIEW_LOGS := 19
  const BOARD_POSTS := 20

  const MERGED: set<nat> := {SUBWAY_LINES, STATIONS}

  /** A NOT NULL column that refers to another table. */
  function Required(column: string, parent: nat, onDelete: OnDelete): ForeignKey {
    ForeignKey(column, parent, onDelete, false)
  }

  function Nullable(column: string, parent: nat, onDelete: OnDelete): ForeignKey {
    ForeignKey(column, parent, onDelete, true)
  }

  function OfUser(): ForeignKey {
    Required("user_id", USERS, Cascade)
  }

  const TABLE_COUNT := 23

  function TableAt(t: nat): TableDef
    requires t < TABLE_COUNT
  {
    if t < 7 then AccountOrMergedTable(t)
    else if t < 13 then TransitTable(t)
    else if t < 18 then TravelTable(t)
    else CommunityTable(t)
  }

  function AccountOrMergedTable(t: nat): TableDef
    requires t < 7
  {
    match t
    case 0 => TableDef("users", "user_id", [])
    case 1 => TableDef("user_agreements", "agreement_id", [OfUser()])
    case 2 => TableDef("social_accounts", "social_account_id", [OfUser()])
    case 3 => TableDef("auth_tokens", "token_id", [OfUser()])
    case 4 => TableDef("email_verifications", "verification_id", [Nullable("user_id", USERS, Cascade)])
    case 5 => TableDef("subway_lines", "line_id", [])
    case _ => TableDef("stations", "station_id", [])
  }

  function TransitTable(t: nat): TableDef
    requires 7 <= t < 13
  {
    match t
    case 7 => TableDef("line_stations", "line_station_id",
               [Required("line_id", SUBWAY_LINES, Restrict), Required("station_id", STATIONS, Restrict)])
    case 8 => TableDef("train_timetables", "timetable_id",
               [Required("line_id", SUBWAY_LINES, Restrict), Required("station_id", STATIONS, Restrict),
                Nullable("destination_station_id", STATIONS, SetNull)])
    case 9 => TableDef("places", "place_id", [Nullable("created_by", USERS, SetNull)])
    case 10 => TableDef("place_stations", "place_station_id",
               [Required("place_id", PLACES, Cascade), Required("station_id", STATIONS, Restrict)])
    case 11 => TableDef("place_images", "place_image_id", [Required("place_id", PLACES, Cascade)])
    case _ => TableDef("station_favorites", "favorite_id", [OfUser(), Required("station_id", STATIONS, Restrict)])
  }

  function TravelTable(t: nat): TableDef
    requires 13 <= t < 18
  {
    match t
    case 13 => TableDef("travel_plans", "plan_id",
               [OfUser(), Required("start_station_id", STATIONS, Restrict),
                Required("end_station_id", STATIONS, Restrict)])
    case 14 => TableDef("travel_plan_items", "plan_item_id",
               [Required("plan_id", TRAVEL_PLANS, Cascade), Nullable("place_id", PLACES, Restrict),
                Nullable("station_id", STATIONS, SetNull)])
    case 15 => TableDef("reviews", "review_id",
               [OfUser(), Required("start_station_id", STATIONS, Restrict),
                Required("end_station_id", STATIONS, Restrict), Nullable("plan_id", TRAVEL_PLANS, SetNull)])
    case 16 => TableDef("review_media", "media_id", [Required("review_id", REVIEWS, Cascade)])
    case _ => TableDef("review_tags", "review_tag_id", [Required("review_id", REVIEWS, Cascade)])
  }

  function CommunityTable(t: nat): TableDef
    requires 18 <= t < TABLE_COUNT
  {
    match t
    case 18 => TableDef("notices", "notice_id", [Nullable("admin_id", USERS, SetNull)])
    case 19 => TableDef("line_view_logs", "log_id",
               [Required("line_id", SUBWAY_LINES, Restrict), Nullable("user_id", USERS, SetNull)])
    case 20 => TableDef("board_posts", "post_id", [OfUser(), Nullable("plan_id", TRAVEL_PLANS, SetNull)])
    case 21 => TableDef("post_participants", "participant_id", [Required("post_id", BOARD_POSTS, Cascade), OfUser()])
    case _ => TableDef("travel_plan_share_links", "share_link_id", [Required("plan_id", TRAVEL_PLANS, Cascade)])
  }

  function MetroTrip(): (schema: Schema)
    ensures |schema| == TABLE_COUNT && forall t :: 0 <= t < TABLE_COUNT ==> schema[t] == TableAt(t)
  {
    seq(TABLE_COUNT, t requires 0 <= t < TABLE_COUNT => TableAt(t))
  }

  /** What the theorems about schemas need of a table, and that timetables refer to merged tables only. */
  predicate IsSoundTable(def: TableDef, t: nat) {
    DistinctColumns(def) && forall i :: 0 <= i < |def.foreignKeys| ==> IsSoundKey(def.foreignKeys[i], t)
  }

  predicate IsSoundKey(fk: ForeignKey, t: nat) {
    && fk.parent < t && t !in MERGED
    && fk.parent != TIMETABLES && (t == TIMETABLES ==> fk.parent in MERGED)
    && (fk.onDelete == SetNull ==> fk.nullable)
    && (fk.parent in MERGED ==> fk.onDelete != Cascade)
    && (fk.onDelete == Restrict && !fk.nullable ==> fk.parent in MERGED)
  }

  lemma TableIsSound(t: nat)
    requires t < TABLE_COUNT
    ensures IsSoundTable(TableAt(t), t)
    ensures IsUpsert(TableAt(t)) <==> t in MERGED
  {
    if t < 7 {
      AccountOrMergedIsSound(t);
    } else if t < 13 {
      TransitIsSound(t);
    } else if t < 18 {
      TravelIsSound(t);
    } else {
      CommunityIsSound(t);
    }
    OnlyLinesAndStationsMerge(t);
    hide IsSoundTable, AccountOrMergedTable, TransitTable, TravelTable, CommunityTable, IsUpsert;
  }

  lemma OnlyLinesAndStationsMerge(t: nat)
    requires t < TABLE_COUNT
    ensures IsUpsert(TableAt(t)) <==> t in MERGED
  {
  }

  lemma AccountOrMergedIsSound(t: nat)
    requires t < 7
    ensures IsSoundTable(AccountOrMergedTable(t), t)
  {
  }

  lemma TransitIsSound(t: nat)
    requires 7 <= t < 13
    ensures IsSoundTable(TransitTable(t), t)
  {
  }

  lemma TravelIsSound(t: nat)
    requires 13 <= t < 18
    ensures IsSoundTable(TravelTable(t), t)
  {
  }

  lemma CommunityIsSound(t: nat)
    requires 18 <= t < TABLE_COUNT
    ensures IsSoundTable(CommunityTable(t), t)
  {
  }

  /** Parents come first, merged tables stand alone, and restrictions that must be filled lead to them. */
  lemma MetroTripIsSchema()
    ensures IsSchema(MetroTrip()) && MergesStandAlone(MetroTrip()) && RestrictsMergesOnly(MetroTrip())
  {
    hide TableAt;
    var schema := MetroTrip();
    forall t: nat | t < TABLE_COUNT
      ensures IsSoundTable(schema[t], t) && (IsUpsert(schema[t]) <==> t in MERGED)
    {
      TableIsSound(t);
    }
    hide MetroTrip, DistinctColumns, IsUpsert;
    forall t: nat, i: nat | t < TABLE_COUNT && i < |schema[t].foreignKeys|
      ensures KeepsMergesAlone(schema, t, schema[t].foreignKeys[i])
      ensures RestrictsMergeOnly(schema, schema[t].foreignKeys[i])
    {
      assert IsSoundKey(schema[t].foreignKeys[i], t);
    }
  }

  lemma OnlyTimetablesAreLeftOut(includeTimetables: bool, u: nat)
    ensures u in SyncTables(MetroTrip(), includeTimetables, {})
            <==> u < TABLE_COUNT && (u != TIMETABLES || includeTimetables)
  {
    if u < TABLE_COUNT {
      assert TableAt(u).name == "train_timetables" <==> u == TIMETABLES;
    }
  }

  lemma KeyIsSeparate(tables: seq<nat>, t: nat, i: nat)
    requires t < TABLE_COUNT && i < |TableAt(t).foreignKeys|
    requires forall u: nat :: u in tables <==> u < TABLE_COUNT && (u != TIMETABLES || TIMETABLES in tables)
    ensures IsSeparate(MetroTrip(), tables, t, TableAt(t).foreignKeys[i])
  {
    var fk := TableAt(t).foreignKeys[i];
    TableIsSound(t);
    TableIsSound(fk.parent);
    hide TableAt;
    assert IsSoundKey(fk, t);
  }

  /** With nothing excluded but, by default, the timetables, the tables stand apart: what is left out is kept, and only
      failing statements, timetables of removed stations and the batch size prevent a commit. */
  lemma MetroTripIsSeparated(includeTimetables: bool)
    ensures IsSeparated(MetroTrip(), SyncTables(MetroTrip(), includeTimetables, {}))
  {
    hide TableAt, SyncTables, IsSeparate;
    var schema, tables := MetroTrip(), SyncTables(MetroTrip(), includeTimetables, {});
    forall u: nat
      ensures u in tables <==> u < TABLE_COUNT && (u != TIMETABLES || includeTimetables)
    {
      OnlyTimetablesAreLeftOut(includeTimetables, u);
    }
    forall t: nat, i: nat | t < TABLE_COUNT && i < |schema[t].foreignKeys|
      ensures IsSeparate(schema, tables, t, schema[t].foreignKeys[i])
    {
      KeyIsSeparate(tables, t, i);
    }
  }

  // ---------- Exclude lists ----------

  predicate Brings(exclude: set<string>, children: set<string>, parent: string) {
    forall child :: child in children && child in exclude ==> parent in exclude
  }

  /** Whoever excludes one of these tables has to exclude its parent. */
  predicate IsClosedList(exclude: set<string>) {
    && Brings(exclude, {"user_agreements", "social_accounts", "auth_tokens", "email_verifications", "places",
                        "station_favorites", "travel_plans", "reviews", "notices", "line_view_logs", "board_posts",
                        "post_participants"}, "users")
    && Brings(exclude, {"place_stations", "place_images"}, "places")
    && Brings(exclude, {"travel_plan_items", "reviews", "board_posts", "travel_plan_share_links"}, "travel_plans")
    && Brings(exclude, {"review_media", "review_tags"}, "reviews")
    && Brings(exclude, {"post_participants"}, "board_posts")
  }

  /** The list brings the parent of a table that cascades or is nulled, unless the parent is merged. */
  predicate BringsParent(exclude: set<string>, name: string, fk: ForeignKey) {
    fk.onDelete != Restrict && fk.parent < TABLE_COUNT && fk.parent !in MERGED && name in exclude ==>
      TableAt(fk.parent).name in exclude
  }

  lemma AccountParentIsBrought(exclude: set<string>, t: nat, i: nat)
    requires IsClosedList(exclude) && t < 7 && i < |AccountOrMergedTable(t).foreignKeys|
    ensures BringsParent(exclude, AccountOrMergedTable(t).name, AccountOrMergedTable(t).foreignKeys[i])
  {
  }

  lemma TransitParentIsBrought(exclude: set<string>, t: nat, i: nat)
    requires IsClosedList(exclude) && 7 <= t < 13 && i < |TransitTable(t).foreignKeys|
    ensures BringsParent(exclude, TransitTable(t).name, TransitTable(t).foreignKeys[i])
  {
  }

  lemma TravelParentIsBrought(exclude: set<string>, t: nat, i: nat)
    requires IsClosedList(exclude) && 13 <= t < 18 && i < |TravelTable(t).foreignKeys|
    ensures BringsParent(exclude, TravelTable(t).name, TravelTable(t).foreignKeys[i])
  {
  }

  lemma CommunityParentIsBrought(exclude: set<string>, t: nat, i: nat)
    requires IsClosedList(exclude) && 18 <= t < TABLE_COUNT && i < |CommunityTable(t).foreignKeys|
    ensures BringsParent(exclude, CommunityTable(t).name, CommunityTable(t).foreignKeys[i])
  {
  }

  lemma ParentIsBrought(exclude: set<string>, t: nat, i: nat)
    requires IsClosedList(exclude) && t < TABLE_COUNT && i < |TableAt(t).foreignKeys|
    ensures BringsParent(exclude, TableAt(t).name, TableAt(t).foreignKeys[i])
  {
    hide Brings, BringsParent, AccountOrMergedTable, TransitTable, TravelTable, CommunityTable;
    if t < 7 {
      AccountParentIsBrought(exclude, t, i);
    } else if t < 13 {
      TransitParentIsBrought(exclude, t, i);
    } else if t < 18 {
      TravelParentIsBrought(exclude, t, i);
    } else {
      CommunityParentIsBrought(exclude, t, i);
    }
  }

  lemma KeyIsNamed(includeTimetables: bool, exclude: set<string>, t: nat, i: nat)
    requires IsClosedList(exclude) && t < TABLE_COUNT && i < |TableAt(t).foreignKeys|
    ensures NamesParent(MetroTrip(), includeTimetables, exclude, t, TableAt(t).foreignKeys[i])
  {
    var fk := TableAt(t).foreignKeys[i];
    ParentIsBrought(exclude, t, i);
    TableIsSound(t);
    TableIsSound(fk.parent);
    TimetablesName(t);
    hide Brings, TableAt, IsUpsert;
    assert IsSoundKey(fk, t);
  }

  lemma TimetablesName(t: nat)
    requires t < TABLE_COUNT
    ensures TableAt(t).name == "train_timetables" <==> t == TIMETABLES
  {
  }

  lemma ParentIsNamed(includeTimetables: bool, exclude: set<string>, t: nat, i: nat, child: string, parent: string)
    requires ExcludesParents(MetroTrip(), includeTimetables, exclude)
    requires t < TABLE_COUNT && i < |TableAt(t).foreignKeys| && TableAt(t).foreignKeys[i].onDelete != Restrict
    requires TableAt(t).foreignKeys[i].parent < TABLE_COUNT
    requires child == TableAt(t).name && parent == TableAt(TableAt(t).foreignKeys[i].parent).name
    requires !IsUpsert(TableAt(TableAt(t).foreignKeys[i].parent)) && parent != "train_timetables"
    ensures child in exclude ==> parent in exclude
  {
    hide TableAt;
    assert NamesParent(MetroTrip(), includeTimetables, exclude, t, MetroTrip()[t].foreignKeys[i]);
  }

  /** The exclude lists that keep every excluded row and value, on every consistent state, are exactly the closed
      ones. */
  lemma KeepingListsExactly(includeTimetables: bool, exclude: set<string>)
    ensures KeepsLeftOut(MetroTrip(), SyncTables(MetroTrip(), includeTimetables, exclude)) <==> IsClosedList(exclude)
  {
    hide KeepsLeftOut, NamesParent, SyncTables;
    MetroTripIsSchema();
    ExcludeListKeepsExactly(MetroTrip(), includeTimetables, exclude);
    if IsClosedList(exclude) {
      forall t: nat, i: nat | t < TABLE_COUNT && i < |MetroTrip()[t].foreignKeys|
        ensures NamesParent(MetroTrip(), includeTimetables, exclude, t, MetroTrip()[t].foreignKeys[i])
      {
        KeyIsNamed(includeTimetables, exclude, t, i);
      }
    }
    if ExcludesParents(MetroTrip(), includeTimetables, exclude) {
      UsersAreNamed(includeTimetables, exclude);
      PlanParents(includeTimetables, exclude);
      ReviewParents(includeTimetables, exclude);
      OtherParentsAreNamed(includeTimetables, exclude);
    }
  }

  lemma UsersAreNamed(includeTimetables: bool, exclude: set<string>)
    requires ExcludesParents(MetroTrip(), includeTimetables, exclude)
    ensures Brings(exclude, {"user_agreements", "social_accounts", "auth_tokens", "email_verifications", "places",
                             "station_favorites", "travel_plans", "reviews", "notices", "line_view_logs",
                             "board_posts", "post_participants"}, "users")
  {
    hide ExcludesParents, TableAt;
    AccountParents(includeTimetables, exclude);
    ContentParents(includeTimetables, exclude);
  }

  lemma AccountParents(includeTimetables: bool, exclude: set<string>)
    requires ExcludesParents(MetroTrip(), includeTimetables, exclude)
    ensures Brings(exclude, {"user_agreements", "social_accounts", "auth_tokens", "email_verifications", "places",
                             "station_favorites"}, "users")
  {
    hide ExcludesParents;
    ParentIsNamed(includeTimetables, exclude, 1, 0, "user_agreements", "users");
    ParentIsNamed(includeTimetables, exclude, 2, 0, "social_accounts", "users");
    ParentIsNamed(includeTimetables, exclude, 3, 0, "auth_tokens", "users");
    ParentIsNamed(includeTimetables, exclude, 4, 0, "email_verifications", "users");
    ParentIsNamed(includeTimetables, exclude, 9, 0, "places", "users");
    ParentIsNamed(includeTimetables, exclude, 12, 0, "station_favorites", "users");
  }

  lemma ContentParents(includeTimetables: bool, exclude: set<string>)
    requires ExcludesParents(MetroTrip(), includeTimetables, exclude)
    ensures Brings(exclude, {"travel_plans", "reviews", "notices", "line_view_logs", "board_posts",
                             "post_participants"}, "users")
  {
    hide ExcludesParents;
    ParentIsNamed(includeTimetables, exclude, 13, 0, "travel_plans", "users");
    ParentIsNamed(includeTimetables, exclude, 15, 0, "reviews", "users");
    ParentIsNamed(includeTimetables, exclude, 18, 0, "notices", "users");
    ParentIsNamed(includeTimetables, exclude, 19, 1, "line_view_logs", "users");
    ParentIsNamed(includeTimetables, exclude, 20, 0, "board_posts", "users");
    ParentIsNamed(includeTimetables, exclude, 21, 1, "post_participants", "users");
  }

  lemma PlanParents(includeTimetables: bool, exclude: set<string>)
    requires ExcludesParents(MetroTrip(), includeTimetables, exclude)
    ensures Brings(exclude, {"travel_plan_items", "reviews", "board_posts", "travel_plan_share_links"}, "travel_plans")
  {
    hide ExcludesParents;
    ParentIsNamed(includeTimetables, exclude, 14, 0, "travel_plan_items", "travel_plans");
    ParentIsNamed(includeTimetables, exclude, 15, 3, "reviews", "travel_plans");
    ParentIsNamed(includeTimetables, exclude, 20, 1, "board_posts", "travel_plans");
    ParentIsNamed(includeTimetables, exclude, 22, 0, "travel_plan_share_links", "travel_plans");
  }

  lemma OtherParentsAreNamed(includeTimetables: bool, exclude: set<string>)
    requires ExcludesParents(MetroTrip(), includeTimetables, exclude)
    ensures Brings(exclude, {"place_stations", "place_images"}, "places")
    ensures Brings(exclude, {"post_participants"}, "board_posts")
  {
    hide ExcludesParents;
    ParentIsNamed(includeTimetables, exclude, 10, 0, "place_stations", "places");
    ParentIsNamed(includeTimetables, exclude, 11, 0, "place_images", "places");
    ParentIsNamed(includeTimetables, exclude, 21, 0, "post_participants", "board_posts");
  }

  lemma ReviewParents(includeTimetables: bool, exclude: set<string>)
    requires ExcludesParents(MetroTrip(), includeTimetables, exclude)
    ensures Brings(exclude, {"review_media", "review_tags"}, "reviews")
  {
    hide ExcludesParents;
    ParentIsNamed(includeTimetables, exclude, 16, 0, "review_media", "reviews");
    ParentIsNamed(includeTimetables, exclude, 17, 0, "review_tags", "reviews");
  }

  lemma NameIsExcluded(includeTimetables: bool, t: nat, name: string)
    requires t < TABLE_COUNT && TableAt(t).name == name && name !in {"train_timetables", "users"}
    ensures var tables := SyncTables(MetroTrip(), includeTimetables, {name});
            t !in tables && IsReloaded(MetroTrip(), tables, USERS)
  {
    assert MetroTrip()[t] == TableAt(t) && MetroTrip()[USERS] == TableAt(USERS);
  }

  lemma LoginTokenKeys()
    ensures TableAt(AUTH_TOKENS).name == "auth_tokens" && MetroTrip()[AUTH_TOKENS].foreignKeys == [OfUser()]
  {
  }

  /** A committed run over the repository's tables that excludes this one. */
  ghost predicate CommitsWithout(excluded: string, includeTimetables: bool, source: Source, before: Database,
                                 batchSize: int, after: Database)
  {
    && |before| == |after| == TABLE_COUNT
    && Commits(MetroTrip(), SyncTables(MetroTrip(), includeTimetables, {excluded}), source, before, batchSize, after)
  }

  /** A run without the login tokens deletes every token that belongs to a user. */
  lemma ExcludedLoginTokensAreLost(includeTimetables: bool, source: Source, before: Database, batchSize: int,
                                   after: Database, pk: int)
    requires CommitsWithout("auth_tokens", includeTimetables, source, before, batchSize, after)
    requires pk in before[AUTH_TOKENS]
    ensures pk in after[AUTH_TOKENS] <==> !IsReference(before[AUTH_TOKENS][pk], OfUser())
  {
    hide TableAt, Commits, SyncTables, IsReloaded, IsSchema, MergesStandAlone, IsReference;
    MetroTripIsSchema();
    LoginTokenKeys();
    NameIsExcluded(includeTimetables, AUTH_TOKENS, "auth_tokens");
    var schema, tables := MetroTrip(), SyncTables(MetroTrip(), includeTimetables, {"auth_tokens"});
    CascadingKeysDecide(schema, tables, source, before, batchSize, after, AUTH_TOKENS, pk);
    assert schema[AUTH_TOKENS].foreignKeys[0] == OfUser();
  }

  lemma ViewLogKeys()
    ensures TableAt(LINE_VIEW_LOGS).name == "line_view_logs"
    ensures var keys := MetroTrip()[LINE_VIEW_LOGS].foreignKeys;
            |keys| == 2 && keys[0].onDelete == Restrict && keys[1] == Nullable("user_id", USERS, SetNull)
  {
  }

  /** A run without the view logs keeps them all and forgets whose they were. */
  lemma ExcludedViewLogsLoseTheirUsers(includeTimetables: bool, source: Source, before: Database, batchSize: int,
                                       after: Database, pk: int)
    requires CommitsWithout("line_view_logs", includeTimetables, source, before, batchSize, after)
    requires pk in before[LINE_VIEW_LOGS]
    ensures pk in after[LINE_VIEW_LOGS] && "user_id" in after[LINE_VIEW_LOGS][pk]
    ensures after[LINE_VIEW_LOGS][pk]["user_id"] == Null
  {
    hide TableAt, Commits, SyncTables, IsReloaded, IsSchema, MergesStandAlone, IsReference;
    MetroTripIsSchema();
    ViewLogKeys();
    NameIsExcluded(includeTimetables, LINE_VIEW_LOGS, "line_view_logs");
    var schema, tables := MetroTrip(), SyncTables(MetroTrip(), includeTimetables, {"line_view_logs"});
    CascadingKeysDecide(schema, tables, source, before, batchSize, after, LINE_VIEW_LOGS, pk);
    NullingKeysAreNulled(schema, tables, source, before, batchSize, after, LINE_VIEW_LOGS, pk, 1);
  }
}
