/** Travel plans with their ordered items: validation, creation, snapshot update and listing
    (services/plans.py, repositories/plans.py, schemas/plans.py). */
module PlanItems {
  import opened Wrappers
  import opened Clock
  import opened StableSort

  datatype ItemType = StationItem | PlaceItem

  datatype PlanItem = PlanItem(planId: int, itemType: ItemType, placeId: Option<int>, stationId: Option<int>,
                               position: int, visitTime: Option<string>, memo: Option<string>)

  datatype Plan = Plan(userId: int, title: string, startStationId: int, endStationId: int, updatedAt: int)

  /** One item of a write request; the id of an existing item is optional, and so is its position. */
  datatype ItemRequest = ItemRequest(planItemId: Option<int>, itemType: ItemType, placeId: Option<int>,
                                     stationId: Option<int>, position: Option<int>, visitTime: Option<string>,
                                     memo: Option<string>)

  datatype PlanError =
    | ValidationFailed | StationNotFound | PlaceNotFound | PlaceStationMismatch
    | PlanNotFound | PlanForbidden | DuplicatePlanItemId | PlanItemNotFound

  // ---------- Request validation ----------

  /** A time of day as the API reads it, HH:MM or HH:MM:SS, in the form in which it answers. */
  function AcceptedTime(text: string): Option<string> {
    if |text| != 5 && |text| != 8 then None
    else if !IsDigit(text[0]) || !IsDigit(text[1]) || text[2] != ':' || !IsSixty(text[3..5]) then None
    else if DigitsValue(text[..2]) >= 24 then None
    else if |text| == 5 then Some(text + ":00")
    else if text[5] == ':' && IsSixty(text[6..]) then Some(text)
    else None
  }

  predicate IsValidRequest(r: ItemRequest) {
    && (match r.itemType
        case StationItem => r.stationId.Some? && r.placeId.None?
        case PlaceItem => r.placeId.Some?)
    && (r.position.Some? ==> r.position.value >= 1)
    && (r.visitTime.Some? ==> AcceptedTime(r.visitTime.value).Some?)
    && (r.memo.Some? ==> |r.memo.value| <= 255)
  }

  // ---------- What the validation refuses ----------

  predicate IsDigitPair(s: string, i: nat, most: char) {
    i + 1 < |s| && '0' <= s[i] <= most && '0' <= s[i + 1] <= '9'
  }

  /** HH:MM:SS from 00:00:00 to 23:59:59. */
  predicate IsTimeOfDay(s: string) {
    && |s| == 8 && IsDigitPair(s, 0, '2') && (s[0] == '2' ==> s[1] <= '3')
    && s[2] == ':' && IsDigitPair(s, 3, '5') && s[5] == ':' && IsDigitPair(s, 6, '5')
  }

  lemma HoursBelow24(s: string)
    requires |s| >= 2 && IsDigit(s[0]) && IsDigit(s[1])
    ensures DigitsValue(s[..2]) < 24 <==> IsDigitPair(s, 0, '2') && (s[0] == '2' ==> s[1] <= '3')
  {
    var h := s[..2];
    assert h[1..][1..] == "";
    assert DigitsValue(h) == ValueFrom(DigitValue(s[0]), h[1..])
        == ValueFrom(10 * DigitValue(s[0]) + DigitValue(s[1]), "");
  }

  lemma SixtyExactly(s: string, i: nat)
    requires i + 2 <= |s|
    ensures IsSixty(s[i..i + 2]) <==> IsDigitPair(s, i, '5')
  {
  }

  /** Exactly the times of day are accepted, with or without seconds; they are answered with seconds. */
  lemma AcceptedTimeExactly(text: string)
    ensures AcceptedTime(text) == if IsTimeOfDay(text) then Some(text)
                                  else if |text| == 5 && IsTimeOfDay(text + ":00") then Some(text + ":00")
                                  else None
  {
    if |text| == 5 || |text| == 8 {
      if IsDigit(text[0]) && IsDigit(text[1]) {
        HoursBelow24(text);
      }
      SixtyExactly(text, 3);
      assert |text| == 8 ==> text[6..8] == text[6..];
    }
    if |text| == 8 {
      SixtyExactly(text, 6);
    }
    hide IsSixty, DigitsValue;
  }

  /** What is wrong with a requested item, if anything is. */
  predicate HasFault(r: ItemRequest) {
    || (r.itemType == StationItem && (r.stationId.None? || r.placeId.Some?))
    || (r.itemType == PlaceItem && r.placeId.None?)
    || (r.position.Some? && r.position.value < 1)
    || (r.visitTime.Some? && !IsTimeOfDay(r.visitTime.value)
        && !(|r.visitTime.value| == 5 && IsTimeOfDay(r.visitTime.value + ":00")))
    || (r.memo.Some? && |r.memo.value| > 255)
  }

  predicate HasFaults(requests: seq<ItemRequest>) {
    exists r :: r in requests && HasFault(r)
  }

  /** An item is valid exactly if nothing is wrong with it. */
  lemma ValidExactly(r: ItemRequest)
    ensures IsValidRequest(r) <==> !HasFault(r)
  {
    if r.visitTime.Some? {
      AcceptedTimeExactly(r.visitTime.value);
    }
    hide AcceptedTime, IsTimeOfDay;
  }

  lemma AllValidExactly(requests: seq<ItemRequest>)
    ensures (exists r :: r in requests && !IsValidRequest(r)) <==> HasFaults(requests)
  {
    hide IsValidRequest, HasFault;
    forall r | r in requests
      ensures IsValidRequest(r) <==> !HasFault(r)
    {
      ValidExactly(r);
    }
  }

  function TimeOf(r: ItemRequest): Option<string> {
    if r.visitTime.Some? then AcceptedTime(r.visitTime.value) else None
  }

  /** The stations, the places and the place-station pairs that exist. */
  datatype References = References(stations: set<int>, places: set<int>, pairs: set<(int, int)>)

  predicate StationsExist(refs: References, stationIds: set<int>, requests: seq<ItemRequest>) {
    && stationIds <= refs.stations
    && forall i :: 0 <= i < |requests| && requests[i].stationId.Some? ==> requests[i].stationId.value in refs.stations
  }

  predicate PlacesExist(refs: References, requests: seq<ItemRequest>) {
    forall i :: 0 <= i < |requests| && requests[i].placeId.Some? ==> requests[i].placeId.value in refs.places
  }

  predicate PairsExist(refs: References, requests: seq<ItemRequest>) {
    forall i :: 0 <= i < |requests| && requests[i].itemType == PlaceItem
                && requests[i].placeId.Some? && requests[i].stationId.Some?
      ==> (requests[i].placeId.value, requests[i].stationId.value) in refs.pairs
  }

  /** Some station, of the plan or of an item, does not exist. */
  predicate NamesUnknownStation(refs: References, stationIds: set<int>, requests: seq<ItemRequest>) {
    || !(stationIds <= refs.stations)
    || (exists r :: r in requests && r.stationId.Some? && r.stationId.value !in refs.stations)
  }

  predicate NamesUnknownPlace(refs: References, requests: seq<ItemRequest>) {
    exists r :: r in requests && r.placeId.Some? && r.placeId.value !in refs.places
  }

  /** Some place item names a station that is not one of its place. */
  predicate NamesUnknownPair(refs: References, requests: seq<ItemRequest>) {
    exists r :: r in requests && r.itemType == PlaceItem && r.placeId.Some? && r.stationId.Some?
             && (r.placeId.value, r.stationId.value) !in refs.pairs
  }

  lemma ReferencesExactly(refs: References, stationIds: set<int>, requests: seq<ItemRequest>)
    ensures StationsExist(refs, stationIds, requests) <==> !NamesUnknownStation(refs, stationIds, requests)
    ensures PlacesExist(refs, requests) <==> !NamesUnknownPlace(refs, requests)
    ensures PairsExist(refs, requests) <==> !NamesUnknownPair(refs, requests)
  {
    hide PairsExist, NamesUnknownPair;
    PairsExactly(refs, requests);
    if NamesUnknownStation(refs, stationIds, requests) && stationIds <= refs.stations {
      var r :| r in requests && r.stationId.Some? && r.stationId.value !in refs.stations;
      var i :| 0 <= i < |requests| && requests[i] == r;
    }
    if !StationsExist(refs, stationIds, requests) && stationIds <= refs.stations {
      var i :| 0 <= i < |requests| && requests[i].stationId.Some? && requests[i].stationId.value !in refs.stations;
      assert requests[i] in requests;
    }
    if !PlacesExist(refs, requests) {
      var i :| 0 <= i < |requests| && requests[i].placeId.Some? && requests[i].placeId.value !in refs.places;
      assert requests[i] in requests;
    }
  }

  lemma PairsExactly(refs: References, requests: seq<ItemRequest>)
    ensures PairsExist(refs, requests) <==> !NamesUnknownPair(refs, requests)
  {
    if NamesUnknownPair(refs, requests) {
      var r :| r in requests && r.itemType == PlaceItem && r.placeId.Some? && r.stationId.Some?
            && (r.placeId.value, r.stationId.value) !in refs.pairs;
      var i :| 0 <= i < |requests| && requests[i] == r;
      assert (requests[i].placeId.value, requests[i].stationId.value) !in refs.pairs;
    }
    if !PairsExist(refs, requests) {
      var i :| 0 <= i < |requests| && requests[i].itemType == PlaceItem
               && requests[i].placeId.Some? && requests[i].stationId.Some?
               && (requests[i].placeId.value, requests[i].stationId.value) !in refs.pairs;
      assert requests[i] in requests;
    }
  }

  function RequireReferences(refs: References, stationIds: set<int>, requests: seq<ItemRequest>)
    : (error: Option<PlanError>)
    ensures error == Some(StationNotFound) <==> NamesUnknownStation(refs, stationIds, requests)
    ensures error == Some(PlaceNotFound)
       <==> !NamesUnknownStation(refs, stationIds, requests) && NamesUnknownPlace(refs, requests)
    ensures error == Some(PlaceStationMismatch)
       <==> (&& !NamesUnknownStation(refs, stationIds, requests) && !NamesUnknownPlace(refs, requests)
             && NamesUnknownPair(refs, requests))
    ensures error.None?
       <==> (&& !NamesUnknownStation(refs, stationIds, requests) && !NamesUnknownPlace(refs, requests)
             && !NamesUnknownPair(refs, requests))
  {
    ReferencesExactly(refs, stationIds, requests);
    if !StationsExist(refs, stationIds, requests) then Some(StationNotFound)
    else if !PlacesExist(refs, requests) then Some(PlaceNotFound)
    else if !PairsExist(refs, requests) then Some(PlaceStationMismatch)
    else None
  }

  // ---------- The snapshot ----------

  predicate DistinctIds(requests: seq<ItemRequest>) {
    forall i, j :: 0 <= i < j < |requests| && requests[i].planItemId.Some?
      ==> requests[i].planItemId != requests[j].planItemId
  }

  predicate KnownIds(items: map<int, PlanItem>, planId: int, requests: seq<ItemRequest>) {
    forall i :: 0 <= i < |requests| && requests[i].planItemId.Some?
      ==> requests[i].planItemId.value in items && items[requests[i].planItemId.value].planId == planId
  }

  function RequestedIds(requests: seq<ItemRequest>): (ids: set<int>)
    ensures forall i :: 0 <= i < |requests| && requests[i].planItemId.Some? ==> requests[i].planItemId.value in ids
    ensures forall id :: id in ids ==> exists i :: 0 <= i < |requests| && requests[i].planItemId == Some(id)
  {
    set i | 0 <= i < |requests| && requests[i].planItemId.Some? :: requests[i].planItemId.value
  }

  /** How many of the first n requested items are new. */
  function NewAmong(requests: seq<ItemRequest>, n: nat): nat
    requires n <= |requests|
  {
    if n == 0 then 0 else NewAmong(requests, n - 1) + (if requests[n - 1].planItemId.None? then 1 else 0)
  }

  /** The id under which request i is stored: its own, or the next free one in request order. */
  function StoredId(requests: seq<ItemRequest>, nextId: int, i: nat): int
    requires i < |requests|
  {
    if requests[i].planItemId.Some? then requests[i].planItemId.value else nextId + NewAmong(requests, i)
  }

  /** Position 0 and no position both stand for the item's place in the request. */
  function StoredItem(requests: seq<ItemRequest>, planId: int, i: nat): PlanItem
    requires i < |requests|
  {
    var r := requests[i];
    PlanItem(planId, r.itemType, r.placeId, r.stationId,
             if r.position.Some? && r.position.value != 0 then r.position.value else i + 1, TimeOf(r), r.memo)
  }

  /** The stored item shows request i: its own position or its place in the request, its time with seconds. */
  predicate ShowsRequest(item: PlanItem, planId: int, r: ItemRequest, i: nat) {
    && item.planId == planId && item.itemType == r.itemType
    && item.placeId == r.placeId && item.stationId == r.stationId && item.memo == r.memo
    && (r.position.Some? ==> item.position == r.position.value) && (r.position.None? ==> item.position == i + 1)
    && (r.visitTime.None? ==> item.visitTime.None?)
    && (r.visitTime.Some? ==>
          && item.visitTime.Some? && IsTimeOfDay(item.visitTime.value)
          && (item.visitTime == r.visitTime || item.visitTime == Some(r.visitTime.value + ":00")))
  }

  predicate IsStored(requests: seq<ItemRequest>, nextId: int, id: int, n: nat)
    requires n <= |requests|
  {
    exists i :: 0 <= i < n && StoredId(requests, nextId, i) == id
  }

  /** After the update the plan's items are exactly the requested ones, and nothing else changed. */
  ghost predicate IsSnapshot(before: map<int, PlanItem>, nextId: int, planId: int, requests: seq<ItemRequest>,
                             after: map<int, PlanItem>)
  {
    && (forall i :: 0 <= i < |requests| ==>
          && StoredId(requests, nextId, i) in after
          && after[StoredId(requests, nextId, i)] == StoredItem(requests, planId, i))
    && (forall id :: id in after && after[id].planId == planId ==> IsStored(requests, nextId, id, |requests|))
    && (forall id :: id in before && before[id].planId != planId ==> id in after && after[id] == before[id])
    && (forall id :: id in after && after[id].planId != planId ==> id in before && after[id] == before[id])
  }

  /** What a snapshot of valid requests holds: each shown by one item, the existing ones under their ids. */
  lemma SnapshotShows(before: map<int, PlanItem>, nextId: int, planId: int, requests: seq<ItemRequest>,
                      after: map<int, PlanItem>, i: nat)
    returns (id: int)
    requires IsSnapshot(before, nextId, planId, requests, after) && i < |requests| && IsValidRequest(requests[i])
    ensures id in after && ShowsRequest(after[id], planId, requests[i], i)
    ensures requests[i].planItemId.Some? ==> id == requests[i].planItemId.value
    ensures requests[i].planItemId.None? ==> id == nextId + NewAmong(requests, i)
  {
    id := StoredId(requests, nextId, i);
    if requests[i].visitTime.Some? {
      AcceptedTimeExactly(requests[i].visitTime.value);
    }
    hide AcceptedTime, IsTimeOfDay, NewAmong;
  }

  // ---------- Listing ----------

  datatype Entry = Entry(id: int, item: PlanItem)

  /** ORDER BY position, plan_item_id. */
  function EntryKey(e: Entry): Key {
    Key(e.item.position, e.id)
  }

  /** The plan's items, each once, in listing order. */
  ghost predicate IsListing(items: map<int, PlanItem>, planId: int, listing: seq<Entry>) {
    && StrictlyAscending(listing, EntryKey)
    && (forall e :: e in listing <==> e.id in items && items[e.id] == e.item && e.item.planId == planId)
  }

  lemma {:induction false} DistinctOnce<T>(s: seq<T>, x: T)
    requires forall i, j :: 0 <= i < j < |s| ==> s[i] != s[j]
    ensures multiset(s)[x] == if x in s then 1 else 0
  {
    if s != [] {
      DistinctOnce(s[1..], x);
      assert s == [s[0]] + s[1..];
      assert multiset(s) == multiset{s[0]} + multiset(s[1..]);
      assert forall i :: 0 < i < |s| ==> s[0] != s[i];
    }
  }

  /** Items of different ids, in key order, are in strict key order. */
  lemma AscendingOfDistinct(entries: seq<Entry>, sorted: seq<Entry>)
    requires Ascending(sorted, EntryKey) && multiset(sorted) == multiset(entries)
    requires forall i, j :: 0 <= i < j < |entries| ==> entries[i].id != entries[j].id
    ensures StrictlyAscending(sorted, EntryKey)
  {
    forall i, j | 0 <= i < j < |sorted|
      ensures EntryKey(sorted[i]).Less(EntryKey(sorted[j]))
    {
      assert EntryKey(sorted[i]).Leq(EntryKey(sorted[j]));
      SortedDiffer(entries, sorted, i, j);
    }
  }

  lemma SortedDiffer(entries: seq<Entry>, sorted: seq<Entry>, i: nat, j: nat)
    requires multiset(sorted) == multiset(entries) && i < j < |sorted|
    requires forall i, j :: 0 <= i < j < |entries| ==> entries[i].id != entries[j].id
    ensures sorted[i].id != sorted[j].id
  {
    assert sorted[i] in multiset(entries) && sorted[j] in multiset(entries);
    assert sorted[i] in entries && sorted[j] in entries;
    DistinctOnce(entries, sorted[i]);
    OccursTwice(sorted, i, j);
  }

  lemma OccursTwice<T>(s: seq<T>, i: nat, j: nat)
    requires i < j < |s|
    ensures s[i] == s[j] ==> multiset(s)[s[i]] >= 2
  {
    var rest := s[i + 1..];
    assert s == s[..i] + [s[i]] + rest;
    assert s[j] == rest[j - i - 1] && s[j] in rest;
  }

  lemma AscendingDiffer(s: seq<Entry>)
    requires StrictlyAscending(s, EntryKey)
    ensures forall i, j :: 0 <= i < j < |s| ==> s[i] != s[j]
  {
    assert forall i, j :: 0 <= i < j < |s| ==> EntryKey(s[i]).Less(EntryKey(s[j]));
  }

  /** There is only one listing. */
  lemma SameElementsSameOrder(s: seq<Entry>, t: seq<Entry>)
    requires StrictlyAscending(s, EntryKey) && StrictlyAscending(t, EntryKey)
    requires forall e :: e in s <==> e in t
    ensures s == t
  {
    forall e
      ensures multiset(s)[e] == multiset(t)[e]
    {
      AscendingDiffer(s);
      AscendingDiffer(t);
      DistinctOnce(s, e);
      DistinctOnce(t, e);
    }
    assert multiset(s) == multiset(t);
    AscendingUnique(s, t, EntryKey);
  }

  function RequestedEntry(requests: seq<ItemRequest>, nextId: int, planId: int, i: nat): Entry
    requires i < |requests|
  {
    Entry(StoredId(requests, nextId, i), StoredItem(requests, planId, i))
  }

  /** The requested items as entries, in request order. */
  function RequestedEntries(requests: seq<ItemRequest>, nextId: int, planId: int): (entries: seq<Entry>)
    ensures |entries| == |requests|
    ensures forall i :: 0 <= i < |requests| ==> entries[i] == RequestedEntry(requests, nextId, planId, i)
  {
    seq(|requests|, i requires 0 <= i < |requests| => RequestedEntry(requests, nextId, planId, i))
  }

  /** After an update the listing is the request, in its order, exactly when its positions, with ids deciding between
      equal ones, increase. */
  lemma ListingIsRequestExactly(before: map<int, PlanItem>, nextId: int, planId: int,
                                requests: seq<ItemRequest>, after: map<int, PlanItem>, listing: seq<Entry>)
    requires IsSnapshot(before, nextId, planId, requests, after) && IsListing(after, planId, listing)
    ensures (listing == RequestedEntries(requests, nextId, planId))
            <==> StrictlyAscending(RequestedEntries(requests, nextId, planId), EntryKey)
  {
    var entries := RequestedEntries(requests, nextId, planId);
    if StrictlyAscending(entries, EntryKey) {
      forall e
        ensures e in listing <==> e in entries
      {
        if e in listing {
          var i :| 0 <= i < |requests| && StoredId(requests, nextId, i) == e.id;
          assert entries[i] == e;
        }
      }
      SameElementsSameOrder(listing, entries);
    }
  }

  /** Positions left out, or given and increasing, keep the request order. */
  lemma ListingKeepsRequestOrder(before: map<int, PlanItem>, nextId: int, planId: int,
                                 requests: seq<ItemRequest>, after: map<int, PlanItem>, listing: seq<Entry>)
    requires IsSnapshot(before, nextId, planId, requests, after) && IsListing(after, planId, listing)
    requires (forall i :: 0 <= i < |requests| ==> requests[i].position.None?)
          || (forall i :: 0 <= i < |requests| ==> requests[i].position.Some? && requests[i].position.value >= 1)
    requires forall i, j :: 0 <= i < j < |requests| && requests[i].position.Some? && requests[j].position.Some?
               ==> requests[i].position.value < requests[j].position.value
    ensures listing == RequestedEntries(requests, nextId, planId)
  {
    ListingIsRequestExactly(before, nextId, planId, requests, after, listing);
  }

  // ---------- What a snapshot update does to ids ----------

  lemma {:induction false} NewAmongGrows(requests: seq<ItemRequest>, m: nat, n: nat)
    requires m <= n <= |requests|
    ensures NewAmong(requests, m) <= NewAmong(requests, n)
    ensures m < n && requests[m].planItemId.None? ==> NewAmong(requests, m) < NewAmong(requests, n)
  {
    if m < n {
      NewAmongGrows(requests, m, n - 1);
    }
  }

  /** No two requested items share an id. */
  lemma StoredIdsDiffer(requests: seq<ItemRequest>, nextId: int, i: nat, j: nat)
    requires i < j < |requests| && DistinctIds(requests)
    requires forall k :: 0 <= k < |requests| && requests[k].planItemId.Some? ==> requests[k].planItemId.value < nextId
    ensures StoredId(requests, nextId, i) != StoredId(requests, nextId, j)
  {
    NewAmongGrows(requests, i, j);
  }

  /** The plan keeps the items it is asked to keep, loses the others, and gets fresh ids for the new ones;
      no other plan's item is created, changed or lost. */
  lemma SnapshotIds(before: map<int, PlanItem>, nextId: int, planId: int, requests: seq<ItemRequest>,
                    after: map<int, PlanItem>, id: int)
    requires IsSnapshot(before, nextId, planId, requests, after)
    requires KnownIds(before, planId, requests) && forall k :: k in before ==> k < nextId
    ensures id in before && before[id].planId == planId
            ==> (id in after <==> exists i :: 0 <= i < |requests| && requests[i].planItemId == Some(id))
    ensures id in before && before[id].planId != planId ==> id in after && after[id] == before[id]
    ensures id in after && id !in before
            ==> after[id].planId == planId && nextId <= id < nextId + NewAmong(requests, |requests|)
  {
    forall i | 0 <= i < |requests| && requests[i].planItemId == Some(id)
      ensures StoredId(requests, nextId, i) == id && IsStored(requests, nextId, id, |requests|)
    {
    }
    if IsStored(requests, nextId, id, |requests|) {
      var i :| 0 <= i < |requests| && StoredId(requests, nextId, i) == id;
      NewAmongGrows(requests, i, |requests|);
      assert requests[i].planItemId.Some? ==> requests[i].planItemId == Some(id);
    }
  }

  /** A stored id that existed before is one of the requested ones. */
  lemma KeptAreStored(requests: seq<ItemRequest>, nextId: int, before: map<int, PlanItem>)
    requires forall k :: k in before ==> k < nextId
    ensures forall id :: id in before ==> (IsStored(requests, nextId, id, |requests|) <==> id in RequestedIds(requests))
  {
    forall id | id in before
      ensures IsStored(requests, nextId, id, |requests|) <==> id in RequestedIds(requests)
    {
      if id in RequestedIds(requests) {
        var i :| 0 <= i < |requests| && requests[i].planItemId == Some(id);
        assert StoredId(requests, nextId, i) == id;
      }
    }
  }

  // ---------- The store ----------

  /** What every stored item satisfies: a station item names no place, a place item names one, the position counts
      from 1 and the time is in the form in which it is answered. */
  predicate IsSoundItem(item: PlanItem) {
    && (match item.itemType
        case StationItem => item.placeId.None?
        case PlaceItem => item.placeId.Some?)
    && item.position >= 1
    && (item.visitTime.Some? ==> AcceptedTime(item.visitTime.value) == item.visitTime)
  }

  /** An accepted time is accepted again as it is. */
  lemma AcceptedTimeIsNormal(text: string)
    ensures var t := AcceptedTime(text); t.Some? ==> AcceptedTime(t.value) == t
  {
    if |text| == 5 {
      var t := text + ":00";
      assert t[..2] == text[..2] && t[3..5] == text[3..5] && t[6..] == "00";
    }
  }

  lemma StoredItemIsSound(requests: seq<ItemRequest>, planId: int, i: nat)
    requires i < |requests| && IsValidRequest(requests[i])
    ensures IsSoundItem(StoredItem(requests, planId, i))
  {
    if requests[i].visitTime.Some? {
      AcceptedTimeIsNormal(requests[i].visitTime.value);
    }
  }

  function WithoutIds(requests: seq<ItemRequest>): (r: seq<ItemRequest>)
    ensures |r| == |requests|
    ensures forall i :: 0 <= i < |r| ==> r[i] == requests[i].(planItemId := None)
  {
    seq(|requests|, i requires 0 <= i < |requests| => requests[i].(planItemId := None))
  }

  /** The plan fields a request may set; a field left out keeps its value. */
  datatype PlanFields = PlanFields(title: Option<string>, startStationId: Option<int>, endStationId: Option<int>) {
    predicate AnySet() {
      title.Some? || startStationId.Some? || endStationId.Some?
    }

    predicate IsValid() {
      title.Some? ==> 1 <= |title.value| <= 100
    }

    function ApplyTo(plan: Plan): Plan {
      plan.(title := if title.Some? then title.value else plan.title,
            startStationId := if startStationId.Some? then startStationId.value else plan.startStationId,
            endStationId := if endStationId.Some? then endStationId.value else plan.endStationId)
    }
  }

  /** The stations of the plan and its new items after the update. */
  predicate NamesUnknown(refs: References, plan: Plan, fields: PlanFields, requests: seq<ItemRequest>,
                         error: PlanError)
  {
    var stations := {if fields.startStationId.Some? then fields.startStationId.value else plan.startStationId,
                     if fields.endStationId.Some? then fields.endStationId.value else plan.endStationId};
    match error
    case StationNotFound => NamesUnknownStation(refs, stations, requests)
    case PlaceNotFound => !NamesUnknownStation(refs, stations, requests) && NamesUnknownPlace(refs, requests)
    case PlaceStationMismatch =>
      && !NamesUnknownStation(refs, stations, requests) && !NamesUnknownPlace(refs, requests)
      && NamesUnknownPair(refs, requests)
    case _ => false
  }

  predicate IsBadUpdate(fields: PlanFields, requested: Option<seq<ItemRequest>>) {
    || (fields.title.Some? && (|fields.title.value| < 1 || |fields.title.value| > 100))
    || (requested.Some? && HasFaults(requested.value))
  }

  /** The update asks for a change, even if to the same values. */
  predicate AsksForChange(fields: PlanFields, requested: Option<seq<ItemRequest>>) {
    fields.title.Some? || fields.startStationId.Some? || fields.endStationId.Some? || requested.Some?
  }

  /** The given fields are set, the others kept; the plan is touched exactly if a change was asked for. */
  predicate IsPlanUpdate(before: Plan, fields: PlanFields, requested: Option<seq<ItemRequest>>, now: int, after: Plan) {
    && after.userId == before.userId
    && (if fields.title.Some? then fields.title == Some(after.title) else after.title == before.title)
    && (if fields.startStationId.Some? then fields.startStationId == Some(after.startStationId)
        else after.startStationId == before.startStationId)
    && (if fields.endStationId.Some? then fields.endStationId == Some(after.endStationId)
        else after.endStationId == before.endStationId)
    && after.updatedAt == if AsksForChange(fields, requested) then now else before.updatedAt
  }

  /** Some id is asked for twice, some id is not that of an item of the plan. */
  predicate RepeatsId(requests: seq<ItemRequest>) {
    exists i, j :: 0 <= i < j < |requests| && requests[i].planItemId.Some?
                && requests[i].planItemId == requests[j].planItemId
  }

  predicate NamesForeignItem(items: map<int, PlanItem>, planId: int, requests: seq<ItemRequest>) {
    exists r :: r in requests && r.planItemId.Some?
             && (r.planItemId.value in items ==> items[r.planItemId.value].planId != planId)
  }

  /** Why an update is refused, if it is: the checks in the order in which they are made. */
  function UpdateError(refs: References, plans: map<int, Plan>, items: map<int, PlanItem>, planId: int, userId: int,
                       fields: PlanFields, requested: Option<seq<ItemRequest>>): (error: Option<PlanError>)
  {
    if !fields.IsValid() || (requested.Some? && exists r :: r in requested.value && !IsValidRequest(r)) then
      Some(ValidationFailed)
    else if planId !in plans then Some(PlanNotFound)
    else if plans[planId].userId != userId then Some(PlanForbidden)
    else
      var after := fields.ApplyTo(plans[planId]);
      var requests := if requested.Some? then requested.value else [];
      var missing := RequireReferences(refs, {after.startStationId, after.endStationId}, requests);
      if (fields.AnySet() || requested.Some?) && missing.Some? then missing
      else if !DistinctIds(requests) then Some(DuplicatePlanItemId)
      else if !KnownIds(items, planId, requests) then Some(PlanItemNotFound)
      else None
  }

  /** Each refusal has exactly its reason, after those that are checked before it; nothing else is refused. */
  lemma UpdateErrorExactly(refs: References, plans: map<int, Plan>, items: map<int, PlanItem>, planId: int,
                           userId: int, fields: PlanFields, requested: Option<seq<ItemRequest>>)
    ensures var error := UpdateError(refs, plans, items, planId, userId, fields, requested);
      var requests := if requested.Some? then requested.value else [];
      if IsBadUpdate(fields, requested) then error == Some(ValidationFailed)
      else if planId !in plans then error == Some(PlanNotFound)
      else if plans[planId].userId != userId then error == Some(PlanForbidden)
      else if AsksForChange(fields, requested)
              && exists e :: NamesUnknown(refs, plans[planId], fields, requests, e)
      then error.Some? && NamesUnknown(refs, plans[planId], fields, requests, error.value)
      else if RepeatsId(requests) then error == Some(DuplicatePlanItemId)
      else if NamesForeignItem(items, planId, requests) then error == Some(PlanItemNotFound)
      else error == None
  {
    if requested.Some? {
      AllValidExactly(requested.value);
    }
    KnownExactly(items, planId, if requested.Some? then requested.value else []);
    hide HasFaults, IsValidRequest, KnownIds, DistinctIds, NamesForeignItem, RepeatsId;
    hide NamesUnknownStation, NamesUnknownPlace, NamesUnknownPair;
  }

  lemma KnownExactly(items: map<int, PlanItem>, planId: int, requests: seq<ItemRequest>)
    ensures DistinctIds(requests) <==> !RepeatsId(requests)
    ensures KnownIds(items, planId, requests) <==> !NamesForeignItem(items, planId, requests)
  {
  }

  lemma SortedListing(items: map<int, PlanItem>, planId: int, entries: seq<Entry>)
    requires forall e :: e in entries <==> (e.id in items && items[e.id] == e.item && e.item.planId == planId)
    requires forall i, j :: 0 <= i < j < |entries| ==> entries[i].id != entries[j].id
    ensures IsListing(items, planId, SortBy(entries, EntryKey))
  {
    SortByFacts(entries, EntryKey);
    var sorted := SortBy(entries, EntryKey);
    assert forall e :: e in sorted <==> e in multiset(sorted);
    assert forall e :: e in entries <==> e in multiset(entries);
    AscendingOfDistinct(entries, sorted);
  }

  /** A snapshot of sound requests, beside sound items, is sound. */
  lemma SnapshotIsSound(before: map<int, PlanItem>, nextId: int, planId: int,
                        requests: seq<ItemRequest>, after: map<int, PlanItem>)
    requires IsSnapshot(before, nextId, planId, requests, after) && forall r :: r in requests ==> IsValidRequest(r)
    requires forall id :: id in before ==> 1 <= id < nextId && IsSoundItem(before[id])
    requires KnownIds(before, planId, requests) && nextId >= 1
    ensures forall id :: id in after ==>
              && 1 <= id < nextId + NewAmong(requests, |requests|)
              && IsSoundItem(after[id])
              && (after[id].planId == planId || (id in before && before[id] == after[id]))
  {
    forall id | id in after
      ensures 1 <= id < nextId + NewAmong(requests, |requests|) && IsSoundItem(after[id])
    {
      SnapshotIds(before, nextId, planId, requests, after, id);
      if after[id].planId == planId {
        var i :| 0 <= i < |requests| && StoredId(requests, nextId, i) == id;
        StoredItemIsSound(requests, planId, i);
      }
    }
  }

  /** Adding items to a plan without any is a snapshot update. */
  lemma FreshSnapshot(before: map<int, PlanItem>, nextId: int, planId: int,
                      requests: seq<ItemRequest>, after: map<int, PlanItem>)
    requires forall id :: id in before ==> id < nextId && before[id].planId != planId
    requires forall r :: r in requests ==> r.planItemId.None?
    requires AreWritten(before, nextId, planId, requests, |requests|, after)
    ensures IsSnapshot(before, nextId, planId, requests, after)
  {
    assert forall i :: 0 <= i < |requests| ==> StoredId(requests, nextId, i) >= nextId;
    assert forall id :: id in before ==> !IsStored(requests, nextId, id, |requests|);
  }

  ghost predicate ArePlans(plans: map<int, Plan>, nextPlanId: int) {
    nextPlanId >= 1 && forall id :: id in plans ==> 1 <= id < nextPlanId
  }

  /** Every item is sound, belongs to a plan and has an id that was given out. */
  ghost predicate AreItems(plans: map<int, Plan>, items: map<int, PlanItem>, nextItemId: int) {
    nextItemId >= 1
    && forall id :: id in items ==> 1 <= id < nextItemId && items[id].planId in plans && IsSoundItem(items[id])
  }

  predicate AreValid(requests: seq<ItemRequest>) {
    forall r :: r in requests ==> IsValidRequest(r)
  }

  lemma ItemsAfterSnapshot(plans: map<int, Plan>, before: map<int, PlanItem>, nextId: int, planId: int,
                           requests: seq<ItemRequest>, after: map<int, PlanItem>)
    requires AreItems(plans, before, nextId) && planId in plans && AreValid(requests)
    requires IsSnapshot(before, nextId, planId, requests, after) && KnownIds(before, planId, requests)
    ensures AreItems(plans, after, nextId + NewAmong(requests, |requests|))
  {
    SnapshotIsSound(before, nextId, planId, requests, after);
    hide IsSnapshot, KnownIds, IsValidRequest, IsSoundItem;
  }

  /** Nothing belongs to a plan that is to come. */
  lemma NoItemsYet(plans: map<int, Plan>, items: map<int, PlanItem>, nextPlanId: int, nextItemId: int, plan: Plan)
    requires ArePlans(plans, nextPlanId) && AreItems(plans, items, nextItemId)
    ensures nextPlanId !in plans && ArePlans(plans[nextPlanId := plan], nextPlanId + 1)
    ensures AreItems(plans[nextPlanId := plan], items, nextItemId)
    ensures forall id :: id in items ==> id < nextItemId && items[id].planId != nextPlanId
  {
    hide IsSoundItem;
  }

  /** The items written for a new plan. */
  lemma NewItemsAreSnapshot(plans: map<int, Plan>, before: map<int, PlanItem>, nextPlanId: int, nextId: int, plan: Plan,
                            requests: seq<ItemRequest>, after: map<int, PlanItem>)
    requires ArePlans(plans, nextPlanId) && AreItems(plans, before, nextId)
    requires AreValid(requests) && forall i :: 0 <= i < |requests| ==> requests[i].planItemId.None?
    requires AreWritten(before, nextId, nextPlanId, requests, |requests|, after)
    ensures IsSnapshot(before, nextId, nextPlanId, requests, after)
    ensures AreItems(plans[nextPlanId := plan], after, nextId + NewAmong(requests, |requests|))
  {
    NoItemsYet(plans, before, nextPlanId, nextId, plan);
    NewIdsAreKnown(before, nextPlanId, requests);
    hide AreItems, ArePlans, AreWritten, IsSnapshot, KnownIds, DistinctIds, IsValidRequest;
    FreshSnapshot(before, nextId, nextPlanId, requests, after);
    ItemsAfterSnapshot(plans[nextPlanId := plan], before, nextId, nextPlanId, requests, after);
  }

  lemma ValidWithoutIds(requested: seq<ItemRequest>)
    requires forall q :: q in requested ==> IsValidRequest(q)
    ensures AreValid(WithoutIds(requested))
  {
    forall i | 0 <= i < |requested|
      ensures IsValidRequest(WithoutIds(requested)[i])
    {
      assert requested[i] in requested;
    }
  }

  lemma NewIdsAreKnown(items: map<int, PlanItem>, planId: int, requests: seq<ItemRequest>)
    requires forall i :: 0 <= i < |requests| ==> requests[i].planItemId.None?
    ensures DistinctIds(requests) && KnownIds(items, planId, requests)
  {
  }

  lemma NothingRequested(items: map<int, PlanItem>, planId: int)
    ensures DistinctIds([]) && KnownIds(items, planId, [])
  {
  }

  lemma PlanStays(plans: map<int, Plan>, nextPlanId: int, planId: int, plan: Plan)
    requires ArePlans(plans, nextPlanId) && planId in plans
    ensures ArePlans(plans[planId := plan], nextPlanId)
  {
  }

  /** Another plan, or a plan changed, does not affect the items. */
  lemma ItemsStay(plans: map<int, Plan>, items: map<int, PlanItem>, nextId: int, planId: int, plan: Plan)
    requires AreItems(plans, items, nextId)
    ensures AreItems(plans[planId := plan], items, nextId)
  {
    hide IsSoundItem;
  }

  /** The first n requests are written: added or overwritten under their ids, and nothing else has changed. */
  ghost predicate AreWritten(before: map<int, PlanItem>, nextId: int, planId: int, requests: seq<ItemRequest>, n: nat,
                             items: map<int, PlanItem>)
    requires n <= |requests|
  {
    && (forall i :: 0 <= i < n ==>
          && StoredId(requests, nextId, i) in items
          && items[StoredId(requests, nextId, i)] == StoredItem(requests, planId, i))
    && (forall id :: id in items ==> id in before || IsStored(requests, nextId, id, n))
    && (forall id :: id in before && !IsStored(requests, nextId, id, n) ==> id in items && items[id] == before[id])
  }

  /** Under which id and with which values request n is written. */
  lemma StoredNext(requests: seq<ItemRequest>, nextId: int, planId: int, n: nat)
    requires n < |requests|
    ensures var r := requests[n];
      && StoredId(requests, nextId, n)
         == (if r.planItemId.Some? then r.planItemId.value else nextId + NewAmong(requests, n))
      && NewAmong(requests, n + 1) == NewAmong(requests, n) + (if r.planItemId.None? then 1 else 0)
      && StoredItem(requests, planId, n)
         == PlanItem(planId, r.itemType, r.placeId, r.stationId,
                     if r.position.Some? && r.position.value != 0 then r.position.value else n + 1, TimeOf(r), r.memo)
  {
    hide TimeOf;
  }

  lemma NothingWritten(before: map<int, PlanItem>, nextId: int, planId: int, requests: seq<ItemRequest>)
    ensures AreWritten(before, nextId, planId, requests, 0, before) && NewAmong(requests, 0) == 0
  {
  }

  lemma WriteNext(before: map<int, PlanItem>, nextId: int, planId: int, requests: seq<ItemRequest>, n: nat,
                  items: map<int, PlanItem>)
    requires n < |requests| && DistinctIds(requests) && AreWritten(before, nextId, planId, requests, n, items)
    requires AreOldIds(requests, nextId)
    ensures AreWritten(before, nextId, planId, requests, n + 1,
                       items[StoredId(requests, nextId, n) := StoredItem(requests, planId, n)])
  {
    hide DistinctIds, StoredItem;
    forall i | 0 <= i < n
      ensures StoredId(requests, nextId, i) != StoredId(requests, nextId, n)
    {
      StoredIdsDiffer(requests, nextId, i, n);
    }
    hide StoredId;
    assert forall id :: IsStored(requests, nextId, id, n) ==> IsStored(requests, nextId, id, n + 1);
    assert IsStored(requests, nextId, StoredId(requests, nextId, n), n + 1);
  }

  lemma IdsAreOld(plans: map<int, Plan>, items: map<int, PlanItem>, nextId: int, planId: int,
                  requests: seq<ItemRequest>)
    requires AreItems(plans, items, nextId) && KnownIds(items, planId, requests)
    ensures AreOldIds(requests, nextId)
  {
    hide IsSoundItem;
  }

  predicate AreOldIds(requests: seq<ItemRequest>, nextId: int) {
    forall k :: 0 <= k < |requests| && requests[k].planItemId.Some? ==> requests[k].planItemId.value < nextId
  }

  /** Once the items that are no longer requested are deleted, the written items are the snapshot. */
  lemma WrittenIsSnapshot(before: map<int, PlanItem>, nextId: int, planId: int, requests: seq<ItemRequest>,
                          items: map<int, PlanItem>, existing: set<int>)
    requires AreWritten(before, nextId, planId, requests, |requests|, items) && forall k :: k in before ==> k < nextId
    requires forall id :: id in existing <==> id in before && before[id].planId == planId
    requires KnownIds(before, planId, requests)
    ensures IsSnapshot(before, nextId, planId, requests, items - (existing - RequestedIds(requests)))
  {
    KeptAreStored(requests, nextId, before);
    hide StoredId, TimeOf;
    forall i | 0 <= i < |requests|
      ensures StoredId(requests, nextId, i) !in existing - RequestedIds(requests)
    {
      assert IsStored(requests, nextId, StoredId(requests, nextId, i), |requests|);
    }
  }

  class PlanStore {
    const refs: References
    var plans: map<int, Plan>
    var items: map<int, PlanItem>
    var nextPlanId: int
    var nextItemId: int

    ghost predicate Valid()
      reads this
    {
      ArePlans(plans, nextPlanId) && AreItems(plans, items, nextItemId)
    }

    constructor (refs: References)
      ensures Valid() && this.refs == refs && plans == map[] && items == map[]
    {
      this.refs := refs;
      plans, items, nextPlanId, nextItemId := map[], map[], 1, 1;
    }

    method AddPlanItem(item: PlanItem)
      modifies this`items, this`nextItemId
      ensures items == old(items)[old(nextItemId) := item] && nextItemId == old(nextItemId) + 1
    {
      items := items[nextItemId := item];
      nextItemId := nextItemId + 1;
    }

    /** Adds the new items and overwrites the existing ones, in request order. */
    method WriteItems(planId: int, requests: seq<ItemRequest>)
      requires Valid() && DistinctIds(requests) && KnownIds(items, planId, requests)
      modifies this`items, this`nextItemId
      ensures nextItemId == old(nextItemId) + NewAmong(requests, |requests|)
      ensures AreWritten(old(items), old(nextItemId), planId, requests, |requests|, items)
    {
      ghost var before, next := items, nextItemId;
      IdsAreOld(plans, items, nextItemId, planId, requests);
      NothingWritten(before, next, planId, requests);
      hide *;
      for n := 0 to |requests|
        invariant nextItemId == next + NewAmong(requests, n)
        invariant AreWritten(before, next, planId, requests, n, items)
      {
        var r := requests[n];
        var position := if r.position.Some? && r.position.value != 0 then r.position.value else n + 1;
        var item := PlanItem(planId, r.itemType, r.placeId, r.stationId, position, TimeOf(r), r.memo);
        WriteNext(before, next, planId, requests, n, items);
        StoredNext(requests, next, planId, n);
        if r.planItemId.None? {
          AddPlanItem(item);
        } else {
          items := items[r.planItemId.value := item];
        }
      }
    }

    method DeletePlanItems(ids: set<int>)
      modifies this`items
      ensures items == old(items) - ids
    {
      items := items - ids;
    }

    /** Makes the plan's items the requested snapshot, or refuses and changes nothing. */
    method SyncPlanItems(planId: int, requests: seq<ItemRequest>) returns (error: Option<PlanError>)
      requires Valid()
      modifies this`items, this`nextItemId
      ensures !DistinctIds(requests) ==> error == Some(DuplicatePlanItemId)
      ensures DistinctIds(requests) && !KnownIds(old(items), planId, requests) ==> error == Some(PlanItemNotFound)
      ensures error.Some? ==> unchanged(this)
      ensures DistinctIds(requests) && KnownIds(old(items), planId, requests) ==>
                && error == None
                && IsSnapshot(old(items), old(nextItemId), planId, requests, items)
                && nextItemId == old(nextItemId) + NewAmong(requests, |requests|)
    {
      if !DistinctIds(requests) {
        return Some(DuplicatePlanItemId);
      }
      var existing := set id | id in items && items[id].planId == planId;
      var requestedIds := RequestedIds(requests);
      if exists id :: id in requestedIds && id !in existing {
        return Some(PlanItemNotFound);
      }
      assert KnownIds(items, planId, requests);
      ghost var before, next := items, nextItemId;
      assert forall k :: k in before ==> k < next;
      hide AreItems, ArePlans, KnownIds, DistinctIds, IsSnapshot, AreWritten;
      WriteItems(planId, requests);
      WrittenIsSnapshot(before, next, planId, requests, items, existing);
      DeletePlanItems(existing - requestedIds);
      error := None;
    }

    /** The plan's items ordered by position and id. */
    method ListPlanItems(planId: int) returns (listing: seq<Entry>)
      requires Valid()
      ensures IsListing(items, planId, listing)
    {
      var entries: seq<Entry> := [];
      for id := 1 to nextItemId
        invariant forall e :: e in entries <==>
                    (e.id in items && e.id < id && items[e.id] == e.item && e.item.planId == planId)
        invariant forall i, j :: 0 <= i < j < |entries| ==> entries[i].id != entries[j].id
      {
        if id in items && items[id].planId == planId {
          entries := entries + [Entry(id, items[id])];
        }
      }
      SortedListing(items, planId, entries);
      listing := SortBy(entries, EntryKey);
    }

    /** Creates the plan with its items, or refuses and changes nothing; ids sent along are ignored. */
    method CreatePlan(userId: int, title: string, startStationId: int, endStationId: int, requested: seq<ItemRequest>,
                      now: int) returns (r: Result<int, PlanError>)
      requires Valid()
      modifies this`plans, this`items, this`nextPlanId, this`nextItemId
      ensures Valid()
      ensures r == Err(ValidationFailed) <==> |title| < 1 || |title| > 100 || HasFaults(requested)
      ensures (r.Err? && r.error != ValidationFailed)
              ==> RequireReferences(refs, {startStationId, endStationId}, requested) == Some(r.error)
      ensures r.Err? ==> unchanged(this)
      ensures r.Ok? ==>
                && RequireReferences(refs, {startStationId, endStationId}, requested) == None
                && r.value !in old(plans)
                && plans == old(plans)[r.value := Plan(userId, title, startStationId, endStationId, now)]
                && IsSnapshot(old(items), old(nextItemId), r.value, WithoutIds(requested), items)
    {
      AllValidExactly(requested);
      hide HasFaults;
      if !(1 <= |title| <= 100) || !(forall q :: q in requested ==> IsValidRequest(q)) {
        return Err(ValidationFailed);
      }
      var missing := RequireReferences(refs, {startStationId, endStationId}, requested);
      if missing.Some? {
        return Err(missing.value);
      }
      var planId := nextPlanId;
      var plan := Plan(userId, title, startStationId, endStationId, now);
      NoItemsYet(plans, items, nextPlanId, nextItemId, plan);
      plans := plans[planId := plan];
      nextPlanId := nextPlanId + 1;
      var requests := WithoutIds(requested);
      ValidWithoutIds(requested);
      hide AreItems, ArePlans, IsSnapshot, AreWritten, KnownIds, DistinctIds, RequireReferences, IsValidRequest;
      hide AreValid;
      NewIdsAreKnown(items, planId, requests);
      WriteItems(planId, requests);
      NewItemsAreSnapshot(old(plans), old(items), old(nextPlanId), old(nextItemId), plan, requests, items);
      r := Ok(planId);
    }

    /** Changes the named fields and, if items are given, the items; or refuses and changes nothing. */
    method UpdatePlan(planId: int, userId: int, fields: PlanFields, requested: Option<seq<ItemRequest>>, now: int)
      returns (error: Option<PlanError>)
      requires Valid()
      modifies this`plans, this`items, this`nextItemId
      ensures Valid()
      ensures error == UpdateError(refs, old(plans), old(items), planId, userId, fields, requested)
      ensures error.Some? ==> unchanged(this)
      ensures error.None? ==>
                && planId in old(plans) && planId in plans && plans == old(plans)[planId := plans[planId]]
                && IsPlanUpdate(old(plans)[planId], fields, requested, now, plans[planId])
      ensures error.None? && requested.None? ==> items == old(items)
      ensures error.None? && requested.Some? ==>
                IsSnapshot(old(items), old(nextItemId), planId, requested.value, items)
    {
      NothingRequested(items, planId);
      hide ArePlans, AreItems, IsSnapshot, KnownIds, DistinctIds, IsValidRequest, RequireReferences;
      if !fields.IsValid() || (requested.Some? && exists q :: q in requested.value && !IsValidRequest(q)) {
        return Some(ValidationFailed);
      }
      if planId !in plans {
        return Some(PlanNotFound);
      }
      if plans[planId].userId != userId {
        return Some(PlanForbidden);
      }
      var plan := plans[planId];
      var after := fields.ApplyTo(plan);
      if fields.AnySet() || requested.Some? {
        var missing := RequireReferences(refs, {after.startStationId, after.endStationId},
                                         if requested.Some? then requested.value else []);
        if missing.Some? {
          return missing;
        }
      }
      plans := plans[planId := after];
      PlanStays(old(plans), nextPlanId, planId, after);
      ItemsStay(old(plans), items, nextItemId, planId, after);
      if requested.Some? {
        error := SyncPlanItems(planId, requested.value);
        if error.Some? {
          // The transaction is rolled back with the fields already assigned.
          plans := plans[planId := plan];
          assert plans == old(plans);
          return;
        }
        ItemsAfterSnapshot(plans, old(items), old(nextItemId), planId, requested.value, items);
      }
      if fields.AnySet() || requested.Some? {
        PlanStays(plans, nextPlanId, planId, after.(updatedAt := now));
        ItemsStay(plans, items, nextItemId, planId, after.(updatedAt := now));
        plans := plans[planId := after.(updatedAt := now)];
      }
      error := None;
    }
  }
}
