/** The planner page's items, written as an API request and mapped back from the API's answer
    (legacyApiAdapter.ts `legacyPlanWrite`, legacyMappers.ts `mapLegacyPlan`). */
module PlanTranslation {
  import opened Wrappers
  import opened Clock
  import opened PlanItems

  datatype UiType = StationVisit | PlaceVisit | OtherVisit

  /** An item of the page; `id` is the integer that its id text reads as, if it reads as one. */
  datatype UiItem = UiItem(id: Option<int>, itemType: UiType, stationId: Option<int>, placeId: Option<int>,
                           note: Option<string>, scheduledTime: Option<string>, position: int)

  datatype PlanWrite = PlanWrite(startStationId: int, endStationId: int, items: seq<ItemRequest>)

  // ---------- Writing ----------

  /** An id as a number; a missing one is 0. */
  function Numeric(id: Option<int>): int {
    if id.Some? then id.value else 0
  }

  predicate IsKept(u: UiItem) {
    u.itemType != OtherVisit
  }

  /** The indexes of the items that are written, among the first n. */
  function Kept(all: seq<UiItem>, n: nat): (kept: seq<nat>)
    requires n <= |all|
    ensures |kept| <= n && forall k :: 0 <= k < |kept| ==> kept[k] < n && IsKept(all[kept[k]])
  {
    if n == 0 then [] else Kept(all, n - 1) + (if IsKept(all[n - 1]) then [n - 1] else [])
  }

  function StationsIn(u: UiItem): seq<int> {
    if u.itemType == StationVisit && u.stationId.Some? then [u.stationId.value] else []
  }

  /** The station ids of the station visits among the first n items. */
  function StationsOf(all: seq<UiItem>, n: nat): seq<int>
    requires n <= |all|
  {
    if n == 0 then [] else StationsOf(all, n - 1) + StationsIn(all[n - 1])
  }

  function PlaceStationsIn(u: UiItem): seq<Option<int>> {
    if u.itemType == PlaceVisit && u.placeId.Some? then [u.stationId] else []
  }

  /** The station ids given with the place visits among the first n items. */
  function PlaceStationsOf(all: seq<UiItem>, n: nat): seq<Option<int>>
    requires n <= |all|
  {
    if n == 0 then [] else PlaceStationsOf(all, n - 1) + PlaceStationsIn(all[n - 1])
  }

  function StartStation(all: seq<UiItem>): int {
    var stations, places := StationsOf(all, |all|), PlaceStationsOf(all, |all|);
    if stations != [] then stations[0] else if places != [] then Numeric(places[0]) else 0
  }

  function EndStation(all: seq<UiItem>): int {
    var stations, places := StationsOf(all, |all|), PlaceStationsOf(all, |all|);
    var last := if stations != [] then stations[|stations| - 1]
                else if places != [] && places[|places| - 1].Some? then places[|places| - 1].value
                else StartStation(all);
    if last != 0 then last else StartStation(all)
  }

  /** The station at which the visitor is after the first n items: the latest one visited, else the start. */
  function StationAfter(all: seq<UiItem>, n: nat): int
    requires n <= |all|
  {
    var stations := StationsOf(all, n);
    if stations != [] then stations[|stations| - 1] else StartStation(all)
  }

  function DefaultTime(index: nat): string {
    Pad2(10 + index) + ":00:00"
  }

  function WrittenTime(u: UiItem, index: nat): Option<string> {
    if u.scheduledTime.Some? then u.scheduledTime
    else if u.itemType == PlaceVisit then Some(DefaultTime(index))
    else None
  }

  function RequestFor(all: seq<UiItem>, i: nat): ItemRequest
    requires i < |all| && IsKept(all[i])
  {
    var u, current := all[i], StationAfter(all, i + 1);
    ItemRequest(if u.id.Some? && u.id.value > 0 then u.id else None,
                if u.itemType == StationVisit then StationItem else PlaceItem,
                if u.itemType == PlaceVisit then Some(Numeric(u.placeId)) else None,
                if u.itemType == StationVisit then Some(Numeric(u.stationId))
                else if current != 0 then Some(current) else None,
                Some(i + 1), WrittenTime(u, i), u.note)
  }

  /** The requests for the written items among the first n. */
  function RequestsAmong(all: seq<UiItem>, n: nat): (requests: seq<ItemRequest>)
    requires n <= |all|
    ensures |requests| == |Kept(all, n)|
    ensures forall k :: 0 <= k < |requests| ==> requests[k] == RequestFor(all, Kept(all, n)[k])
  {
    var kept := Kept(all, n);
    seq(|kept|, k requires 0 <= k < |kept| => RequestFor(all, kept[k]))
  }

  function Requests(all: seq<UiItem>): (requests: seq<ItemRequest>)
    ensures |requests| == |Kept(all, |all|)|
    ensures forall k :: 0 <= k < |requests| ==> requests[k] == RequestFor(all, Kept(all, |all|)[k])
  {
    RequestsAmong(all, |all|)
  }

  function Written(all: seq<UiItem>): PlanWrite {
    PlanWrite(StartStation(all), EndStation(all), Requests(all))
  }

  lemma {:induction false} KeptGrows(all: seq<UiItem>, m: nat, n: nat)
    requires m <= n <= |all|
    ensures |Kept(all, m)| <= |Kept(all, n)| && Kept(all, n)[..|Kept(all, m)|] == Kept(all, m)
  {
    if m < n {
      KeptGrows(all, m, n - 1);
    }
  }

  lemma StationAfterStep(all: seq<UiItem>, n: nat)
    requires n < |all|
    ensures StationAfter(all, 0) == StartStation(all)
    ensures StationAfter(all, n + 1) == if all[n].itemType == StationVisit && all[n].stationId.Some?
                                        then all[n].stationId.value
                                        else StationAfter(all, n)
  {
  }

  lemma KeptStep(all: seq<UiItem>, n: nat)
    requires n < |all|
    ensures IsKept(all[n]) ==> Kept(all, n + 1) == Kept(all, n) + [n]
    ensures !IsKept(all[n]) ==> Kept(all, n + 1) == Kept(all, n)
  {
  }

  lemma RequestsStep(all: seq<UiItem>, n: nat)
    requires n < |all|
    ensures IsKept(all[n]) ==> RequestsAmong(all, n + 1) == RequestsAmong(all, n) + [RequestFor(all, n)]
    ensures !IsKept(all[n]) ==> RequestsAmong(all, n + 1) == RequestsAmong(all, n)
    ensures RequestsAmong(all, 0) == []
  {
    hide RequestFor;
    KeptStep(all, n);
  }

  // ---------- What is written, item by item ----------

  /** The item is of this type and names the station or place that it visits. */
  predicate Visits(u: UiItem, itemType: UiType) {
    u.itemType == itemType && if itemType == StationVisit then u.stationId.Some? else u.placeId.Some?
  }

  ghost predicate IsFirst(all: seq<UiItem>, itemType: UiType, i: int) {
    0 <= i < |all| && Visits(all[i], itemType) && forall j :: 0 <= j < i ==> !Visits(all[j], itemType)
  }

  /** The last such item among the first n. */
  ghost predicate IsLast(all: seq<UiItem>, itemType: UiType, n: int, i: int) {
    0 <= i < n <= |all| && Visits(all[i], itemType) && forall j :: i < j < n ==> !Visits(all[j], itemType)
  }

  ghost predicate HasNone(all: seq<UiItem>, itemType: UiType, n: int) {
    0 <= n <= |all| && forall j :: 0 <= j < n ==> !Visits(all[j], itemType)
  }

  /** The plan starts at the first station visited, else at the station of the first place, else at 0. */
  ghost predicate StartsAt(all: seq<UiItem>, start: int) {
    && (forall i :: IsFirst(all, StationVisit, i) ==> all[i].stationId == Some(start))
    && (HasNone(all, StationVisit, |all|) ==>
          && (forall i :: IsFirst(all, PlaceVisit, i) ==>
                start == if all[i].stationId.Some? then all[i].stationId.value else 0)
          && (HasNone(all, PlaceVisit, |all|) ==> start == 0))
  }

  /** It ends at the last station visited, else at the station of the last place, and where it starts instead of at no
      station or at station 0. */
  ghost predicate EndsAt(all: seq<UiItem>, start: int, end: int) {
    && (forall i :: IsLast(all, StationVisit, |all|, i) ==> EndsAtStation(all[i].stationId, start, end))
    && (HasNone(all, StationVisit, |all|) ==>
          && (forall i :: IsLast(all, PlaceVisit, |all|, i) ==> EndsAtStation(all[i].stationId, start, end))
          && (HasNone(all, PlaceVisit, |all|) ==> end == start))
  }

  predicate EndsAtStation(stationId: Option<int>, start: int, end: int) {
    end == if stationId.Some? && stationId.value != 0 then stationId.value else start
  }

  /** Station 0 is written as none. */
  predicate IsStationId(written: Option<int>, station: int) {
    written == if station != 0 then Some(station) else None
  }

  /** A place is written with the last station visited before it, else with the start of the plan. */
  ghost predicate HasStationOf(all: seq<UiItem>, start: int, i: nat, written: Option<int>)
    requires i < |all|
  {
    && (forall j :: IsLast(all, StationVisit, i, j) ==> IsStationId(written, Numeric(all[j].stationId)))
    && (HasNone(all, StationVisit, i) ==> IsStationId(written, start))
  }

  /** A whole hour as HH:00:00, the first item's at ten. */
  predicate IsDefaultTime(text: string, i: nat) {
    && |text| >= 8 && AllDigits(text[..|text| - 6]) && DigitsValue(text[..|text| - 6]) == 10 + i
    && text[|text| - 6..] == ":00:00"
  }

  /** Item i is written: under its positive id, at its place in the page, with its own time and note. */
  ghost predicate IsRequestOf(all: seq<UiItem>, start: int, i: nat, r: ItemRequest)
    requires i < |all|
  {
    var u := all[i];
    && (u.itemType == StationVisit ==>
          && r.itemType == StationItem && r.placeId == None
          && r.stationId == Some(if u.stationId.Some? then u.stationId.value else 0) && r.visitTime == u.scheduledTime)
    && (u.itemType == PlaceVisit ==>
          && r.itemType == PlaceItem && r.placeId == Some(if u.placeId.Some? then u.placeId.value else 0)
          && HasStationOf(all, start, i, r.stationId)
          && (u.scheduledTime.Some? ==> r.visitTime == u.scheduledTime)
          && (u.scheduledTime.None? ==> r.visitTime.Some? && IsDefaultTime(r.visitTime.value, i)))
    && r.planItemId == (if u.id.Some? && u.id.value > 0 then u.id else None)
    && r.position == Some(i + 1) && r.memo == u.note
  }

  /** Exactly the station and place visits are written, in order. */
  ghost predicate WritesVisits(all: seq<UiItem>, start: int, items: seq<ItemRequest>, kept: seq<nat>) {
    && |kept| == |items| && (forall j, k :: 0 <= j < k < |kept| ==> kept[j] < kept[k])
    && (forall i: nat :: i in kept <==> i < |all| && (all[i].itemType == StationVisit || all[i].itemType == PlaceVisit))
    && (forall k :: 0 <= k < |items| ==> kept[k] < |all| && IsRequestOf(all, start, kept[k], items[k]))
  }

  ghost predicate IsWriteOf(all: seq<UiItem>, w: PlanWrite) {
    && StartsAt(all, w.startStationId) && EndsAt(all, w.startStationId, w.endStationId)
    && exists kept :: WritesVisits(all, w.startStationId, w.items, kept)
  }

  lemma VisitsStep(all: seq<UiItem>, itemType: UiType, n: nat, i: int)
    requires n < |all|
    ensures HasNone(all, itemType, n + 1) <==> HasNone(all, itemType, n) && !Visits(all[n], itemType)
    ensures IsLast(all, itemType, n + 1, i)
       <==> if Visits(all[n], itemType) then i == n else IsLast(all, itemType, n, i)
    ensures i == n && IsFirst(all, itemType, i) ==> HasNone(all, itemType, n) && Visits(all[n], itemType)
  {
    hide Visits;
  }

  lemma NoVisitsYet(all: seq<UiItem>, itemType: UiType, i: int)
    ensures HasNone(all, itemType, 0) && !IsLast(all, itemType, 0, i) && (i < 0 ==> !IsFirst(all, itemType, i))
    ensures StationsOf(all, 0) == [] && PlaceStationsOf(all, 0) == []
  {
  }

  lemma {:induction false} StationsByIndex(all: seq<UiItem>, n: nat, i: int)
    requires n <= |all|
    ensures StationsOf(all, n) == [] <==> HasNone(all, StationVisit, n)
    ensures i < n && IsFirst(all, StationVisit, i) ==>
              StationsOf(all, n) != [] && all[i].stationId == Some(StationsOf(all, n)[0])
    ensures IsLast(all, StationVisit, n, i) ==>
              StationsOf(all, n) != [] && all[i].stationId == Some(StationsOf(all, n)[|StationsOf(all, n)| - 1])
  {
    hide IsFirst, IsLast, HasNone, StationsOf, PlaceStationsOf;
    if n == 0 {
      NoVisitsYet(all, StationVisit, i);
    } else {
      VisitsStep(all, StationVisit, n - 1, i);
      StationsStep(all, n - 1);
      StationsByIndex(all, n - 1, i);
    }
  }

  lemma {:induction false} PlacesByIndex(all: seq<UiItem>, n: nat, i: int)
    requires n <= |all|
    ensures PlaceStationsOf(all, n) == [] <==> HasNone(all, PlaceVisit, n)
    ensures i < n && IsFirst(all, PlaceVisit, i) ==>
              PlaceStationsOf(all, n) != [] && all[i].stationId == PlaceStationsOf(all, n)[0]
    ensures IsLast(all, PlaceVisit, n, i) ==>
              PlaceStationsOf(all, n) != []
              && all[i].stationId == PlaceStationsOf(all, n)[|PlaceStationsOf(all, n)| - 1]
  {
    hide IsFirst, IsLast, HasNone, StationsOf, PlaceStationsOf;
    if n == 0 {
      NoVisitsYet(all, PlaceVisit, i);
    } else {
      VisitsStep(all, PlaceVisit, n - 1, i);
      StationsStep(all, n - 1);
      PlacesByIndex(all, n - 1, i);
    }
  }

  lemma WrittenEndsAt(all: seq<UiItem>, i: int)
    ensures IsFirst(all, StationVisit, i) ==> all[i].stationId == Some(StartStation(all))
    ensures IsLast(all, StationVisit, |all|, i) ==>
              EndsAtStation(all[i].stationId, StartStation(all), EndStation(all))
    ensures HasNone(all, StationVisit, |all|) && IsFirst(all, PlaceVisit, i) ==>
              StartStation(all) == if all[i].stationId.Some? then all[i].stationId.value else 0
    ensures HasNone(all, StationVisit, |all|) && IsLast(all, PlaceVisit, |all|, i) ==>
              EndsAtStation(all[i].stationId, StartStation(all), EndStation(all))
    ensures HasNone(all, StationVisit, |all|) && HasNone(all, PlaceVisit, |all|) ==>
              StartStation(all) == 0 == EndStation(all)
  {
    StationsByIndex(all, |all|, i);
    PlacesByIndex(all, |all|, i);
    hide StationsOf, PlaceStationsOf, Visits, HasNone;
  }

  lemma WrittenEnds(all: seq<UiItem>)
    ensures StartsAt(all, StartStation(all)) && EndsAt(all, StartStation(all), EndStation(all))
  {
    hide StartStation, EndStation, EndsAtStation, HasNone, Visits;
    WrittenEndsAt(all, 0);
    forall i | 0 <= i < |all|
      ensures IsFirst(all, StationVisit, i) ==> all[i].stationId == Some(StartStation(all))
      ensures IsLast(all, StationVisit, |all|, i) ==>
                EndsAtStation(all[i].stationId, StartStation(all), EndStation(all))
      ensures HasNone(all, StationVisit, |all|) && IsFirst(all, PlaceVisit, i) ==>
                StartStation(all) == if all[i].stationId.Some? then all[i].stationId.value else 0
      ensures HasNone(all, StationVisit, |all|) && IsLast(all, PlaceVisit, |all|, i) ==>
                EndsAtStation(all[i].stationId, StartStation(all), EndStation(all))
    {
      WrittenEndsAt(all, i);
    }
  }

  /** What the running station means: the nearest station visited among the first n items, else the start. */
  lemma StationAfterIsNearest(all: seq<UiItem>, n: nat)
    requires n <= |all|
    ensures forall j :: IsLast(all, StationVisit, n, j) ==> all[j].stationId == Some(StationAfter(all, n))
    ensures HasNone(all, StationVisit, n) ==> StationAfter(all, n) == StartStation(all)
  {
    StationsByIndex(all, n, 0);
    forall j | IsLast(all, StationVisit, n, j)
      ensures all[j].stationId == Some(StationAfter(all, n))
    {
      StationsByIndex(all, n, j);
    }
  }

  lemma WrittenStation(all: seq<UiItem>, i: nat)
    requires i < |all| && all[i].itemType == PlaceVisit
    ensures var current := StationAfter(all, i + 1);
      HasStationOf(all, StartStation(all), i, if current != 0 then Some(current) else None)
  {
    StationAfterIsNearest(all, i);
    StationAfterStep(all, i);
    hide StationAfter, StartStation, IsLast, HasNone;
  }

  lemma DefaultTimeText(i: nat)
    ensures IsDefaultTime(DefaultTime(i), i)
  {
    var hours, text := Pad2(10 + i), DefaultTime(i);
    Pad2Value(10 + i);
    DecimalLength(10 + i);
    hide Pad2, DigitsValue, AllDigits;
    assert text[..|text| - 6] == hours && text[|text| - 6..] == ":00:00";
  }

  lemma WrittenRequest(all: seq<UiItem>, i: nat)
    requires i < |all| && IsKept(all[i])
    ensures IsRequestOf(all, StartStation(all), i, RequestFor(all, i))
  {
    hide StartStation, StationAfter, DefaultTime, IsDefaultTime, HasStationOf;
    DefaultTimeText(i);
    if all[i].itemType == PlaceVisit {
      WrittenStation(all, i);
    }
  }

  lemma {:induction false} KeptExactly(all: seq<UiItem>, n: nat)
    requires n <= |all|
    ensures forall j, k :: 0 <= j < k < |Kept(all, n)| ==> Kept(all, n)[j] < Kept(all, n)[k]
    ensures forall i: nat :: i in Kept(all, n) <==> i < n && IsKept(all[i])
  {
    if n > 0 {
      KeptExactly(all, n - 1);
    }
  }

  /** The whole write, said of the page's items: where the plan starts and ends, and what each item becomes. */
  lemma WrittenIs(all: seq<UiItem>)
    ensures IsWriteOf(all, Written(all))
  {
    hide StartsAt, EndsAt, StartStation, EndStation, RequestFor, IsRequestOf, Kept;
    WrittenEnds(all);
    KeptExactly(all, |all|);
    var kept, w := Kept(all, |all|), Written(all);
    forall k | 0 <= k < |kept|
      ensures IsRequestOf(all, w.startStationId, kept[k], w.items[k])
    {
      WrittenRequest(all, kept[k]);
    }
    assert WritesVisits(all, w.startStationId, w.items, kept);
  }

  /** Walks the items once, carrying the current station. */
  method LegacyPlanWrite(all: seq<UiItem>) returns (w: PlanWrite)
    ensures w == Written(all) && IsWriteOf(all, w)
  {
    WrittenIs(all);
    hide IsWriteOf;
    var start, end := StartStation(all), EndStation(all);
    var currentStationId := start;
    var items: seq<ItemRequest> := [];
    assert start == StationAfter(all, 0) && RequestsAmong(all, 0) == [];
    hide StartStation, EndStation, StationsOf, StationAfter, DefaultTime, Kept, RequestsAmong;
    for index := 0 to |all|
      invariant currentStationId == StationAfter(all, index)
      invariant items == RequestsAmong(all, index)
    {
      var u := all[index];
      StationAfterStep(all, index);
      RequestsStep(all, index);
      if u.itemType == StationVisit && u.stationId.Some? {
        currentStationId := u.stationId.value;
      }
      if u.itemType != OtherVisit {
        var itemType := if u.itemType == StationVisit then StationItem else PlaceItem;
        var placeId := if u.itemType == PlaceVisit then Some(Numeric(u.placeId)) else None;
        var stationId := if u.itemType == StationVisit then Some(Numeric(u.stationId))
                         else if currentStationId != 0 then Some(currentStationId) else None;
        var planItemId := if u.id.Some? && u.id.value > 0 then u.id else None;
        var visitTime := WrittenTime(u, index);
        items := items + [ItemRequest(planItemId, itemType, placeId, stationId, Some(index + 1), visitTime, u.note)];
      }
    }
    w := PlanWrite(start, end, items);
  }

  // ---------- When the API accepts what is written ----------

  /** The default time of a place is a time of day exactly for the first fourteen items. */
  lemma DefaultTimeExactly(index: nat)
    ensures AcceptedTime(DefaultTime(index)).Some? <==> index < 14
    ensures index < 14 ==> AcceptedTime(DefaultTime(index)) == Some(DefaultTime(index))
  {
    var hours, text := Pad2(10 + index), DefaultTime(index);
    Pad2Value(10 + index);
    DecimalLength(10 + index);
    assert |hours| == |Decimal(10 + index)|;
    if |hours| == 2 {
      assert text[..2] == hours && text[3..5] == "00" && text[6..] == "00";
    }
  }

  /** The written items are well formed exactly when the notes are short, the given times are times of day, and no
      place after the fourteenth item lacks a time. */
  lemma WrittenIsValidExactly(all: seq<UiItem>)
    ensures (forall r :: r in Requests(all) ==> IsValidRequest(r))
            <==> (forall i :: 0 <= i < |all| && IsKept(all[i]) ==> IsWritable(all[i], i))
  {
    var kept := Kept(all, |all|);
    forall i | 0 <= i < |all| && IsKept(all[i])
      ensures exists k :: 0 <= k < |kept| && kept[k] == i
    {
      KeptGrows(all, i + 1, |all|);
      assert kept[|Kept(all, i)|] == i;
    }
    forall i: nat | i < |all| && IsKept(all[i])
      ensures IsValidRequest(RequestFor(all, i)) <==> IsWritable(all[i], i)
    {
      DefaultTimeExactly(i);
    }
    forall i | 0 <= i < |all| && IsKept(all[i])
      ensures RequestFor(all, i) in Requests(all)
    {
      var k :| 0 <= k < |kept| && kept[k] == i;
      assert Requests(all)[k] == RequestFor(all, i);
    }
  }

  predicate IsWritable(u: UiItem, i: nat) {
    && (u.note.Some? ==> |u.note.value| <= 255)
    && (u.scheduledTime.Some? ==> AcceptedTime(u.scheduledTime.value).Some?)
    && (u.itemType == PlaceVisit && u.scheduledTime.None? ==> i < 14)
  }

  /** The references of a written plan exist; no station and no place has id 0. */
  predicate IsReferenced(refs: References, w: PlanWrite) {
    NothingIsMissing(refs, w) && HasNoZero(refs)
  }

  predicate NothingIsMissing(refs: References, w: PlanWrite) {
    RequireReferences(refs, {w.startStationId, w.endStationId}, w.items) == None
  }

  predicate HasNoZero(refs: References) {
    0 !in refs.stations && 0 !in refs.places
  }

  /** An accepted plan has an item, and every item names what it visits. */
  lemma {:induction false} ReferencedItems(refs: References, all: seq<UiItem>)
    requires IsReferenced(refs, Written(all))
    ensures StartStation(all) != 0 && Requests(all) != []
    ensures forall i :: 0 <= i < |all| && all[i].itemType == StationVisit
              ==> all[i].stationId.Some? && all[i].stationId.value != 0
    ensures forall i :: 0 <= i < |all| && all[i].itemType == PlaceVisit ==> all[i].placeId.Some?
  {
    var w, kept := Written(all), Kept(all, |all|);
    assert w.startStationId in refs.stations;
    if kept == [] {
      NoItemsNoStart(all, |all|);
    }
    forall i: nat | i < |all| && IsKept(all[i])
      ensures all[i].itemType == StationVisit ==> all[i].stationId.Some? && all[i].stationId.value != 0
      ensures all[i].itemType == PlaceVisit ==> all[i].placeId.Some?
    {
      KeptGrows(all, i + 1, |all|);
      var k := |Kept(all, i)|;
      assert kept[k] == i;
      assert w.items[k] == RequestFor(all, i);
    }
  }

  lemma {:induction false} NoItemsNoStart(all: seq<UiItem>, n: nat)
    requires n <= |all| && Kept(all, n) == []
    ensures StationsOf(all, n) == [] && PlaceStationsOf(all, n) == []
  {
    if n > 0 {
      NoItemsNoStart(all, n - 1);
    }
  }

  // ---------- Mapping back ----------

  function MapItem(e: Entry): UiItem {
    UiItem(Some(e.id), if e.item.itemType == StationItem then StationVisit else PlaceVisit,
           e.item.stationId, e.item.placeId, e.item.memo, e.item.visitTime, e.item.position)
  }

  function MapItems(listing: seq<Entry>): (shown: seq<UiItem>)
    ensures |shown| == |listing| && forall k :: 0 <= k < |shown| ==> shown[k] == MapItem(listing[k])
  {
    seq(|listing|, k requires 0 <= k < |listing| => MapItem(listing[k]))
  }

  function StationOnly(stationId: int, position: int): UiItem {
    UiItem(None, StationVisit, Some(stationId), None, None, None, position)
  }

  /** The items shown for a stored plan; a plan without items shows its end stations. */
  function ShownItems(plan: Plan, listing: seq<Entry>): seq<UiItem> {
    if listing != [] then MapItems(listing)
    else [StationOnly(plan.startStationId, 1)]
         + (if plan.endStationId != plan.startStationId then [StationOnly(plan.endStationId, 2)] else [])
  }

  /** Saving the page of a plan without items keeps its stations, except an end station 0, and makes them its items. */
  lemma {:induction false} PlanWithoutItems(plan: Plan)
    ensures forall k :: 0 <= k < |ShownItems(plan, [])| ==> ShownItems(plan, [])[k].position == k + 1
    ensures var w := Written(ShownItems(plan, []));
      && w.startStationId == plan.startStationId
      && (w.endStationId == plan.endStationId <==> plan.endStationId != 0 || plan.startStationId == 0)
      && |w.items| == (if plan.endStationId != plan.startStationId then 2 else 1)
      && (forall k :: 0 <= k < |w.items| ==>
           w.items[k] == ItemRequest(None, StationItem, None,
                                     Some(if k == 0 then plan.startStationId else plan.endStationId), Some(k + 1),
                                     None, None))
  {
    var shown := ShownItems(plan, []);
    assert Kept(shown, 1) == [0];
    assert StationsOf(shown, 1) == [plan.startStationId];
    if |shown| == 2 {
      assert StationsOf(shown, 2) == [plan.startStationId, plan.endStationId];
    }
  }

  /** What page item i becomes when its plan is saved and shown again. */
  ghost predicate IsShownFor(all: seq<UiItem>, i: nat, u: UiItem)
    requires i < |all|
  {
    && u.itemType == all[i].itemType
    && u.note == all[i].note
    && u.position == i + 1
    && (u.itemType == StationVisit ==> u.stationId == all[i].stationId && u.placeId == None)
    && (u.itemType == PlaceVisit ==> u.placeId == all[i].placeId && u.stationId == Some(StationAfter(all, i + 1)))
    && (all[i].scheduledTime.Some? ==>
          u.scheduledTime.Some? && u.scheduledTime == AcceptedTime(all[i].scheduledTime.value))
    && (all[i].scheduledTime.None? ==> u.scheduledTime == WrittenTime(all[i], i))
    && (u.scheduledTime.Some? ==> AcceptedTime(u.scheduledTime.value) == u.scheduledTime)
  }

  /** The page items that are written are shown again, in order, and no others. */
  ghost predicate IsShown(all: seq<UiItem>, shown: seq<UiItem>) {
    |shown| == |Kept(all, |all|)| && EachIsShown(all, shown)
  }

  ghost predicate EachIsShown(all: seq<UiItem>, shown: seq<UiItem>)
    requires |shown| == |Kept(all, |all|)|
  {
    forall k :: 0 <= k < |shown| ==> IsShownFor(all, Kept(all, |all|)[k], shown[k])
  }

  /** A plan write that the API accepted, with what it stored and how it lists it. */
  ghost predicate IsSaved(refs: References, all: seq<UiItem>, requests: seq<ItemRequest>, before: map<int, PlanItem>,
                          nextId: int, planId: int, after: map<int, PlanItem>, listing: seq<Entry>)
  {
    && (requests == Requests(all) || requests == WithoutIds(Requests(all)))
    && AreValid(Requests(all))
    && IsReferenced(refs, Written(all))
    && IsSnapshot(before, nextId, planId, requests, after)
    && IsListing(after, planId, listing)
  }

  lemma {:induction false} StationsAreNotZero(refs: References, all: seq<UiItem>, n: nat)
    requires IsReferenced(refs, Written(all)) && n <= |all|
    ensures forall k :: 0 <= k < |StationsOf(all, n)| ==> StationsOf(all, n)[k] != 0
    ensures StationAfter(all, n) != 0
  {
    ReferencedItems(refs, all);
    NonZeroStations(all, n);
  }

  lemma {:induction false} NonZeroStations(all: seq<UiItem>, n: nat)
    requires n <= |all|
    requires forall i :: 0 <= i < |all| && all[i].itemType == StationVisit
               ==> all[i].stationId.Some? && all[i].stationId.value != 0
    ensures forall k :: 0 <= k < |StationsOf(all, n)| ==> StationsOf(all, n)[k] != 0
  {
    if n > 0 {
      NonZeroStations(all, n - 1);
    }
  }

  lemma {:induction false} StoredIsShownFor(refs: References, all: seq<UiItem>, requests: seq<ItemRequest>, k: nat,
                                            planId: int, id: int)
    requires requests == Requests(all) || requests == WithoutIds(Requests(all))
    requires IsReferenced(refs, Written(all)) && k < |requests| && IsValidRequest(Requests(all)[k])
    ensures IsShownFor(all, Kept(all, |all|)[k], MapItem(Entry(id, StoredItem(requests, planId, k))))
  {
    var i := Kept(all, |all|)[k];
    ReferencedItems(refs, all);
    StationsAreNotZero(refs, all, i + 1);
    DefaultTimeExactly(i);
    if all[i].scheduledTime.Some? {
      AcceptedTimeIsNormal(all[i].scheduledTime.value);
    }
  }

  /** Saving a plan and showing it again keeps every station and place with its note, its time and its order; the items
      that were already stored keep their identity when the plan is updated. */
  lemma {:induction false} SavedPlanIsShown(refs: References, all: seq<UiItem>, requests: seq<ItemRequest>,
                                            before: map<int, PlanItem>, nextId: int, planId: int,
                                            after: map<int, PlanItem>, listing: seq<Entry>, plan: Plan)
    requires IsSaved(refs, all, requests, before, nextId, planId, after, listing)
    ensures listing == RequestedEntries(requests, nextId, planId)
    ensures ShownItems(plan, listing) == MapItems(listing)
    ensures IsShown(all, MapItems(listing))
    ensures requests == Requests(all) ==>
              forall k :: 0 <= k < |listing| ==>
                var id := all[Kept(all, |all|)[k]].id;
                id.Some? && id.value > 0 ==> MapItems(listing)[k].id == id
  {
    ReferencedItems(refs, all);
    KeptExactly(all, |all|);
    ListingKeepsRequestOrder(before, nextId, planId, requests, after, listing);
    forall k: nat | k < |listing|
      ensures IsShownFor(all, Kept(all, |all|)[k], MapItems(listing)[k])
    {
      assert Requests(all)[k] in Requests(all);
      StoredIsShownFor(refs, all, requests, k, planId, StoredId(requests, nextId, k));
    }
  }

  // ---------- Saving what is shown ----------

  lemma {:induction false} AllKept(shown: seq<UiItem>, n: nat)
    requires n <= |shown| && forall k :: 0 <= k < |shown| ==> IsKept(shown[k])
    ensures |Kept(shown, n)| == n && forall k :: 0 <= k < n ==> Kept(shown, n)[k] == k
  {
    if n > 0 {
      AllKept(shown, n - 1);
    }
  }

  /** The kept item n is shown right after those kept before it. */
  lemma {:induction false} ShownAt(all: seq<UiItem>, shown: seq<UiItem>, n: nat)
    requires IsShown(all, shown) && n < |all| && IsKept(all[n])
    ensures |Kept(all, n)| < |shown| && IsShownFor(all, n, shown[|Kept(all, n)|])
    ensures |Kept(all, n + 1)| == |Kept(all, n)| + 1
  {
    KeptGrows(all, n + 1, |all|);
    var k := |Kept(all, n)|;
    assert Kept(all, n + 1)[k] == n;
    assert Kept(all, |all|)[..|Kept(all, n + 1)|][k] == n;
    hide IsShownFor;
  }

  ghost predicate SameStations(all: seq<UiItem>, n: nat, shown: seq<UiItem>, k: nat)
    requires n <= |all| && k <= |shown|
  {
    && StationsOf(shown, k) == StationsOf(all, n)
    && |PlaceStationsOf(shown, k)| == |PlaceStationsOf(all, n)|
    && (StationsOf(all, n) == [] ==> forall p :: p in PlaceStationsOf(shown, k) ==> p == Some(StartStation(all)))
  }

  lemma StationsStep(all: seq<UiItem>, n: nat)
    requires n < |all|
    ensures StationsOf(all, n + 1) == StationsOf(all, n) + StationsIn(all[n])
    ensures PlaceStationsOf(all, n + 1) == PlaceStationsOf(all, n) + PlaceStationsIn(all[n])
  {
  }

  lemma SameStationsStart(all: seq<UiItem>, shown: seq<UiItem>)
    ensures |Kept(all, 0)| == 0 && SameStations(all, 0, shown, 0)
  {
  }

  lemma SameStationsStep(all: seq<UiItem>, n: nat, shown: seq<UiItem>, k: nat)
    requires n < |all| && k < |shown| && SameStations(all, n, shown, k)
    requires IsShownFor(all, n, shown[k]) && (all[n].itemType == PlaceVisit ==> all[n].placeId.Some?)
    ensures SameStations(all, n + 1, shown, k + 1)
  {
    hide StartStation, StationsOf, PlaceStationsOf, AcceptedTime, WrittenTime;
    StationsStep(all, n);
    StationsStep(shown, k);
  }

  lemma SameStationsSkip(all: seq<UiItem>, n: nat, shown: seq<UiItem>, k: nat)
    requires n < |all| && k <= |shown| && SameStations(all, n, shown, k) && !IsKept(all[n])
    ensures SameStations(all, n + 1, shown, k)
  {
    hide StartStation, StationsOf, PlaceStationsOf;
    StationsStep(all, n);
  }

  /** The shown items visit the same stations, and name the places' stations anew. */
  lemma {:induction false} ShownStations(all: seq<UiItem>, shown: seq<UiItem>, n: nat)
    requires IsShown(all, shown) && n <= |all|
    requires forall i :: 0 <= i < |all| && all[i].itemType == PlaceVisit ==> all[i].placeId.Some?
    ensures |Kept(all, n)| <= |shown| && SameStations(all, n, shown, |Kept(all, n)|)
  {
    hide *;
    if n == 0 {
      SameStationsStart(all, shown);
    } else {
      ShownStations(all, shown, n - 1);
      KeptStep(all, n - 1);
      if IsKept(all[n - 1]) {
        ShownAt(all, shown, n - 1);
        SameStationsStep(all, n - 1, shown, |Kept(all, n - 1)|);
      } else {
        SameStationsSkip(all, n - 1, shown, |Kept(all, n - 1)|);
      }
    }
  }

  lemma {:induction false} ShownStart(refs: References, all: seq<UiItem>, shown: seq<UiItem>)
    requires IsShown(all, shown) && IsReferenced(refs, Written(all))
    ensures StartStation(shown) == StartStation(all)
    ensures EndStation(shown) == if StationsOf(all, |all|) != [] then EndStation(all) else StartStation(all)
  {
    ReferencedItems(refs, all);
    ShownStations(all, shown, |all|);
    var places := PlaceStationsOf(shown, |shown|);
    if StationsOf(all, |all|) == [] {
      assert places[0] in places && places[|places| - 1] in places;
    }
  }

  /** The request that repeats what is shown, with the position that follows from its place in the list. */
  ghost predicate Repeats(u: UiItem, k: nat, r: ItemRequest) {
    && u.stationId == r.stationId && u.placeId == r.placeId && u.note == r.memo && u.scheduledTime == r.visitTime
    && r.position == Some(k + 1)
    && (u.itemType == StationVisit <==> r.itemType == StationItem)
    && (u.id.Some? && u.id.value > 0 ==> r.planItemId == u.id)
    && (r.visitTime.Some? ==> AcceptedTime(r.visitTime.value) == r.visitTime)
  }

  lemma ShownRepeats(all: seq<UiItem>, i: nat, shown: seq<UiItem>, k: nat)
    requires i < |all| && k < |shown| && IsKept(all[i]) && IsShownFor(all, i, shown[k])
    requires all[i].itemType == StationVisit ==> all[i].stationId.Some?
    requires all[i].itemType == PlaceVisit ==> all[i].placeId.Some?
    requires StationAfter(shown, k + 1) == StationAfter(all, i + 1) != 0
    ensures IsKept(shown[k]) && Repeats(shown[k], k, RequestFor(shown, k))
  {
    hide StationAfter, AcceptedTime, DefaultTime;
  }

  lemma {:induction false} ShownStationsAt(refs: References, all: seq<UiItem>, shown: seq<UiItem>, k: nat, i: nat)
    requires IsShown(all, shown) && IsReferenced(refs, Written(all)) && k < |shown|
    requires k < |Kept(all, |all|)| && i == Kept(all, |all|)[k]
    ensures SameStations(all, i + 1, shown, k + 1)
  {
    hide *;
    ReferencedItems(refs, all);
    KeptAt(all, k);
    ShownStations(all, shown, i + 1);
  }

  /** The visitor is at the same station before the shown item as before the item it stands for. */
  lemma {:induction false} ShownStationAfter(refs: References, all: seq<UiItem>, shown: seq<UiItem>, k: nat, i: nat)
    requires IsShown(all, shown) && IsReferenced(refs, Written(all)) && k < |shown|
    requires k < |Kept(all, |all|)| && i == Kept(all, |all|)[k]
    ensures StationAfter(shown, k + 1) == StationAfter(all, i + 1) != 0
  {
    hide *;
    StationsAreNotZero(refs, all, i + 1);
    ShownStart(refs, all, shown);
    ShownStationsAt(refs, all, shown, k, i);
    SameStationAfter(all, i + 1, shown, k + 1);
  }

  /** Each shown item is written as it is stored, except that its position is its place among the shown ones. */
  lemma {:induction false} ShownItemIsWritten(refs: References, all: seq<UiItem>, shown: seq<UiItem>, k: nat)
    requires IsShown(all, shown) && IsReferenced(refs, Written(all)) && k < |shown|
    ensures IsKept(shown[k]) && Repeats(shown[k], k, RequestFor(shown, k))
  {
    var i := Kept(all, |all|)[k];
    assert IsShownFor(all, i, shown[k]);
    hide *;
    ReferencedItems(refs, all);
    ShownStationAfter(refs, all, shown, k, i);
    ShownRepeats(all, i, shown, k);
  }

  lemma SameStationAfter(all: seq<UiItem>, n: nat, shown: seq<UiItem>, k: nat)
    requires n <= |all| && k <= |shown| && SameStations(all, n, shown, k) && StartStation(shown) == StartStation(all)
    ensures StationAfter(shown, k) == StationAfter(all, n)
  {
    hide StartStation, StationsOf, PlaceStationsOf;
  }

  /** The kept item k is the last of the k + 1 kept up to it. */
  lemma KeptAt(all: seq<UiItem>, k: nat)
    requires k < |Kept(all, |all|)|
    ensures |Kept(all, Kept(all, |all|)[k] + 1)| == k + 1
  {
    hide Kept;
    var kept := Kept(all, |all|);
    var i := kept[k];
    KeptStep(all, i);
    KeptGrows(all, i + 1, |all|);
    var j := |Kept(all, i)|;
    assert kept[..|Kept(all, i + 1)|][j] == i;
    KeptExactly(all, |all|);
    SamePlace(kept, j, k);
  }

  lemma SamePlace(s: seq<nat>, j: nat, k: nat)
    requires forall j, k :: 0 <= j < k < |s| ==> s[j] < s[k]
    requires j < |s| && k < |s| && s[j] == s[k]
    ensures j == k
  {
  }

  function WithPosition(item: PlanItem, position: int): PlanItem {
    item.(position := position)
  }

  lemma RepeatsAreStored(listing: seq<Entry>, requests: seq<ItemRequest>, nextId: int, planId: int)
    requires |requests| == |listing|
    requires forall k :: 0 <= k < |listing| ==> listing[k].id > 0 && listing[k].item.planId == planId
    requires forall k: nat :: k < |listing| ==> Repeats(MapItem(listing[k]), k, requests[k])
    ensures forall k :: 0 <= k < |listing| ==>
              && StoredId(requests, nextId, k) == listing[k].id
              && StoredItem(requests, planId, k) == WithPosition(listing[k].item, k + 1)
  {
    forall k: nat | k < |listing|
      ensures StoredId(requests, nextId, k) == listing[k].id
      ensures StoredItem(requests, planId, k) == WithPosition(listing[k].item, k + 1)
    {
      assert Repeats(MapItem(listing[k]), k, requests[k]);
      hide AcceptedTime;
    }
  }

  lemma {:induction false} SecondSaveItems(refs: References, all: seq<UiItem>, shown: seq<UiItem>, planId: int,
                                           after: map<int, PlanItem>, listing: seq<Entry>, nextId: int,
                                           again: map<int, PlanItem>)
    requires shown == MapItems(listing) && IsShown(all, shown) && IsReferenced(refs, Written(all))
    requires IsListing(after, planId, listing) && forall id :: id in after ==> id > 0
    requires IsSnapshot(after, nextId, planId, Requests(shown), again)
    ensures again.Keys == after.Keys
    ensures forall id :: id in after && after[id].planId != planId ==> again[id] == after[id]
    ensures forall k :: 0 <= k < |listing| ==>
              again[listing[k].id] == WithPosition(after[listing[k].id], k + 1)
  {
    assert forall k :: 0 <= k < |listing| ==> listing[k] in listing;
    hide IsReferenced, IsShown, RequestFor, Repeats, StationsOf, PlaceStationsOf, Kept, StoredId, StoredItem, Written;
    ShownRequests(refs, all, shown);
    RepeatsAreStored(listing, Requests(shown), nextId, planId);
    SameIds(planId, listing, Requests(shown), nextId, after, again);
  }

  /** Saving a shown plan again stores the same items under the same ids, and only closes the gaps that unwritten items
      left in the positions; the start station stays, and so does the end station exactly when the plan visits a station
      or ends where it starts. */
  lemma {:induction false} SecondSaveOnlyClosesGaps(
    refs: References, all: seq<UiItem>, requests: seq<ItemRequest>, before: map<int, PlanItem>, nextId: int,
    planId: int, after: map<int, PlanItem>, listing: seq<Entry>, nextId': int, again: map<int, PlanItem>)
    requires IsSaved(refs, all, requests, before, nextId, planId, after, listing)
    requires forall id :: id in after ==> id > 0
    requires IsSnapshot(after, nextId', planId, Requests(MapItems(listing)), again)
    ensures again.Keys == after.Keys
    ensures forall id :: id in after && after[id].planId != planId ==> again[id] == after[id]
    ensures forall k :: 0 <= k < |listing| ==>
              listing[k].id in after && again[listing[k].id] == WithPosition(after[listing[k].id], k + 1)
    ensures StartStation(MapItems(listing)) == StartStation(all)
    ensures EndStation(MapItems(listing)) == EndStation(all)
            <==> (StationsOf(all, |all|) != [] || EndStation(all) == StartStation(all))
  {
    assert forall k :: 0 <= k < |listing| ==> listing[k] in listing;
    var shown, plan := MapItems(listing), Plan(0, "", 0, 0, 0);
    hide IsSnapshot, IsReferenced, StartStation, EndStation, StationAfter, StationsOf, PlaceStationsOf, Kept;
    hide RequestFor, IsValidRequest, Written, IsShownFor, StoredId, StoredItem, AcceptedTime;
    SavedPlanIsShown(refs, all, requests, before, nextId, planId, after, listing, plan);
    ShownStart(refs, all, shown);
    SecondSaveItems(refs, all, shown, planId, after, listing, nextId', again);
  }

  lemma {:induction false} ShownRequests(refs: References, all: seq<UiItem>, shown: seq<UiItem>)
    requires IsShown(all, shown) && IsReferenced(refs, Written(all))
    ensures |Requests(shown)| == |shown|
    ensures forall k: nat :: k < |shown| ==> Repeats(shown[k], k, Requests(shown)[k])
  {
    hide IsReferenced, IsShown, RequestFor, Repeats, StationsOf, PlaceStationsOf;
    forall k: nat | k < |shown|
      ensures IsKept(shown[k]) && Repeats(shown[k], k, RequestFor(shown, k))
    {
      ShownItemIsWritten(refs, all, shown, k);
    }
    AllKept(shown, |shown|);
  }

  lemma SameIds(planId: int, listing: seq<Entry>, requests: seq<ItemRequest>, nextId: int,
                after: map<int, PlanItem>, again: map<int, PlanItem>)
    requires IsListing(after, planId, listing) && |requests| == |listing|
    requires forall k :: 0 <= k < |listing| ==> StoredId(requests, nextId, k) == listing[k].id
    requires IsSnapshot(after, nextId, planId, requests, again)
    ensures again.Keys == after.Keys
  {
    forall id
      ensures id in after <==> id in again
    {
      if id in after && after[id].planId == planId {
        assert Entry(id, after[id]) in listing;
        var k :| 0 <= k < |listing| && listing[k] == Entry(id, after[id]);
        assert StoredId(requests, nextId, k) == id;
      }
      if id in again && again[id].planId == planId {
        var k :| 0 <= k < |requests| && StoredId(requests, nextId, k) == id;
        assert listing[k] in listing;
      }
    }
  }

  /** No unwritten item stands before a written one, among the first n. */
  predicate HasNoGap(all: seq<UiItem>, n: nat)
    requires n <= |all|
  {
    forall i, j :: 0 <= i < j < n && IsKept(all[j]) ==> IsKept(all[i])
  }

  predicate IsIdentity(s: seq<nat>) {
    forall k :: 0 <= k < |s| ==> s[k] == k
  }

  lemma IdentityGrows(s: seq<nat>, x: nat)
    ensures IsIdentity(s + [x]) <==> IsIdentity(s) && x == |s|
  {
    if IsIdentity(s + [x]) {
      assert (s + [x])[|s|] == x;
      forall k | 0 <= k < |s|
        ensures s[k] == k
      {
        assert (s + [x])[k] == s[k];
      }
    }
  }

  lemma {:induction false} KeptIsPrefix(all: seq<UiItem>, n: nat)
    requires n <= |all|
    ensures IsIdentity(Kept(all, n)) <==> HasNoGap(all, n)
    ensures |Kept(all, n)| == n <==> forall i :: 0 <= i < n ==> IsKept(all[i])
  {
    if n > 0 {
      KeptIsPrefix(all, n - 1);
      if IsKept(all[n - 1]) {
        IdentityGrows(Kept(all, n - 1), n - 1);
        assert HasNoGap(all, n) ==> forall i :: 0 <= i < n - 1 ==> IsKept(all[i]);
      } else {
        assert Kept(all, n) == Kept(all, n - 1);
        assert HasNoGap(all, n) <==> HasNoGap(all, n - 1);
      }
    }
  }

  lemma ClosingGapsChangesNothing(planId: int, after: map<int, PlanItem>, again: map<int, PlanItem>,
                                  listing: seq<Entry>, kept: seq<nat>)
    requires IsListing(after, planId, listing) && |kept| == |listing| && again.Keys == after.Keys
    requires forall id :: id in after && after[id].planId != planId ==> again[id] == after[id]
    requires forall k :: 0 <= k < |listing| ==>
               listing[k].id in after && again[listing[k].id] == WithPosition(after[listing[k].id], k + 1)
    requires forall k :: 0 <= k < |listing| ==> listing[k].item.position == kept[k] + 1
    ensures again == after <==> IsIdentity(kept)
  {
    assert forall k :: 0 <= k < |listing| ==> listing[k] in listing;
    if IsIdentity(kept) {
      forall id | id in after
        ensures again[id] == after[id]
      {
        if after[id].planId == planId {
          assert Entry(id, after[id]) in listing;
          var k :| 0 <= k < |listing| && listing[k] == Entry(id, after[id]);
        }
      }
      assert again == after;
    } else {
      var k: nat :| k < |kept| && kept[k] != k;
      assert again[listing[k].id].position == k + 1;
    }
  }

  lemma {:induction false} ShownPositions(all: seq<UiItem>, listing: seq<Entry>)
    requires IsShown(all, MapItems(listing))
    ensures |Kept(all, |all|)| == |listing|
    ensures forall k :: 0 <= k < |listing| ==> listing[k].item.position == Kept(all, |all|)[k] + 1
  {
    forall k: nat | k < |listing|
      ensures listing[k].item.position == Kept(all, |all|)[k] + 1
    {
      assert IsShownFor(all, Kept(all, |all|)[k], MapItems(listing)[k]);
    }
  }

  /** The second save changes nothing at all exactly when no unwritten item stood before a written one. */
  lemma {:induction false} FirstSaveIsFinalExactly(
    refs: References, all: seq<UiItem>, requests: seq<ItemRequest>, before: map<int, PlanItem>, nextId: int,
    planId: int, after: map<int, PlanItem>, listing: seq<Entry>, nextId': int, again: map<int, PlanItem>)
    requires IsSaved(refs, all, requests, before, nextId, planId, after, listing)
    requires forall id :: id in after ==> id > 0
    requires IsSnapshot(after, nextId', planId, Requests(MapItems(listing)), again)
    ensures again == after <==> HasNoGap(all, |all|)
  {
    assert IsListing(after, planId, listing);
    hide *;
    SecondSaveOnlyClosesGaps(refs, all, requests, before, nextId, planId, after, listing, nextId', again);
    SavedPlanIsShown(refs, all, requests, before, nextId, planId, after, listing, Plan(0, "", 0, 0, 0));
    KeptIsPrefix(all, |all|);
    ShownPositions(all, listing);
    ClosingGapsChangesNothing(planId, after, again, listing, Kept(all, |all|));
  }

  function PlaceAt(placeId: int, stationId: int): UiItem {
    UiItem(None, PlaceVisit, Some(stationId), Some(placeId), None, None, 1)
  }

  function TwoPlaces(): seq<UiItem> {
    [PlaceAt(1, 1), PlaceAt(2, 2)]
  }

  lemma TwoPlacesAre()
    ensures var all := TwoPlaces();
            && StationsOf(all, 2) == [] && PlaceStationsOf(all, 2) == [Some(1), Some(2)]
            && Kept(all, 1) == [0] && Kept(all, 2) == [0, 1]
            && StationsOf(all, 1) == [] && StartStation(all) == 1 && EndStation(all) == 2
  {
    var all := TwoPlaces();
    assert StationsOf(all, 1) == [] && PlaceStationsOf(all, 1) == [Some(1)] && Kept(all, 1) == [0];
  }

  function PlaceRequest(n: nat): ItemRequest
    requires n >= 1
  {
    ItemRequest(None, PlaceItem, Some(n), Some(1), Some(n), Some(DefaultTime(n - 1)), None)
  }

  lemma TwoRequests()
    ensures Requests(TwoPlaces()) == [PlaceRequest(1), PlaceRequest(2)]
  {
    TwoPlacesAre();
    var all := TwoPlaces();
    hide StationsOf, PlaceStationsOf, StartStation, Kept, DefaultTime;
    assert RequestFor(all, 0) == PlaceRequest(1) && RequestFor(all, 1) == PlaceRequest(2);
  }

  /** Both places can be reached from station 1. */
  function TwoReferences(): References {
    References({1, 2}, {1, 2}, {(1, 1), (2, 1)})
  }

  lemma TwoAreAccepted()
    ensures AreValid(Requests(TwoPlaces()))
    ensures IsReferenced(TwoReferences(), Written(TwoPlaces()))
  {
    TwoPlacesAre();
    TwoRequests();
    hide StationsOf, PlaceStationsOf, StartStation, EndStation, Requests, TwoPlaces, DefaultTime;
    TwoAreValid();
    TwoAreReferenced();
  }

  lemma TwoAreValid()
    ensures AreValid([PlaceRequest(1), PlaceRequest(2)])
  {
    DefaultTimeExactly(0);
    DefaultTimeExactly(1);
    hide DefaultTime, AcceptedTime;
  }

  lemma TwoAreReferenced()
    ensures RequireReferences(TwoReferences(), {1, 2}, [PlaceRequest(1), PlaceRequest(2)]) == None
  {
    var requests := [PlaceRequest(1), PlaceRequest(2)];
    hide DefaultTime;
    assert StationsExist(TwoReferences(), {1, 2}, requests);
    assert PlacesExist(TwoReferences(), requests) && PairsExist(TwoReferences(), requests);
  }

  lemma TwoAreStored(requests: seq<ItemRequest>)
    requires |requests| == 2 && requests[0].planItemId.None? && requests[1].planItemId.None?
    ensures StoredId(requests, 1, 0) == 1 && StoredId(requests, 1, 1) == 2
    ensures var after := map[1 := StoredItem(requests, 1, 0), 2 := StoredItem(requests, 1, 1)];
            IsSnapshot(map[], 1, 1, requests, after)
  {
    assert NewAmong(requests, 0) == 0 && NewAmong(requests, 1) == 1;
  }

  lemma TwoAreListed(first: PlanItem, second: PlanItem)
    requires first.planId == second.planId == 1 && first.position < second.position
    ensures IsListing(map[1 := first, 2 := second], 1, [Entry(1, first), Entry(2, second)])
  {
  }

  function TwoStored(): map<int, PlanItem> {
    TwoRequests();
    map[1 := StoredItem(Requests(TwoPlaces()), 1, 0), 2 := StoredItem(Requests(TwoPlaces()), 1, 1)]
  }

  function TwoListed(): seq<Entry> {
    [Entry(1, TwoStored()[1]), Entry(2, TwoStored()[2])]
  }

  /** A plan of two places at different stations is accepted, stored and listed. It ends at the second one's station;
      what is shown of it, saved again, ends at the first one's. */
  lemma EndStationCanMove()
    ensures IsSaved(TwoReferences(), TwoPlaces(), Requests(TwoPlaces()), map[], 1, 1, TwoStored(), TwoListed())
    ensures EndStation(TwoPlaces()) == 2 && EndStation(MapItems(TwoListed())) == 1
  {
    var all, requests := TwoPlaces(), Requests(TwoPlaces());
    TwoPlacesAre();
    TwoRequests();
    TwoAreAccepted();
    TwoAreStored(requests);
    var first, second := StoredItem(requests, 1, 0), StoredItem(requests, 1, 1);
    assert first.position == 1 && second.position == 2;
    TwoAreListed(first, second);
    assert TwoStored() == map[1 := first, 2 := second] && TwoListed() == [Entry(1, first), Entry(2, second)];
    hide IsReferenced, IsSnapshot, IsListing, IsValidRequest, Requests, TwoPlaces, StoredItem, IsShown, StartStation;
    hide EndStation, TwoStored, TwoListed;
    SavedPlanIsShown(TwoReferences(), all, requests, map[], 1, 1, TwoStored(), TwoListed(), Plan(0, "", 1, 2, 0));
    ShownStart(TwoReferences(), all, MapItems(TwoListed()));
  }

  // ---------- The second save is accepted ----------

  predicate RefersAlike(r: ItemRequest, r': ItemRequest) {
    r.itemType == r'.itemType && r.placeId == r'.placeId && r.stationId == r'.stationId
  }

  /** The requests name the same things at the same places. */
  ghost predicate SameReferences(first: seq<ItemRequest>, second: seq<ItemRequest>) {
    |first| == |second| && forall k :: 0 <= k < |first| ==> RefersAlike(first[k], second[k])
  }

  lemma ShownItemRefersAlike(all: seq<UiItem>, i: nat, u: UiItem, k: nat, r: ItemRequest)
    requires i < |all| && IsKept(all[i]) && IsShownFor(all, i, u) && Repeats(u, k, r)
    requires all[i].itemType == StationVisit ==> all[i].stationId.Some?
    requires all[i].itemType == PlaceVisit ==> all[i].placeId.Some?
    requires StationAfter(all, i + 1) != 0
    ensures RefersAlike(RequestFor(all, i), r)
    ensures IsValidRequest(RequestFor(all, i)) ==> IsValidRequest(r)
  {
    hide StationAfter, AcceptedTime, DefaultTime;
  }

  lemma {:induction false} ShownRefersAlikeAt(refs: References, all: seq<UiItem>, shown: seq<UiItem>, k: nat)
    requires IsShown(all, shown) && IsReferenced(refs, Written(all)) && k < |shown|
    requires k < |Requests(all)| && k < |Requests(shown)| && IsValidRequest(Requests(all)[k])
    ensures RefersAlike(Requests(all)[k], Requests(shown)[k])
    ensures IsValidRequest(Requests(shown)[k])
  {
    var i := Kept(all, |all|)[k];
    assert IsShownFor(all, i, shown[k]);
    hide *;
    ReferencedItems(refs, all);
    ShownRequests(refs, all, shown);
    StationsAreNotZero(refs, all, i + 1);
    ShownItemRefersAlike(all, i, shown[k], k, Requests(shown)[k]);
  }

  lemma {:induction false} ShownRefersAlike(refs: References, all: seq<UiItem>, shown: seq<UiItem>)
    requires IsShown(all, shown) && IsReferenced(refs, Written(all))
    requires AreValid(Requests(all))
    ensures SameReferences(Requests(all), Requests(shown)) && AreValid(Requests(shown))
  {
    assert |shown| == |Kept(all, |all|)|;
    assert forall k :: 0 <= k < |Requests(all)| ==> Requests(all)[k] in Requests(all);
    hide Kept, EachIsShown, IsReferenced, RequestFor, IsValidRequest, Repeats, Requests, Written, RefersAlike;
    ShownRequests(refs, all, shown);
    forall k: nat | k < |shown|
      ensures RefersAlike(Requests(all)[k], Requests(shown)[k])
      ensures IsValidRequest(Requests(shown)[k])
    {
      ShownRefersAlikeAt(refs, all, shown, k);
    }
  }

  lemma ReferencedAlike(refs: References, stations: set<int>, stations': set<int>,
                        first: seq<ItemRequest>, second: seq<ItemRequest>)
    requires RequireReferences(refs, stations, first) == None && SameReferences(first, second)
    requires stations' <= stations
    ensures RequireReferences(refs, stations', second) == None
  {
    assert StationsExist(refs, stations, first) && PlacesExist(refs, first) && PairsExist(refs, first);
    assert forall k :: 0 <= k < |first| ==> RefersAlike(first[k], second[k]);
    assert StationsExist(refs, stations', second);
    assert PlacesExist(refs, second);
    assert PairsExist(refs, second);
  }

  lemma ShownIdsAreKnown(after: map<int, PlanItem>, planId: int, listing: seq<Entry>,
                         requests: seq<ItemRequest>)
    requires IsListing(after, planId, listing) && |requests| == |listing|
    requires forall id :: id in after ==> id > 0
    requires forall k: nat :: k < |listing| ==> Repeats(MapItem(listing[k]), k, requests[k])
    ensures DistinctIds(requests) && KnownIds(after, planId, requests)
  {
    forall k: nat | k < |listing|
      ensures requests[k].planItemId == Some(listing[k].id)
      ensures listing[k].id in after && after[listing[k].id] == listing[k].item && listing[k].item.planId == planId
    {
      assert listing[k] in listing;
      assert Repeats(MapItem(listing[k]), k, requests[k]);
    }
    forall i, j | 0 <= i < j < |listing|
      ensures listing[i].id != listing[j].id
    {
      assert EntryKey(listing[i]).Less(EntryKey(listing[j]));
    }
  }

  lemma {:induction false} ShownIsReferenced(refs: References, all: seq<UiItem>, shown: seq<UiItem>)
    requires IsShown(all, shown) && IsReferenced(refs, Written(all)) && AreValid(Requests(all))
    ensures var w := Written(shown);
            RequireReferences(refs, {w.startStationId, w.endStationId}, w.items) == None && AreValid(w.items)
  {
    var w, w' := Written(all), Written(shown);
    assert RequireReferences(refs, {w.startStationId, w.endStationId}, w.items) == None;
    hide IsReferenced, StartStation, EndStation, StationsOf, EachIsShown, Requests, RequireReferences, SameReferences;
    hide AreValid;
    ShownRefersAlike(refs, all, shown);
    ShownStart(refs, all, shown);
    ReferencedAlike(refs, {w.startStationId, w.endStationId}, {w'.startStationId, w'.endStationId}, w.items, w'.items);
  }

  lemma {:induction false} ShownIsAccepted(refs: References, all: seq<UiItem>, planId: int, items: map<int, PlanItem>,
                                           listing: seq<Entry>)
    requires IsShown(all, MapItems(listing)) && IsReferenced(refs, Written(all)) && AreValid(Requests(all))
    requires IsListing(items, planId, listing) && forall id :: id in items ==> id > 0
    ensures var w := Written(MapItems(listing));
            && RequireReferences(refs, {w.startStationId, w.endStationId}, w.items) == None && AreValid(w.items)
            && DistinctIds(w.items) && KnownIds(items, planId, w.items)
  {
    var shown := MapItems(listing);
    hide *;
    WrittenItems(shown);
    ShownIsReferenced(refs, all, shown);
    ShownRequests(refs, all, shown);
    ShownIdsAreKnown(items, planId, listing, Requests(shown));
  }

  lemma {:induction false} WrittenItems(all: seq<UiItem>)
    ensures Written(all).items == Requests(all)
  {
  }

  /** What was saved and shown can be saved again by its owner. */
  lemma {:induction false} SecondSaveIsAccepted(
    refs: References, all: seq<UiItem>, requests: seq<ItemRequest>, before: map<int, PlanItem>, nextId: int,
    planId: int, after: map<int, PlanItem>, listing: seq<Entry>, plans: map<int, Plan>, title: string)
    requires IsSaved(refs, all, requests, before, nextId, planId, after, listing)
    requires forall id :: id in after ==> id > 0
    requires planId in plans && 1 <= |title| <= 100
    ensures var w := Written(MapItems(listing));
            UpdateError(refs, plans, after, planId, plans[planId].userId,
                        PlanFields(Some(title), Some(w.startStationId), Some(w.endStationId)), Some(w.items)) == None
  {
    hide IsSnapshot, IsListing, IsReferenced, IsValidRequest, Written, IsShown;
    hide RequireReferences, DistinctIds, KnownIds;
    SavedPlanIsShown(refs, all, requests, before, nextId, planId, after, listing, plans[planId]);
    ShownIsAccepted(refs, all, planId, after, listing);
  }
}
