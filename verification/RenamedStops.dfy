/** When the planner shows a chosen station under another name (transitTimetable.ts). */
module RenamedStops {
  import opened Wrappers
  import opened Clock
  import opened LineMap
  import opened ShortestPath
  import opened Trains
  import opened Hops
  import opened Itineraries
  import opened Stages
  import opened Route
  import opened RouteFacts
  import opened ChosenStations

  // ---------- A timetable with one change of trains ----------

  /** A train from one station to another on one raw line, and one from there on a second raw line. */
  datatype Change = Change(from: StationId, over: StationId, to: StationId, first: int, second: int)

  predicate IsChange(c: Change) {
    c.from != c.over && c.over != c.to && c.from != c.to && c.first != c.second
  }

  /** A train that halts at a minute of the day. */
  function Halt(trainNo: string, minute: int): (rows: seq<Row>)
    ensures |rows| == 1
  {
    [Row(Some(trainNo), Some(FormatClock(minute)), Some(FormatClock(minute)))]
  }

  /** 10:00 to 10:10, and 10:20 to 10:30; nothing else runs. */
  function HaltsAt(c: Change, s: StationId, raw: int): seq<Row> {
    if raw == c.first then
      if s == c.from then Halt("F", 600) else if s == c.over then Halt("F", 610) else []
    else if raw == c.second then
      if s == c.over then Halt("S", 620) else if s == c.to then Halt("S", 630) else []
    else []
  }

  function OneChange(c: Change): Timetables {
    (s: StationId, raw: int, day: DayType, direction: Direction) => HaltsAt(c, s, raw)
  }

  lemma HaltsRide(trainNo: string, d: int, other: string, e: int, t: Train)
    requires trainNo != "" && 0 <= d < MINUTES_PER_DAY && 0 <= e < MINUTES_PER_DAY
    ensures IsRide(Halt(trainNo, d), Halt(other, e), t)
            <==> (trainNo == other == t.trainNo && t.departureMinute == d && t.arrivalMinute == LiftPast(e, d)
                  && t.arrivalMinute - d <= MAX_LEG_MINUTES)
  {
    ParseFormatClock(d);
    ParseFormatClock(e);
    hide FormatClock, ParseClock;
    var from, to := Halt(trainNo, d), Halt(other, e);
    assert DepartsAt(from[0], t.trainNo, t.departureMinute) <==> t.trainNo == trainNo && t.departureMinute == d;
    assert forall raw :: ArrivesAt(to[0], t.trainNo, raw) <==> t.trainNo == other != "" && raw == e;
    assert forall raw :: SomeArrives(to, t.trainNo, raw) <==> ArrivesAt(to[0], t.trainNo, raw);
  }

  /** Nothing else rides: both trains are too slow backwards. */
  lemma OnlyTwoRides(c: Change, s: StationId, d: StationId, raw: int, day: DayType, t: Train)
    requires IsChange(c)
    ensures Rides(OneChange(c), s, d, raw, day, t)
            <==> || (t.trainNo == "F" && t.departureMinute == 600 && t.arrivalMinute == 610
                     && s == c.from && d == c.over && raw == c.first)
                 || (t.trainNo == "S" && t.departureMinute == 620 && t.arrivalMinute == 630
                     && s == c.over && d == c.to && raw == c.second)
  {
    hide IsRide, Halt;
    if HaltsAt(c, s, raw) != [] && HaltsAt(c, d, raw) != [] {
      var trainNo := if raw == c.first then "F" else "S";
      var departure := if raw == c.first then (if s == c.from then 600 else 610) else if s == c.over then 620 else 630;
      var arrival := if raw == c.first then (if d == c.from then 600 else 610) else if d == c.over then 620 else 630;
      HaltsRide(trainNo, departure, trainNo, arrival, t);
    } else {
      NoHaltsNoRide(HaltsAt(c, s, raw), HaltsAt(c, d, raw), t);
    }
  }

  lemma NoHaltsNoRide(from: seq<Row>, to: seq<Row>, t: Train)
    requires from == [] || to == []
    ensures !IsRide(from, to, t)
  {
  }

  /** The two stations and the one between them share the lines of the change, and nothing else matters. */
  ghost predicate Serves(c: Change, a: Station, x: Station, b: Station) {
    && IsChange(c) && c.from == a.stationId && c.over == x.stationId && c.to == b.stationId
    && c.first in a.rawLineIds && c.first in x.rawLineIds && c.second in x.rawLineIds && c.second in b.rawLineIds
  }

  /** The first train reaches the transfer station in time for the second. */
  lemma ChangeIsMade(c: Change, a: Station, x: Station, b: Station, day: DayType)
    requires Serves(c, a, x, b) && OnKnownLines(a) && OnKnownLines(x)
    ensures TryTransferVia(OneChange(c), a, x, b, 600, day).Some?
  {
    hide Rides, OneChange, BestAttempt;
    var tt, first, second := OneChange(c), Train("F", Up, 600, 610), Train("S", Up, 620, 630);
    OnlyTwoRides(c, c.from, c.over, c.first, day, first);
    OnlyTwoRides(c, c.over, c.to, c.second, day, second);
    assert Connects(tt, a, x, day, 600, c.first, first);
    BestBetweenIsFastest(tt, a, x, 600, day);
    var best := BestBetween(tt, a, x, 600, day).value;
    OnlyTwoRides(c, c.from, c.over, best.rawLineId, day, best.train);
    assert best.train.arrivalMinute == 610;
    assert Connects(tt, x, b, day, 610 + TRANSFER_MINUTES, c.second, second);
    BestBetweenIsFastest(tt, x, b, 610 + TRANSFER_MINUTES, day);
  }

  lemma ChangeIsTimed(c: Change, m: LineMapData, a: Station, x: Station, b: Station, toName: string, day: DayType)
    requires Serves(c, a, x, b) && WellFormed(m) && OnKnownLines(a)
    requires SharedRawLineIds(a, b) == [] && x in FindTransferCandidates(a, b, m)
    ensures TimedHop(OneChange(c), a, b, toName, 600, day, m).Some?
  {
    hide TryTransferVia, BestTransfer, WellFormed, Serves, OneChange;
    CandidatesAreOnKnownLines(a, b, m);
    ChangeIsMade(c, a, x, b, day);
    BestTransferIsBest(OneChange(c), a, b, 600, day, m);
  }

  /** From any other station to any other no train leads. */
  lemma NoTrainElsewhere(c: Change, m: LineMapData, from: Station, to: Station, toName: string, earliest: int,
                         day: DayType)
    requires IsChange(c) && WellFormed(m) && OnKnownLines(from)
    requires from.stationId != c.from && from.stationId != c.to && to.stationId != c.to
    ensures TimedHop(OneChange(c), from, to, toName, earliest, day, m).None?
  {
    hide OneChange, BestAttempt, WellFormed, Rides, IsChange, Shows, FindTransferCandidates;
    var tt := OneChange(c);
    if SharedRawLineIds(from, to) != [] {
      if BestBetween(tt, from, to, earliest, day).Some? {
        BestBetweenConnects(tt, from, to, earliest, day);
        var best := BestBetween(tt, from, to, earliest, day).value;
        OnlyTwoRides(c, from.stationId, to.stationId, best.rawLineId, day, best.train);
      }
    } else {
      BestTransferIsBest(tt, from, to, earliest, day, m);
      forall x | OnKnownLines(x)
        ensures TryTransferVia(tt, from, x, to, earliest, day).None?
      {
        NoChangeElsewhere(c, from, x, to, earliest, day);
      }
    }
  }

  lemma NoChangeElsewhere(c: Change, from: Station, x: Station, to: Station, earliest: int, day: DayType)
    requires IsChange(c) && OnKnownLines(from) && OnKnownLines(x)
    requires from.stationId != c.from && from.stationId != c.to && to.stationId != c.to
    ensures TryTransferVia(OneChange(c), from, x, to, earliest, day).None?
  {
    hide OneChange, TryTransferVia, Rides, Shows;
    var tt := OneChange(c);
    TransferIsItinerary(tt, from, x, to, earliest, day);
    if TryTransferVia(tt, from, x, to, earliest, day).Some? {
      var i: Itinerary :| i.transfer == x && IsItinerary(tt, from, to, earliest, day, i);
      OnlyTwoRides(c, from.stationId, x.stationId, i.firstLine, day, i.first);
      OnlyTwoRides(c, x.stationId, to.stationId, i.secondLine, day, i.second);
    }
  }

  // ---------- A route over it ----------

  lemma {:induction false} ShortestPathExists(edges: seq<Edge>, a: StationId, b: StationId, p: seq<Edge>)
    returns (q: seq<Edge>)
    requires IsPath(edges, a, b, p)
    ensures IsShortestPath(edges, a, b, q)
    decreases |p|
  {
    hide IsPath;
    if r :| IsPath(edges, a, b, r) && |r| < |p| {
      q := ShortestPathExists(edges, a, b, r);
    } else {
      q := p;
    }
  }

  /** Chosen stations k and k + 1 are known and joined by the map. */
  ghost predicate IsJoined(m: LineMapData, stops: seq<StopInput>, k: nat)
    requires k + 1 < |stops|
  {
    && stops[k].id in m.stations && stops[k + 1].id in m.stations && stops[k].id != stops[k + 1].id
    && Connected(m.edges, stops[k].id, stops[k + 1].id)
  }

  lemma SomeHopResolves(tt: Timetables, day: DayType, m: LineMapData, stops: seq<StopInput>, k: nat, earliest: int)
    returns (hop: Hop)
    requires WellFormed(m) && k + 1 < |stops| && IsJoined(m, stops, k)
    ensures Resolves(tt, day, m, stops[k].id, stops[k + 1].id, stops[k + 1].name, earliest, hop)
  {
    hide TimedHop, PathOnlyHop;
    var a, b := stops[k].id, stops[k + 1].id;
    var timed := TimedHop(tt, m.stations[a], m.stations[b], stops[k + 1].name, earliest, day, m);
    if timed.Some? {
      hop := timed.value;
    } else {
      var p :| IsPath(m.edges, a, b, p);
      var q := ShortestPathExists(m.edges, a, b, p);
      assert q != [];
      hop := PathOnlyHop(q, stops[k + 1].name, m, earliest);
    }
  }

  ghost predicate AllJoined(m: LineMapData, stops: seq<StopInput>) {
    forall k :: 0 <= k < |stops| - 1 ==> IsJoined(m, stops, k)
  }

  lemma {:induction false} JourneyExists(tt: Timetables, day: DayType, m: LineMapData, stops: seq<StopInput>,
                                         requested: int, n: nat)
    returns (hops: seq<Hop>)
    requires WellFormed(m) && AllJoined(m, stops) && n < |stops|
    ensures |hops| == n && Journey(tt, day, m, stops, requested, hops)
  {
    hops := [];
    if n > 0 {
      hops := JourneyExists(tt, day, m, stops, requested, n - 1);
      hide Journey, Resolves, IsJoined, WellFormed;
      var hop := SomeHopResolves(tt, day, m, stops, n - 1, EarliestAfter(requested, hops));
      JourneyGrows(tt, day, m, stops, requested, hops, hop);
      hops := hops + [hop];
    }
  }

  lemma ScheduleExists(stops: seq<StopInput>, requested: int, day: DayType, hops: seq<Hop>)
    returns (schedule: RouteSchedule)
    requires |hops| < |stops| && forall k :: 0 <= k < |hops| ==> hops[k].stops != []
    ensures IsScheduleOf(stops, requested, day, hops, schedule)
  {
    hide FormatClock, AllLegs, FirstDeparture, AllTimed;
    var first := FirstDeparture(AllLegs(hops));
    var departure := if first.Some? then first.value else requested;
    var all := AllStops(stops, requested, hops);
    assert all != [];
    var last := all[|all| - 1].minute;
    var arrives := AllTimed(hops) && last.Some?;
    schedule := RouteSchedule(all[0 := all[0].(time := Some(FormatClock(departure)), minute := Some(departure))],
                              AllLegs(hops), FormatClock(departure),
                              if arrives then Some(FormatClock(last.value)) else None,
                              if arrives then Some(last.value - departure) else None, day, AllTimed(hops));
  }

  // ---------- The choices that are always given back ----------

  /** The planner may answer the choice and the departure time with this schedule. */
  ghost predicate IsAnswer(tt: Timetables, departureTime: string, day: DayType, m: LineMapData, stops: seq<StopInput>,
                           hops: seq<Hop>, schedule: RouteSchedule)
    requires WellFormed(m)
  {
    && ParseClock(Some(departureTime)).Some?
    && var requested := ParseClock(Some(departureTime)).value;
       && Journey(tt, day, m, stops, requested, hops) && |hops| + 1 == |stops|
       && (forall k :: 0 <= k < |hops| ==> hops[k].stops != [])
       && IsScheduleOf(stops, requested, day, hops, schedule)
  }

  /** Whatever the timetables and the departure, deleting the transfers of the schedule gives back the choice. */
  ghost predicate GivesChoice(m: LineMapData, stops: seq<StopInput>)
    requires WellFormed(m)
  {
    forall tt, departureTime, day, hops, schedule :: IsAnswer(tt, departureTime, day, m, stops, hops, schedule) ==>
        AsInputs(UserStops(schedule.stops)) == stops
  }

  /** Chosen station k + 1 cannot be reached by a change of trains, or is chosen under the map's name. */
  ghost predicate KeepsName(m: LineMapData, stops: seq<StopInput>, k: nat)
    requires WellFormed(m) && k + 1 < |stops|
  {
    stops[k].id in m.stations && stops[k + 1].id in m.stations ==>
      var from, to := m.stations[stops[k].id], m.stations[stops[k + 1].id];
      SharesLine(from, to) || FindTransferCandidates(from, to, m) == [] || stops[k + 1].name == to.name
  }

  lemma SharedAreShared(a: Station, b: Station)
    ensures SharedRawLineIds(a, b) == [] <==> !SharesLine(a, b)
  {
    assert forall raw :: raw in SharedRawLineIds(a, b) <==> raw in a.rawLineIds && raw in b.rawLineIds;
    if SharedRawLineIds(a, b) != [] {
      var raw := SharedRawLineIds(a, b)[0];
      assert raw in SharedRawLineIds(a, b);
      assert raw in a.rawLineIds && raw in b.rawLineIds;
    }
  }

  ghost predicate AllKeepNames(m: LineMapData, stops: seq<StopInput>)
    requires WellFormed(m)
  {
    forall k :: 0 <= k < |stops| - 1 ==> KeepsName(m, stops, k)
  }

  /** A hop that changes trains leads between stations that share no line and have a transfer station. */
  lemma OnlyChangesRename(tt: Timetables, day: DayType, m: LineMapData, stops: seq<StopInput>, requested: int,
                          hops: seq<Hop>, k: nat)
    requires WellFormed(m) && Journey(tt, day, m, stops, requested, hops) && k < |hops|
    ensures |hops| < |stops| && stops[k].id in m.stations && stops[k + 1].id in m.stations
    ensures TakesMapName(m, stops[k].id, stops[k + 1].id, hops[k]) && KeepsName(m, stops, k)
            ==> stops[k + 1].name == m.stations[stops[k + 1].id].name
  {
    assert IsStage(tt, day, m, stops, requested, hops, k);
    var from, to, earliest := m.stations[stops[k].id], m.stations[stops[k + 1].id], EarliestAfter(requested, hops[..k]);
    hide Journey, TryTransferVia, BestTransfer, WellFormed;
    SharedAreShared(from, to);
    BestTransferIsBest(tt, from, to, earliest, day, m);
  }

  lemma KeptNamesAgree(tt: Timetables, departureTime: string, day: DayType, m: LineMapData, stops: seq<StopInput>,
                       hops: seq<Hop>, schedule: RouteSchedule)
    requires WellFormed(m) && AllKeepNames(m, stops)
    requires IsAnswer(tt, departureTime, day, m, stops, hops, schedule)
    ensures AsInputs(UserStops(schedule.stops)) == stops
  {
    var requested := ParseClock(Some(departureTime)).value;
    hide WellFormed, Journey, IsScheduleOf, KeepsName, ParseClock, TakesMapName, UserStops;
    forall k: nat | k < |hops| && stops[k].id in m.stations && stops[k + 1].id in m.stations
               && TakesMapName(m, stops[k].id, stops[k + 1].id, hops[k])
      ensures stops[k + 1].name == m.stations[stops[k + 1].id].name
    {
      assert KeepsName(m, stops, k);
      OnlyChangesRename(tt, day, m, stops, requested, hops, k);
    }
    ErasingTransfersGivesTheChoiceExactly(tt, day, m, stops, requested, hops, schedule);
  }

  // ---------- A timetable that renames ----------

  /** No station is chosen twice, as the page that plans the route sees to. */
  predicate AreDistinct(stops: seq<StopInput>) {
    forall i, j :: 0 <= i < j < |stops| ==> stops[i].id != stops[j].id
  }

  lemma ChangeExists(m: LineMapData, stops: seq<StopInput>, k: nat) returns (c: Change, x: Station)
    requires WellFormed(m) && k + 1 < |stops| && IsJoined(m, stops, k) && !KeepsName(m, stops, k)
    ensures var a, b := m.stations[stops[k].id], m.stations[stops[k + 1].id];
            && Serves(c, a, x, b) && x in FindTransferCandidates(a, b, m) && !SharesLine(a, b)
            && a.stationId == stops[k].id && b.stationId == stops[k + 1].id && OnKnownLines(a)
  {
    var a, b := m.stations[stops[k].id], m.stations[stops[k + 1].id];
    x := FindTransferCandidates(a, b, m)[0];
    assert x in FindTransferCandidates(a, b, m);
    assert IsTransferStation(a, b, x);
    var first :| first in x.rawLineIds && first in a.rawLineIds;
    var second :| second in x.rawLineIds && second in b.rawLineIds;
    c := Change(a.stationId, x.stationId, b.stationId, first, second);
  }

  /** Before the change no train runs between the chosen stations. */
  lemma UntimedBefore(c: Change, m: LineMapData, stops: seq<StopInput>, hops: seq<Hop>, j: nat, k: nat)
    requires WellFormed(m) && AreDistinct(stops) && Journey(OneChange(c), Weekday, m, stops, 600, hops)
    requires j < k < |hops| && IsChange(c) && c.from == stops[k].id && c.to == stops[k + 1].id
    ensures !hops[j].timed
  {
    assert IsStage(OneChange(c), Weekday, m, stops, 600, hops, j);
    hide OneChange, TimedHop, Journey, IsShortestPath;
    NoTrainElsewhere(c, m, m.stations[stops[j].id], m.stations[stops[j + 1].id], stops[j + 1].name,
                     EarliestAfter(600, hops[..j]), Weekday);
  }

  lemma {:induction false} UntimedHopsTakeNoTime(requested: int, hops: seq<Hop>)
    requires forall j :: 0 <= j < |hops| ==> !hops[j].timed
    ensures EarliestAfter(requested, hops) == requested
  {
    if hops != [] {
      UntimedHopsTakeNoTime(requested, hops[..|hops| - 1]);
    }
  }

  lemma TimedAtChange(c: Change, x: Station, m: LineMapData, stops: seq<StopInput>, hops: seq<Hop>, k: nat)
    requires WellFormed(m) && AreDistinct(stops) && Journey(OneChange(c), Weekday, m, stops, 600, hops)
    requires k < |hops| && stops[k].id in m.stations && stops[k + 1].id in m.stations
    requires var a, b := m.stations[stops[k].id], m.stations[stops[k + 1].id];
             && Serves(c, a, x, b) && x in FindTransferCandidates(a, b, m) && !SharesLine(a, b)
             && a.stationId == stops[k].id && b.stationId == stops[k + 1].id && OnKnownLines(a)
    ensures TakesMapName(m, stops[k].id, stops[k + 1].id, hops[k])
  {
    var a, b := m.stations[stops[k].id], m.stations[stops[k + 1].id];
    assert IsStage(OneChange(c), Weekday, m, stops, 600, hops, k);
    hide Journey, TimedHop, OneChange, FindTransferCandidates, IsShortestPath, SharesLine, WellFormed;
    forall j | 0 <= j < k
      ensures !hops[..k][j].timed
    {
      UntimedBefore(c, m, stops, hops, j, k);
    }
    UntimedHopsTakeNoTime(600, hops[..k]);
    SharedAreShared(a, b);
    ChangeIsTimed(c, m, a, x, b, stops[k + 1].name, Weekday);
    TimedHopIsHop(OneChange(c), a, b, stops[k + 1].name, 600, Weekday, m);
  }

  /** Where a change of trains would rename a station, a schedule does on a timetable with just that change. */
  lemma SomeAnswerRenames(m: LineMapData, stops: seq<StopInput>, k: nat)
    requires WellFormed(m) && AreDistinct(stops) && AllJoined(m, stops)
    requires k + 1 < |stops| && !KeepsName(m, stops, k)
    ensures !GivesChoice(m, stops)
  {
    var c, x := ChangeExists(m, stops, k);
    var tt := OneChange(c);
    var hops := JourneyExists(tt, Weekday, m, stops, 600, |stops| - 1);
    JourneyHopsHaveStops(tt, Weekday, m, stops, 600, hops);
    TimedAtChange(c, x, m, stops, hops, k);
    var schedule := ScheduleExists(stops, 600, Weekday, hops);
    assert !NamesAgree(m, stops, hops);
    ErasingTransfersGivesTheChoiceExactly(tt, Weekday, m, stops, 600, hops, schedule);
    ParseFormatClock(600);
    hide Journey, IsScheduleOf, ParseClock, FormatClock, WellFormed, UserStops, KeepsName;
    assert IsAnswer(tt, FormatClock(600), Weekday, m, stops, hops, schedule);
  }

  /** On a built map an answer exists only if neighbouring stations are joined. */
  lemma AnswersAreJoined(lists: StationLists, tt: Timetables, departureTime: string, day: DayType, m: LineMapData,
                         stops: seq<StopInput>, hops: seq<Hop>, schedule: RouteSchedule)
    requires Built(lists, m) && AreDistinct(stops) && IsAnswer(tt, departureTime, day, m, stops, hops, schedule)
    ensures AllJoined(m, stops)
  {
    var requested := ParseClock(Some(departureTime)).value;
    forall k | 0 <= k < |stops| - 1
      ensures IsJoined(m, stops, k)
    {
      assert IsStage(tt, day, m, stops, requested, hops, k);
      ResolvedIsJoined(lists, tt, day, m, stops, k, EarliestAfter(requested, hops[..k]), hops[k]);
    }
  }

  lemma ResolvedIsJoined(lists: StationLists, tt: Timetables, day: DayType, m: LineMapData, stops: seq<StopInput>,
                         k: nat, earliest: int, hop: Hop)
    requires Built(lists, m) && AreDistinct(stops) && k + 1 < |stops|
    requires Resolves(tt, day, m, stops[k].id, stops[k + 1].id, stops[k + 1].name, earliest, hop)
    ensures IsJoined(m, stops, k)
  {
    var from, to := m.stations[stops[k].id], m.stations[stops[k + 1].id];
    hide Built, TryTransferVia, BestTransfer;
    SharedAreShared(from, to);
    BestTransferIsBest(tt, from, to, earliest, day, m);
    if SharesLine(from, to) || FindTransferCandidates(from, to, m) != [] {
      NeighbourhoodsConnect(lists, m, stops[k].id, stops[k + 1].id);
    }
  }

  /** On a built map the choice is given back, whatever the timetables and the departure, exactly if every two
      neighbouring stations share a raw line, have no transfer station, or end under the map's name; or there is never
      a schedule, because two of them are not joined by the map. */
  lemma GivesChoiceExactly(lists: StationLists, m: LineMapData, stops: seq<StopInput>)
    requires Built(lists, m) && AreDistinct(stops)
    ensures GivesChoice(m, stops) <==> (AllJoined(m, stops) ==> AllKeepNames(m, stops))
  {
    hide Built, IsAnswer, IsJoined, KeepsName, WellFormed, UserStops;
    if AllJoined(m, stops) && !AllKeepNames(m, stops) {
      var k: nat :| k < |stops| - 1 && !KeepsName(m, stops, k);
      SomeAnswerRenames(m, stops, k);
    } else {
      forall tt, departureTime, day, hops, schedule | IsAnswer(tt, departureTime, day, m, stops, hops, schedule)
        ensures AsInputs(UserStops(schedule.stops)) == stops
      {
        AnswersAreJoined(lists, tt, departureTime, day, m, stops, hops, schedule);
        KeptNamesAgree(tt, departureTime, day, m, stops, hops, schedule);
      }
    }
  }

  // ---------- A name that changes ----------

  function StationA(): Station {
    Station(StationId("a"), "A", [Line1], [1])
  }

  function StationX(): Station {
    Station(StationId("x"), "X", [Line1, Line4], [1, 3])
  }

  function StationB(): Station {
    Station(StationId("b"), "B", [Line4], [3])
  }

  function CrossMap(): LineMapData {
    var a, x, b := StationA(), StationX(), StationB();
    LineMapData(map[a.stationId := a, x.stationId := x, b.stationId := b],
                [a.stationId, x.stationId, b.stationId],
                [Edge(a.stationId, x.stationId, Line1), Edge(x.stationId, b.stationId, Line4)])
  }

  function CrossChange(): Change {
    Change(StationId("a"), StationId("x"), StationId("b"), 1, 3)
  }

  lemma CrossMapIsWellFormed()
    ensures WellFormed(CrossMap()) && CrossMap().order == [StationId("a"), StationId("x"), StationId("b")]
    ensures var a, x, b, m := StationA(), StationX(), StationB(), CrossMap();
            && a.stationId in m.stations && x.stationId in m.stations && b.stationId in m.stations
            && m.stations[a.stationId] == a && m.stations[x.stationId] == x && m.stations[b.stationId] == b
  {
  }

  lemma CrossIsServed()
    ensures Serves(CrossChange(), StationA(), StationX(), StationB()) && OnKnownLines(StationA())
    ensures SharedRawLineIds(StationA(), StationB()) == []
    ensures WellFormed(CrossMap()) && StationX() in FindTransferCandidates(StationA(), StationB(), CrossMap())
  {
    CrossMapIsWellFormed();
    var a, x, b, m := StationA(), StationX(), StationB(), CrossMap();
    assert 1 in a.rawLineIds && 1 in x.rawLineIds && 3 in x.rawLineIds && 3 in b.rawLineIds;
    hide CrossMap, WellFormed;
    assert IsTransferStation(a, b, x);
    assert m.order[1] == x.stationId;
  }

  /** A route over one change of trains, to a station chosen under another name than the map's: the schedule shows the
      map's name. */
  lemma TransferRenames() returns (stops: seq<StopInput>, hops: seq<Hop>)
    ensures WellFormed(CrossMap()) && Journey(OneChange(CrossChange()), Weekday, CrossMap(), stops, 600, hops)
    ensures |stops| == 2 && |hops| == 1 && hops[0].stops != []
    ensures forall schedule :: IsScheduleOf(stops, 600, Weekday, hops, schedule) ==>
              AsInputs(UserStops(schedule.stops)) != stops
  {
    var tt, a, x, b, m := OneChange(CrossChange()), StationA(), StationX(), StationB(), CrossMap();
    stops := [StopInput(a.stationId, "A", ""), StopInput(b.stationId, "City Hall", "")];
    assert b.name == "B";
    hide OneChange, StationA, StationX, StationB, CrossMap, CrossChange, TimedHop, WellFormed, IsScheduleOf, UserStops;
    hide OnKnownLines, SharedRawLineIds, Serves, FindTransferCandidates, IsHop;
    CrossMapIsWellFormed();
    CrossIsServed();
    ChangeIsTimed(CrossChange(), m, a, x, b, "City Hall", Weekday);
    TimedHopIsHop(tt, a, b, "City Hall", 600, Weekday, m);
    hops := [TimedHop(tt, a, b, "City Hall", 600, Weekday, m).value];
    OneStage(tt, m, stops, hops);
    JourneyHopsHaveStops(tt, Weekday, m, stops, 600, hops);
    assert TakesMapName(m, stops[0].id, stops[0 + 1].id, hops[0]);
    assert !NamesAgree(m, stops, hops);
    forall schedule | IsScheduleOf(stops, 600, Weekday, hops, schedule)
      ensures AsInputs(UserStops(schedule.stops)) != stops
    {
      ErasingTransfersGivesTheChoiceExactly(tt, Weekday, m, stops, 600, hops, schedule);
    }
  }

  lemma OneStage(tt: Timetables, m: LineMapData, stops: seq<StopInput>, hops: seq<Hop>)
    requires WellFormed(m) && |stops| == 2 && |hops| == 1
    requires Resolves(tt, Weekday, m, stops[0].id, stops[1].id, stops[1].name, 600, hops[0])
    ensures Journey(tt, Weekday, m, stops, 600, hops)
  {
    hide Resolves;
    assert hops[..0] == [];
    assert IsStage(tt, Weekday, m, stops, 600, hops, 0);
  }
}
