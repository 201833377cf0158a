/** No chain of trains over the chosen stations beats the planner's schedule (transitTimetable.ts). */
module FastestRoute {
  import opened LineMap
  import opened Trains
  import opened Hops
  import opened Itineraries
  import opened Stages
  import opened Route

  /** One way to get from one chosen station to the next: a train on a shared line, or two trains where none is
      shared. */
  datatype Way = Direct(line: int, train: Train) | Changing(itinerary: Itinerary) {
    function Arrival(): int {
      match this
      case Direct(_, train) => train.arrivalMinute
      case Changing(i) => i.second.arrivalMinute
    }
  }

  ghost predicate IsWay(tt: Timetables, from: Station, to: Station, earliest: int, day: DayType, m: LineMapData,
                        way: Way)
    requires WellFormed(m)
  {
    match way
    case Direct(line, train) =>
      SharedRawLineIds(from, to) != [] && Connects(tt, from, to, day, earliest, line, train)
    case Changing(i) => SharedRawLineIds(from, to) == [] && IsRoute(tt, from, to, earliest, day, m, i)
  }

  /** Between these stations an earliest departing train is never beaten by a later one. */
  ghost predicate EarliestWins(tt: Timetables, from: Station, to: Station, day: DayType, m: LineMapData)
    requires WellFormed(m)
  {
    if SharedRawLineIds(from, to) != [] then EarliestWinsBetween(tt, from, to, day)
    else EarliestWinsAround(tt, from, to, day, m)
  }

  /** A way that starts late enough for one minute starts late enough for an earlier one. */
  lemma WayFromEarlier(tt: Timetables, from: Station, to: Station, earlier: int, earliest: int, day: DayType,
                       m: LineMapData, way: Way)
    requires WellFormed(m) && earlier <= earliest && IsWay(tt, from, to, earliest, day, m, way)
    ensures IsWay(tt, from, to, earlier, day, m, way)
  {
    hide Rides;
  }

  /** If there is a way, the planner finds a timed hop, and it arrives no later. */
  lemma TimedHopIsFastest(tt: Timetables, from: Station, to: Station, toName: string, earliest: int, day: DayType,
                          m: LineMapData, way: Way)
    requires WellFormed(m) && OnKnownLines(from) && EarliestWins(tt, from, to, day, m)
    requires IsWay(tt, from, to, earliest, day, m, way)
    ensures var hop := TimedHop(tt, from, to, toName, earliest, day, m);
            hop.Some? && hop.value.timed && hop.value.arrivalMinute <= way.Arrival()
  {
    hide Rides, IsHop, BestAttempt, IsRoute, EarliestWinsBetween, EarliestWinsAround, BestTransfer;
    TimedHopIsHop(tt, from, to, toName, earliest, day, m);
    if SharedRawLineIds(from, to) != [] {
      BestBetweenBeats(tt, from, to, earliest, day, way.line, way.train);
    } else {
      TimedTransferIsFastest(tt, from, to, toName, earliest, day, m);
      assert IsRoute(tt, from, to, earliest, day, m, way.itinerary);
    }
  }

  /** A chain of ways over the chosen stations, each starting no earlier than the one before it arrives. */
  ghost predicate IsChain(tt: Timetables, day: DayType, m: LineMapData, stops: seq<StopInput>, requested: int,
                          ways: seq<Way>)
    requires WellFormed(m)
  {
    && |ways| < |stops| && (forall k :: 0 <= k <= |ways| ==> stops[k].id in m.stations)
    && forall k :: 0 <= k < |ways| ==> IsLink(tt, day, m, stops, requested, ways, k)
  }

  ghost predicate IsLink(tt: Timetables, day: DayType, m: LineMapData, stops: seq<StopInput>, requested: int,
                         ways: seq<Way>, k: nat)
    requires WellFormed(m) && k < |ways| < |stops| && stops[k].id in m.stations && stops[k + 1].id in m.stations
  {
    IsWay(tt, m.stations[stops[k].id], m.stations[stops[k + 1].id],
          if k == 0 then requested else ways[k - 1].Arrival(), day, m, ways[k])
  }

  /** Where no train is overtaken between neighbouring stations of the route, and any chain of trains over its first
      stations exists, the planner's hops are all timed and reach every station no later than that chain. */
  lemma {:induction false} RouteIsFastest(tt: Timetables, day: DayType, m: LineMapData, stops: seq<StopInput>,
                                          requested: int, hops: seq<Hop>, ways: seq<Way>, n: nat)
    requires WellFormed(m) && Journey(tt, day, m, stops, requested, hops)
    requires IsChain(tt, day, m, stops, requested, ways) && |ways| == |hops| && n <= |hops|
    requires forall k :: 0 <= k < |hops| ==>
               EarliestWins(tt, m.stations[stops[k].id], m.stations[stops[k + 1].id], day, m)
    ensures forall k :: 0 <= k < n ==> hops[k].timed && hops[k].arrivalMinute <= ways[k].Arrival()
  {
    hide EarliestWins, TimedHop, IsWay;
    if n > 0 {
      var k := n - 1;
      RouteIsFastest(tt, day, m, stops, requested, hops, ways, k);
      var from, to := m.stations[stops[k].id], m.stations[stops[k + 1].id];
      var earliest := EarliestAfter(requested, hops[..k]);
      assert IsStage(tt, day, m, stops, requested, hops, k) && IsLink(tt, day, m, stops, requested, ways, k);
      if k > 0 {
        assert hops[..k][k - 1] == hops[k - 1];
      }
      WayFromEarlier(tt, from, to, earliest, if k == 0 then requested else ways[k - 1].Arrival(), day, m, ways[k]);
      TimedHopIsFastest(tt, from, to, stops[k + 1].name, earliest, day, m, ways[k]);
    }
  }

  /** So a schedule is fully timed whenever the trains allow one to be, and its last station is reached first. */
  lemma ScheduleIsFastest(tt: Timetables, day: DayType, m: LineMapData, stops: seq<StopInput>, requested: int,
                          hops: seq<Hop>, ways: seq<Way>, schedule: RouteSchedule)
    requires WellFormed(m) && Journey(tt, day, m, stops, requested, hops) && hops != []
    requires forall k :: 0 <= k < |hops| ==> hops[k].stops != []
    requires IsScheduleOf(stops, requested, day, hops, schedule)
    requires IsChain(tt, day, m, stops, requested, ways) && |ways| == |hops|
    requires forall k :: 0 <= k < |hops| ==>
               EarliestWins(tt, m.stations[stops[k].id], m.stations[stops[k + 1].id], day, m)
    ensures schedule.isFullyTimed && schedule.legs != []
    ensures schedule.legs[|schedule.legs| - 1].arrivalMinute.Some?
    ensures schedule.legs[|schedule.legs| - 1].arrivalMinute.value <= ways[|ways| - 1].Arrival()
  {
    hide EarliestWins, IsChain, IsStage, Resolves;
    RouteIsFastest(tt, day, m, stops, requested, hops, ways, |hops|);
    var k := |hops| - 1;
    StageIsHop(tt, day, m, stops, requested, hops, k);
    hide Journey;
    assert AllLegs(hops) == AllLegs(hops[..k]) + hops[k].legs;
  }
}
