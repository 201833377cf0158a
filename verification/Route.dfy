/** Stitching the stages of a route into one schedule, and what the schedule guarantees (transitTimetable.ts). */
module Route {
  import opened Wrappers
  import opened Clock
  import opened LineMap
  import opened Trains
  import opened Hops
  import opened Stages

  datatype StopInput = StopInput(id: StationId, name: string, lineId: string)

  datatype RouteSchedule = RouteSchedule(stops: seq<Stop>, legs: seq<Leg>, departureTime: string,
                                         arrivalTime: Option<string>, durationMinutes: Option<int>,
                                         day: DayType, isFullyTimed: bool)

  /** The minute from which the hop after these is searched: an untimed hop does not move it. */
  function EarliestAfter(requested: int, hops: seq<Hop>): int {
    if hops == [] then requested
    else if hops[|hops| - 1].timed then hops[|hops| - 1].arrivalMinute
    else EarliestAfter(requested, hops[..|hops| - 1])
  }

  function AllLegs(hops: seq<Hop>): seq<Leg> {
    if hops == [] then [] else AllLegs(hops[..|hops| - 1]) + hops[|hops| - 1].legs
  }

  predicate AllTimed(hops: seq<Hop>) {
    forall k :: 0 <= k < |hops| ==> hops[k].timed
  }

  /** The first station at the requested minute, then the stops of each hop, the last with the user's line id. */
  function AllStops(stops: seq<StopInput>, requested: int, hops: seq<Hop>): (all: seq<Stop>)
    requires |hops| < |stops| && forall k :: 0 <= k < |hops| ==> hops[k].stops != []
    ensures all != []
  {
    if hops == [] then [Stop(stops[0].id, stops[0].name, stops[0].lineId, Some(FormatClock(requested)),
                             Some(requested), false)]
    else
      var k := |hops| - 1;
      AllStops(stops, requested, hops[..k]) + HopStops(hops[k], stops[k + 1].lineId)
  }

  function HopStops(hop: Hop, lineId: string): seq<Stop>
    requires hop.stops != []
  {
    hop.stops[..|hop.stops| - 1] + [hop.stops[|hop.stops| - 1].(lineId := lineId)]
  }

  /** The running values of the planner after these hops. */
  ghost predicate IsStitched(stops: seq<StopInput>, requested: int, hops: seq<Hop>, legs: seq<Leg>,
                             scheduledStops: seq<Stop>, earliestMinute: int, fullyTimed: bool) {
    && |hops| < |stops| && (forall k :: 0 <= k < |hops| ==> hops[k].stops != [])
    && legs == AllLegs(hops) && scheduledStops == AllStops(stops, requested, hops)
    && earliestMinute == EarliestAfter(requested, hops) && fullyTimed == AllTimed(hops)
  }

  lemma StitchNext(stops: seq<StopInput>, requested: int, hops: seq<Hop>, legs: seq<Leg>, scheduledStops: seq<Stop>,
                   earliestMinute: int, fullyTimed: bool, hop: Hop)
    requires IsStitched(stops, requested, hops, legs, scheduledStops, earliestMinute, fullyTimed)
    requires |hops| + 1 < |stops| && hop.stops != []
    ensures IsStitched(stops, requested, hops + [hop], legs + hop.legs,
                       scheduledStops + HopStops(hop, stops[|hops| + 1].lineId),
                       if hop.timed then hop.arrivalMinute else earliestMinute, fullyTimed && hop.timed)
  {
    hide HopStops, FormatClock;
    assert (hops + [hop])[..|hops|] == hops && (hops + [hop])[|hops|] == hop;
  }

  ghost predicate IsStage(tt: Timetables, day: DayType, m: LineMapData, stops: seq<StopInput>, requested: int,
                          hops: seq<Hop>, k: nat)
    requires WellFormed(m) && k < |hops| < |stops|
  {
    Resolves(tt, day, m, stops[k].id, stops[k + 1].id, stops[k + 1].name, EarliestAfter(requested, hops[..k]), hops[k])
  }

  /** Hop k leads from stop k to stop k + 1 and is searched from where the timed hops before it end. */
  ghost predicate Journey(tt: Timetables, day: DayType, m: LineMapData, stops: seq<StopInput>, requested: int,
                          hops: seq<Hop>)
    requires WellFormed(m)
  {
    && |hops| < |stops|
    && forall k :: 0 <= k < |hops| ==> IsStage(tt, day, m, stops, requested, hops, k)
  }

  function FirstDeparture(legs: seq<Leg>): Option<int> {
    if legs == [] then None
    else if legs[0].departureMinute.Some? then legs[0].departureMinute
    else FirstDeparture(legs[1..])
  }

  /** The schedule shows the hops of the journey from the first departure of a timed leg on. */
  ghost predicate IsScheduleOf(stops: seq<StopInput>, requested: int, day: DayType, hops: seq<Hop>,
                               schedule: RouteSchedule)
    requires |hops| < |stops| && forall k :: 0 <= k < |hops| ==> hops[k].stops != []
  {
    var first := FirstDeparture(AllLegs(hops));
    var departure := if first.Some? then first.value else requested;
    var all := AllStops(stops, requested, hops);
    && all != []
    && schedule.legs == AllLegs(hops)
    && schedule.stops == all[0 := all[0].(time := Some(FormatClock(departure)), minute := Some(departure))]
    && schedule.departureTime == FormatClock(departure)
    && schedule.day == day
    && schedule.isFullyTimed == AllTimed(hops)
    && (if AllTimed(hops) && all[|all| - 1].minute.Some? then
          && schedule.arrivalTime == Some(FormatClock(all[|all| - 1].minute.value))
          && schedule.durationMinutes == Some(all[|all| - 1].minute.value - departure)
        else schedule.arrivalTime.None? && schedule.durationMinutes.None?)
  }

  lemma StageIsHop(tt: Timetables, day: DayType, m: LineMapData, stops: seq<StopInput>, requested: int,
                   hops: seq<Hop>, k: nat)
    requires WellFormed(m) && Journey(tt, day, m, stops, requested, hops) && k < |hops|
    ensures |hops| < |stops|
    ensures IsHop(hops[k], stops[k].id, stops[k + 1].id, EarliestAfter(requested, hops[..k]))
  {
    hide Resolves, IsHop;
    assert IsStage(tt, day, m, stops, requested, hops, k);
    ResolvedHopIsHop(tt, day, m, stops[k].id, stops[k + 1].id, stops[k + 1].name, EarliestAfter(requested, hops[..k]),
                     hops[k]);
  }

  lemma JourneyHopsHaveStops(tt: Timetables, day: DayType, m: LineMapData, stops: seq<StopInput>, requested: int,
                             hops: seq<Hop>)
    requires WellFormed(m) && Journey(tt, day, m, stops, requested, hops)
    ensures forall k :: 0 <= k < |hops| ==> hops[k].stops != []
  {
    hide Journey;
    forall k | 0 <= k < |hops|
      ensures hops[k].stops != []
    {
      StageIsHop(tt, day, m, stops, requested, hops, k);
    }
  }

  lemma JourneyGrows(tt: Timetables, day: DayType, m: LineMapData, stops: seq<StopInput>, requested: int,
                     hops: seq<Hop>, hop: Hop)
    requires WellFormed(m) && Journey(tt, day, m, stops, requested, hops) && |hops| + 1 < |stops|
    requires Resolves(tt, day, m, stops[|hops|].id, stops[|hops| + 1].id, stops[|hops| + 1].name,
                      EarliestAfter(requested, hops), hop)
    ensures Journey(tt, day, m, stops, requested, hops + [hop])
  {
    hide Resolves;
    var longer := hops + [hop];
    forall k | 0 <= k < |longer|
      ensures IsStage(tt, day, m, stops, requested, longer, k)
    {
      if k < |hops| {
        assert IsStage(tt, day, m, stops, requested, hops, k);
        assert longer[..k] == hops[..k];
      } else {
        assert longer[..k] == hops;
      }
    }
  }

  lemma StitchedAt(stops: seq<StopInput>, requested: int, hops: seq<Hop>, legs: seq<Leg>, scheduledStops: seq<Stop>,
                   earliestMinute: int, fullyTimed: bool)
    requires IsStitched(stops, requested, hops, legs, scheduledStops, earliestMinute, fullyTimed)
    ensures |hops| < |stops| && forall k :: 0 <= k < |hops| ==> hops[k].stops != []
    ensures legs == AllLegs(hops) && scheduledStops == AllStops(stops, requested, hops) && scheduledStops != []
    ensures earliestMinute == EarliestAfter(requested, hops) && fullyTimed == AllTimed(hops)
  {
    hide AllStops, AllLegs, EarliestAfter;
  }

  lemma SchedulesStitched(stops: seq<StopInput>, requested: int, day: DayType, hops: seq<Hop>, schedule: RouteSchedule)
    requires |hops| < |stops| && forall k :: 0 <= k < |hops| ==> hops[k].stops != []
    requires var all, first := AllStops(stops, requested, hops), FirstDeparture(AllLegs(hops));
      var departure := if first.Some? then first.value else requested;
      var arrival := if AllTimed(hops) then all[|all| - 1].minute else None;
      schedule == RouteSchedule(all[0 := all[0].(time := Some(FormatClock(departure)), minute := Some(departure))],
                                AllLegs(hops), FormatClock(departure),
                                if arrival.Some? then Some(FormatClock(arrival.value)) else None,
                                if arrival.Some? then Some(arrival.value - departure) else None, day, AllTimed(hops))
    ensures IsScheduleOf(stops, requested, day, hops, schedule)
  {
    hide AllStops, AllLegs, FirstDeparture, FormatClock, AllTimed;
  }

  /** The planner. `hops` are the resolved stages, all of them on success, those before the failing one otherwise. */
  method CalculateSubwayRouteSchedule(tt: Timetables, stops: seq<StopInput>, departureTime: string, day: DayType,
                                      m: LineMapData)
    returns (r: Result<RouteSchedule, RouteError>, ghost hops: seq<Hop>)
    requires WellFormed(m)
    ensures r == Err(TooFewStops) <==> |stops| < 2
    ensures r == Err(BadDepartureTime) <==> |stops| >= 2 && ParseClock(Some(departureTime)).None?
    ensures |stops| >= 2 && ParseClock(Some(departureTime)).Some? ==>
      var requested := ParseClock(Some(departureTime)).value;
      && Journey(tt, day, m, stops, requested, hops)
      && (forall k :: 0 <= k < |hops| ==> hops[k].stops != [])
      && (r.Ok? ==> |hops| == |stops| - 1 && IsScheduleOf(stops, requested, day, hops, r.value))
      && (r.Err? ==> |hops| < |stops| - 1)
      && (r == Err(UnknownStation) ==> stops[|hops|].id !in m.stations || stops[|hops| + 1].id !in m.stations)
      && (r == Err(NoRoute) ==> HasNoHop(tt, stops[|hops|].id, stops[|hops| + 1].id, stops[|hops| + 1].name,
                                         EarliestAfter(requested, hops), day, m))
  {
    hide Resolves, HasNoHop, FormatClock, ParseClock, WellFormed, HopStops;
    hops := [];
    if |stops| < 2 {
      return Err(TooFewStops), hops;
    }
    var departureMinute := ParseClock(Some(departureTime));
    if departureMinute.None? {
      return Err(BadDepartureTime), hops;
    }
    var requested := departureMinute.value;
    var legs: seq<Leg> := [];
    var scheduledStops := [Stop(stops[0].id, stops[0].name, stops[0].lineId, Some(FormatClock(requested)),
                                Some(requested), false)];
    var earliestMinute := requested;
    var fullyTimed := true;
    assert IsStitched(stops, requested, hops, legs, scheduledStops, earliestMinute, fullyTimed);
    hide WellFormed, HopStops, IsStitched, Journey, IsScheduleOf;
    for index := 0 to |stops| - 1
      invariant |hops| == index && Journey(tt, day, m, stops, requested, hops)
      invariant IsStitched(stops, requested, hops, legs, scheduledStops, earliestMinute, fullyTimed)
    {
      var from, to := stops[index], stops[index + 1];
      var resolved := ResolveHop(tt, from.id, to.id, to.name, earliestMinute, day, m);
      StitchedAt(stops, requested, hops, legs, scheduledStops, earliestMinute, fullyTimed);
      if resolved.Err? {
        return Err(resolved.error), hops;
      }
      var hop := resolved.value;
      JourneyGrows(tt, day, m, stops, requested, hops, hop);
      JourneyHopsHaveStops(tt, day, m, stops, requested, hops + [hop]);
      assert (hops + [hop])[index].stops != [];
      StitchNext(stops, requested, hops, legs, scheduledStops, earliestMinute, fullyTimed, hop);
      if !hop.timed {
        fullyTimed := false;
      }
      legs := legs + hop.legs;
      scheduledStops := scheduledStops + HopStops(hop, to.lineId);
      if hop.timed {
        earliestMinute := hop.arrivalMinute;
      }
      hops := hops + [hop];
    }
    StitchedAt(stops, requested, hops, legs, scheduledStops, earliestMinute, fullyTimed);
    var first := FirstDeparture(legs);
    var departure := if first.Some? then first.value else requested;
    var lastMinute := scheduledStops[|scheduledStops| - 1].minute;
    scheduledStops := scheduledStops[0 := scheduledStops[0].(time := Some(FormatClock(departure)),
                                                             minute := Some(departure))];
    var arrival := if fullyTimed then lastMinute else None;
    var schedule := RouteSchedule(scheduledStops, legs, FormatClock(departure),
                                  if arrival.Some? then Some(FormatClock(arrival.value)) else None,
                                  if arrival.Some? then Some(arrival.value - departure) else None,
                                  day, fullyTimed);
    SchedulesStitched(stops, requested, day, hops, schedule);
    return Ok(schedule), hops;
  }
}
