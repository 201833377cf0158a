/** What every returned schedule shows: rides of the timetable and edges of the map, the stations at which they meet,
    and the first departure (transitTimetable.ts). */
module ShownSchedule {
  import opened Wrappers
  import opened Clock
  import opened LineMap
  import opened Trains
  import opened Hops
  import opened Stages
  import opened Route
  import opened RouteFacts

  // ---------- Stops where legs end ----------

  function Shifted(at: seq<nat>, n: nat): (shifted: seq<nat>)
    ensures |shifted| == |at| && forall k :: 0 <= k < |at| ==> shifted[k] == at[k] + n
  {
    seq(|at|, k requires 0 <= k < |at| => at[k] + n)
  }

  lemma StopEndsEarlierLeg(m: LineMapData, stop: Stop, p: seq<Leg>, q: seq<Leg>, j: nat)
    requires j < |p| && StopEndsLeg(m, stop, p, j)
    ensures StopEndsLeg(m, stop, p + q, j)
  {
    hide IsChangeAt;
  }

  lemma StopEndsLaterLeg(m: LineMapData, stop: Stop, p: seq<Leg>, q: seq<Leg>, j: nat)
    requires j < |q| && StopEndsLeg(m, stop, q, j)
    ensures StopEndsLeg(m, stop, p + q, |p| + j)
  {
    hide IsChangeAt;
  }

  lemma RunsOnJoined(p: seq<Leg>, q: seq<Leg>, j: nat)
    ensures j < |p| && RunsOn(p, j) ==> RunsOn(p + q, j)
    ensures |p| <= j < |p| + |q| && RunsOn(q, j - |p|) ==> RunsOn(p + q, j)
  {
    hide IsUntimedLeg;
    if |p| <= j < |p| + |q| && RunsOn(q, j - |p|) {
      assert (p + q)[j] == q[j - |p|] && (p + q)[j + 1] == q[j + 1 - |p|];
    }
  }

  lemma StopsEndLegsJoin(m: LineMapData, s: seq<Stop>, p: seq<Leg>, at: seq<nat>, t: seq<Stop>, q: seq<Leg>,
                         more: seq<nat>)
    requires StopsEndLegs(m, s, p, at) && StopsEndLegs(m, t, q, more)
    ensures StopsEndLegs(m, s + t, p + q, at + Shifted(more, |p|))
  {
    hide StopEndsLeg, RunsOn;
    var all := at + Shifted(more, |p|);
    forall k | 0 <= k < |all|
      ensures all[k] < |p + q| && StopEndsLeg(m, (s + t)[k], p + q, all[k])
    {
      if k < |at| {
        StopEndsEarlierLeg(m, s[k], p, q, at[k]);
      } else {
        StopEndsLaterLeg(m, t[k - |at|], p, q, more[k - |at|]);
      }
    }
    forall j: nat | j < |p + q| && j !in all
      ensures RunsOn(p + q, j)
    {
      RunsOnJoined(p, q, j);
      if j >= |p| {
        NotShifted(more, |p|, j - |p|);
      }
    }
  }

  lemma NotShifted(at: seq<nat>, n: nat, j: nat)
    ensures j in at ==> j + n in Shifted(at, n)
  {
    if j in at {
      var k :| 0 <= k < |at| && at[k] == j;
      assert Shifted(at, n)[k] == j + n;
    }
  }

  /** The first stop is where the journey starts: no leg ends there. */
  lemma ShownStopsJoin(m: LineMapData, all: seq<Stop>, p: seq<Leg>, t: seq<Stop>, q: seq<Leg>)
    requires all != [] && ShowsStops(m, all[1..], p) && ShowsStops(m, t, q)
    ensures ShowsStops(m, (all + t)[1..], p + q)
  {
    hide StopsEndLegs;
    var at :| StopsEndLegs(m, all[1..], p, at);
    var more :| StopsEndLegs(m, t, q, more);
    StopsEndLegsJoin(m, all[1..], p, at, t, q, more);
    assert (all + t)[1..] == all[1..] + t;
  }

  /** A chosen station's stop may carry any line id. */
  lemma HopStopsAreShown(m: LineMapData, hop: Hop, lineId: string)
    requires ShowsStops(m, hop.stops, hop.legs) && hop.stops != [] && !hop.stops[|hop.stops| - 1].isTransfer
    ensures ShowsStops(m, HopStops(hop, lineId), hop.legs)
  {
    hide IsChangeAt, RunsOn;
    var at :| StopsEndLegs(m, hop.stops, hop.legs, at);
    assert StopsEndLegs(m, HopStops(hop, lineId), hop.legs, at);
  }

  lemma StageIsShown(tt: Timetables, day: DayType, m: LineMapData, stops: seq<StopInput>, requested: int,
                     hops: seq<Hop>, k: nat)
    requires WellFormed(m) && Journey(tt, day, m, stops, requested, hops) && k < |hops|
    ensures LegsAreReal(tt, day, m, hops[k].legs) && ShowsStops(m, hops[k].stops, hops[k].legs)
    ensures hops[k].stops != [] && !hops[k].stops[|hops[k].stops| - 1].isTransfer
  {
    StageIsHop(tt, day, m, stops, requested, hops, k);
    assert IsStage(tt, day, m, stops, requested, hops, k);
    hide Resolves, LegsAreReal, ShowsStops, UnbrokenChain, RunsInTime;
    ResolvedHopShows(tt, day, m, stops[k].id, stops[k + 1].id, stops[k + 1].name, EarliestAfter(requested, hops[..k]),
                     hops[k]);
  }

  lemma {:induction false} JourneyIsShown(tt: Timetables, day: DayType, m: LineMapData, stops: seq<StopInput>,
                                          requested: int, hops: seq<Hop>)
    requires WellFormed(m) && Journey(tt, day, m, stops, requested, hops)
    requires forall k :: 0 <= k < |hops| ==> hops[k].stops != []
    ensures LegsAreReal(tt, day, m, AllLegs(hops))
    ensures |hops| < |stops| && ShowsStops(m, AllStops(stops, requested, hops)[1..], AllLegs(hops))
  {
    JourneyIsShorter(tt, day, m, stops, requested, hops);
    if hops == [] {
      NothingIsShown(m);
      assert AllStops(stops, requested, hops)[1..] == [];
    } else {
      hide Journey, ShowsStops, HopStops, FormatClock, LegsAreReal, WellFormed;
      var k := |hops| - 1;
      JourneyPrefix(tt, day, m, stops, requested, hops);
      JourneyIsShown(tt, day, m, stops, requested, hops[..k]);
      StageIsShown(tt, day, m, stops, requested, hops, k);
      HopStopsAreShown(m, hops[k], stops[k + 1].lineId);
      LegsAreRealJoin(tt, day, m, AllLegs(hops[..k]), hops[k].legs);
      ShownStopsJoin(m, AllStops(stops, requested, hops[..k]), AllLegs(hops[..k]),
                     HopStops(hops[k], stops[k + 1].lineId), hops[k].legs);
    }
  }

  lemma JourneyIsShorter(tt: Timetables, day: DayType, m: LineMapData, stops: seq<StopInput>, requested: int,
                         hops: seq<Hop>)
    requires WellFormed(m) && Journey(tt, day, m, stops, requested, hops)
    ensures |hops| < |stops|
  {
  }

  lemma LegsAreRealJoin(tt: Timetables, day: DayType, m: LineMapData, p: seq<Leg>, q: seq<Leg>)
    requires LegsAreReal(tt, day, m, p) && LegsAreReal(tt, day, m, q)
    ensures LegsAreReal(tt, day, m, p + q)
  {
    hide HasTrain, FollowsMap;
  }

  lemma NothingIsShown(m: LineMapData)
    ensures ShowsStops(m, [], [])
  {
    var at: seq<nat> := [];
    assert StopsEndLegs(m, [], [], at);
  }

  // ---------- Fully timed schedules ----------

  /** One stop per leg: stop k is where leg k ends. */
  ghost predicate StopPerLeg(m: LineMapData, stops: seq<Stop>, legs: seq<Leg>) {
    |stops| == |legs| && forall k :: 0 <= k < |legs| ==> StopEndsLeg(m, stops[k], legs, k)
  }

  lemma {:induction false} NoGaps(at: seq<nat>, n: nat, k: nat)
    requires forall i, j :: 0 <= i < j < |at| ==> at[i] < at[j]
    requires forall j: nat :: j < n ==> j in at
    requires forall i :: 0 <= i < |at| ==> at[i] < n
    requires k < n || k < |at|
    ensures k < |at| && k < n && at[k] == k
    decreases k
  {
    if k > 0 {
      NoGaps(at, n, k - 1);
      assert k < |at| ==> at[k - 1] < at[k];
    }
    assert k < |at| ==> at[k] < n;
    if k < n {
      assert k in at;
      var i :| 0 <= i < |at| && at[i] == k;
      assert i > k ==> at[k] < at[i];
    }
  }

  lemma TimedLegsAllEnd(m: LineMapData, stops: seq<Stop>, legs: seq<Leg>)
    requires AllLegsTimed(legs) && ShowsStops(m, stops, legs)
    ensures StopPerLeg(m, stops, legs)
  {
    hide StopEndsLeg, FormatClock;
    var at :| StopsEndLegs(m, stops, legs, at);
    forall j: nat | j < |legs|
      ensures j in at
    {
      assert IsTimedLeg(legs[j]) && !RunsOn(legs, j);
    }
    if |at| != |legs| {
      NoGaps(at, |legs|, if |at| < |legs| then |at| else |legs|);
    }
    forall k | 0 <= k < |legs|
      ensures StopEndsLeg(m, stops[k], legs, k)
    {
      NoGaps(at, |legs|, k);
    }
  }

  // ---------- The first departure ----------

  /** The minute at which the first leg with a train departs, the requested one where no leg has a train. */
  ghost predicate LeavesFirst(legs: seq<Leg>, requested: int, departure: int) {
    && ((forall i :: 0 <= i < |legs| ==> legs[i].departureMinute.None?) ==> departure == requested)
    && (forall i :: 0 <= i < |legs| && IsFirstTimed(legs, i) ==> legs[i].departureMinute == Some(departure))
  }

  ghost predicate IsFirstTimed(legs: seq<Leg>, i: nat)
    requires i < |legs|
  {
    legs[i].departureMinute.Some? && forall j :: 0 <= j < i ==> legs[j].departureMinute.None?
  }

  lemma {:induction false} FirstDepartureIs(legs: seq<Leg>, i: nat)
    ensures (forall k :: 0 <= k < |legs| ==> legs[k].departureMinute.None?) ==> FirstDeparture(legs).None?
    ensures i < |legs| && IsFirstTimed(legs, i) ==> FirstDeparture(legs) == legs[i].departureMinute
  {
    if legs != [] && legs[0].departureMinute.None? {
      FirstDepartureIs(legs[1..], if i > 0 then i - 1 else 0);
    }
  }

  /** The schedule starts at the first chosen station, at the first departure. */
  ghost predicate StartsAt(first: StopInput, requested: int, schedule: RouteSchedule, departure: int) {
    && LeavesFirst(schedule.legs, requested, departure)
    && schedule.departureTime == FormatClock(departure)
    && schedule.stops != []
    && schedule.stops[0] == Stop(first.id, first.name, first.lineId, Some(FormatClock(departure)), Some(departure),
                                 false)
  }

  lemma {:induction false} FirstStopIs(stops: seq<StopInput>, requested: int, hops: seq<Hop>)
    requires |hops| < |stops| && forall k :: 0 <= k < |hops| ==> hops[k].stops != []
    ensures AllStops(stops, requested, hops)[0]
         == Stop(stops[0].id, stops[0].name, stops[0].lineId, Some(FormatClock(requested)), Some(requested), false)
  {
    hide FormatClock, HopStops;
    if hops != [] {
      FirstStopIs(stops, requested, hops[..|hops| - 1]);
    }
  }

  lemma ScheduleStarts(stops: seq<StopInput>, requested: int, day: DayType, hops: seq<Hop>, schedule: RouteSchedule)
    returns (departure: int)
    requires |hops| < |stops| && forall k :: 0 <= k < |hops| ==> hops[k].stops != []
    requires IsScheduleOf(stops, requested, day, hops, schedule)
    ensures StartsAt(stops[0], requested, schedule, departure)
  {
    hide FormatClock, AllStops, AllLegs, FirstDeparture, IsFirstTimed;
    var first := FirstDeparture(schedule.legs);
    departure := if first.Some? then first.value else requested;
    FirstStopIs(stops, requested, hops);
    FirstDepartureIs(schedule.legs, 0);
    forall i | 0 <= i < |schedule.legs| && IsFirstTimed(schedule.legs, i)
      ensures schedule.legs[i].departureMinute == Some(departure)
    {
      FirstDepartureIs(schedule.legs, i);
      FirstTimedIsTimed(schedule.legs, i);
    }
  }

  lemma FirstTimedIsTimed(legs: seq<Leg>, i: nat)
    requires i < |legs| && IsFirstTimed(legs, i)
    ensures legs[i].departureMinute.Some?
  {
  }

  // ---------- The whole schedule ----------

  /** Every leg of a schedule is a ride of the timetable or follows an edge of the map. Its first stop is the first
      chosen station at the first departure; its other stops are exactly where legs meet, after every train and at
      every change of line, so that a fully timed schedule has one stop for every leg. */
  lemma ScheduleIsShown(tt: Timetables, day: DayType, m: LineMapData, stops: seq<StopInput>, requested: int,
                        hops: seq<Hop>, schedule: RouteSchedule)
    requires WellFormed(m) && Journey(tt, day, m, stops, requested, hops)
    requires forall k :: 0 <= k < |hops| ==> hops[k].stops != []
    requires IsScheduleOf(stops, requested, day, hops, schedule)
    ensures LegsAreReal(tt, day, m, schedule.legs)
    ensures |hops| < |stops| && exists departure :: StartsAt(stops[0], requested, schedule, departure)
    ensures ShowsStops(m, schedule.stops[1..], schedule.legs)
    ensures schedule.isFullyTimed ==> StopPerLeg(m, schedule.stops[1..], schedule.legs)
  {
    hide Journey, AllStops, AllLegs, FirstDeparture, FormatClock, LegsAreReal, ShowsStops, StopPerLeg;
    hide StartsAt;
    JourneyIsShown(tt, day, m, stops, requested, hops);
    var departure := ScheduleStarts(stops, requested, day, hops, schedule);
    var all := AllStops(stops, requested, hops);
    assert schedule.stops[1..] == all[1..];
    FullyTimedMeansAllLegsTimed(tt, day, m, stops, requested, hops);
    if schedule.isFullyTimed {
      TimedLegsAllEnd(m, schedule.stops[1..], schedule.legs);
    }
  }
}
