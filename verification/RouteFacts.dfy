/** What holds of every schedule the planner returns (transitTimetable.ts), and on maps that subwayLineMap.ts builds. */
module RouteFacts {
  import opened Wrappers
  import opened Clock
  import opened LineMap
  import opened ShortestPath
  import opened MapRoutes
  import opened Trains
  import opened Hops
  import opened Itineraries
  import opened Stages
  import opened Route

  // ---------- One unbroken chain ----------

  lemma ChainsJoin(p: seq<Leg>, q: seq<Leg>, a: StationId, b: StationId, c: StationId)
    requires UnbrokenChain(p, a, b) && UnbrokenChain(q, b, c)
    ensures UnbrokenChain(p + q, a, c)
  {
    var legs := p + q;
    forall i | 0 <= i < |legs| - 1
      ensures legs[i].toStationId == legs[i + 1].fromStationId
    {
      if i >= |p| {
        assert legs[i] == q[i - |p|] && legs[i + 1] == q[i + 1 - |p|];
      }
    }
  }

  lemma JourneyPrefix(tt: Timetables, day: DayType, m: LineMapData, stops: seq<StopInput>, requested: int,
                      hops: seq<Hop>)
    requires WellFormed(m) && Journey(tt, day, m, stops, requested, hops) && hops != []
    ensures Journey(tt, day, m, stops, requested, hops[..|hops| - 1])
  {
    hide Resolves;
    var init := hops[..|hops| - 1];
    forall k | 0 <= k < |init|
      ensures IsStage(tt, day, m, stops, requested, init, k)
    {
      assert IsStage(tt, day, m, stops, requested, hops, k);
      assert init[..k] == hops[..k];
    }
  }

  /** The legs lead from the first chosen station to the last without a gap. */
  lemma {:induction false} RouteIsUnbroken(tt: Timetables, day: DayType, m: LineMapData, stops: seq<StopInput>,
                                           requested: int, hops: seq<Hop>)
    requires WellFormed(m) && Journey(tt, day, m, stops, requested, hops) && hops != []
    ensures UnbrokenChain(AllLegs(hops), stops[0].id, stops[|hops|].id)
  {
    hide Journey, UnbrokenChain, EndsAt, RunsInTime;
    var k := |hops| - 1;
    StageIsHop(tt, day, m, stops, requested, hops, k);
    if k > 0 {
      JourneyPrefix(tt, day, m, stops, requested, hops);
      RouteIsUnbroken(tt, day, m, stops, requested, hops[..k]);
      ChainsJoin(AllLegs(hops[..k]), hops[k].legs, stops[0].id, stops[k].id, stops[k + 1].id);
    } else {
      assert hops[..0] == [];
      assert [] + hops[0].legs == hops[0].legs;
    }
  }

  // ---------- Time never runs backwards ----------

  predicate NotAfter(earlier: Leg, later: Leg) {
    IsTimedLeg(earlier) && IsTimedLeg(later) ==> earlier.arrivalMinute.value <= later.departureMinute.value
  }

  predicate IsWithin(leg: Leg, requested: int, latest: int) {
    IsTimedLeg(leg) && requested <= leg.departureMinute.value && leg.arrivalMinute.value <= latest
  }

  /** All timed legs lie between the two minutes, each departing no earlier than those before it arrive. */
  ghost predicate InTime(legs: seq<Leg>, requested: int, latest: int) {
    && requested <= latest
    && (forall i :: 0 <= i < |legs| ==> IsUntimedLeg(legs[i]) || IsWithin(legs[i], requested, latest))
    && (forall i, j :: 0 <= i < j < |legs| ==> NotAfter(legs[i], legs[j]))
  }

  lemma {:induction false} HopLegsInOrder(hop: Hop, earliest: int, i: nat, j: nat)
    requires RunsInTime(hop, earliest) && i <= j < |hop.legs|
    ensures hop.legs[i].arrivalMinute.value <= hop.legs[j].arrivalMinute.value
    ensures i < j ==> NotAfter(hop.legs[i], hop.legs[j])
    ensures earliest <= hop.legs[i].departureMinute.value
    decreases j
  {
    hide FormatClock;
    if i < j {
      HopLegsInOrder(hop, earliest, i, j - 1);
      assert IsTimedLeg(hop.legs[j]) &&
             hop.legs[j].departureMinute.value >= hop.legs[j - 1].arrivalMinute.value + TRANSFER_MINUTES;
    } else if i > 0 {
      HopLegsInOrder(hop, earliest, i - 1, i - 1);
      assert IsTimedLeg(hop.legs[i - 1]);
    }
  }

  lemma InTimeAfterHop(legs: seq<Leg>, requested: int, latest: int, hop: Hop)
    requires InTime(legs, requested, latest) && RunsInTime(hop, latest)
    ensures InTime(legs + hop.legs, requested, hop.arrivalMinute)
  {
    hide FormatClock;
    forall i, j | 0 <= i <= j < |hop.legs|
      ensures hop.legs[i].arrivalMinute.value <= hop.legs[j].arrivalMinute.value
      ensures i < j ==> NotAfter(hop.legs[i], hop.legs[j])
      ensures latest <= hop.legs[i].departureMinute.value
    {
      HopLegsInOrder(hop, latest, i, j);
    }
    assert hop.legs[|hop.legs| - 1].arrivalMinute.value == hop.arrivalMinute;
    assert IsTimedLeg(hop.legs[0]);
  }

  /** Every leg of the schedule is wholly timed or wholly untimed; the timed ones depart from the requested minute on
      and none departs before an earlier one arrives. */
  lemma {:induction false} RouteIsInTime(tt: Timetables, day: DayType, m: LineMapData, stops: seq<StopInput>,
                                         requested: int, hops: seq<Hop>)
    requires WellFormed(m) && Journey(tt, day, m, stops, requested, hops)
    ensures InTime(AllLegs(hops), requested, EarliestAfter(requested, hops))
  {
    hide Journey, UnbrokenChain, EndsAt, RunsInTime, IsTimedLeg;
    if hops != [] {
      var k := |hops| - 1;
      JourneyPrefix(tt, day, m, stops, requested, hops);
      RouteIsInTime(tt, day, m, stops, requested, hops[..k]);
      StageIsHop(tt, day, m, stops, requested, hops, k);
      if hops[k].timed {
        InTimeAfterHop(AllLegs(hops[..k]), requested, EarliestAfter(requested, hops[..k]), hops[k]);
      } else {
        InTimeAfterUntimed(AllLegs(hops[..k]), requested, EarliestAfter(requested, hops[..k]), hops[k].legs);
      }
    }
  }

  lemma InTimeAfterUntimed(legs: seq<Leg>, requested: int, latest: int, untimed: seq<Leg>)
    requires InTime(legs, requested, latest) && forall i :: 0 <= i < |untimed| ==> IsUntimedLeg(untimed[i])
    ensures InTime(legs + untimed, requested, latest)
  {
    hide FormatClock;
  }

  // ---------- Fully timed routes ----------

  predicate AllLegsTimed(legs: seq<Leg>) {
    forall i :: 0 <= i < |legs| ==> IsTimedLeg(legs[i])
  }

  lemma AllLegsTimedJoin(p: seq<Leg>, q: seq<Leg>)
    ensures AllLegsTimed(p + q) <==> AllLegsTimed(p) && AllLegsTimed(q)
  {
    hide IsTimedLeg;
    if AllLegsTimed(p + q) {
      assert forall i :: 0 <= i < |p| ==> (p + q)[i] == p[i];
      assert forall i :: 0 <= i < |q| ==> (p + q)[|p| + i] == q[i];
    }
  }

  function RideMinutes(legs: seq<Leg>): int
    requires AllLegsTimed(legs)
  {
    if legs == [] then 0 else
      var last := legs[|legs| - 1];
      RideMinutes(legs[..|legs| - 1]) + last.arrivalMinute.value - last.departureMinute.value
  }

  function WaitMinutes(legs: seq<Leg>): int
    requires AllLegsTimed(legs)
  {
    if |legs| < 2 then 0 else
      WaitMinutes(legs[..|legs| - 1]) + legs[|legs| - 1].departureMinute.value - legs[|legs| - 2].arrivalMinute.value
  }

  lemma {:induction false} RidesAndWaitsTelescope(legs: seq<Leg>, requested: int, latest: int)
    requires legs != [] && InTime(legs, requested, latest) && AllLegsTimed(legs)
    ensures RideMinutes(legs) + WaitMinutes(legs)
            == legs[|legs| - 1].arrivalMinute.value - legs[0].departureMinute.value
    ensures RideMinutes(legs) >= |legs| && WaitMinutes(legs) >= 0
  {
    hide FormatClock;
    var n := |legs| - 1;
    if n > 0 {
      RidesAndWaitsTelescope(legs[..n], requested, latest);
      assert NotAfter(legs[n - 1], legs[n]);
    } else {
      assert legs[..0] == [];
    }
    assert IsTimedLeg(legs[n]);
  }

  /** All hops are timed exactly when all legs are: every hop has a leg. */
  lemma {:induction false} FullyTimedMeansAllLegsTimed(tt: Timetables, day: DayType, m: LineMapData,
                                                       stops: seq<StopInput>, requested: int, hops: seq<Hop>)
    requires WellFormed(m) && Journey(tt, day, m, stops, requested, hops)
    ensures AllTimed(hops) <==> AllLegsTimed(AllLegs(hops))
  {
    hide Journey, EndsAt, FormatClock;
    if hops != [] {
      var k := |hops| - 1;
      JourneyPrefix(tt, day, m, stops, requested, hops);
      FullyTimedMeansAllLegsTimed(tt, day, m, stops, requested, hops[..k]);
      StageIsHop(tt, day, m, stops, requested, hops, k);
      assert AllTimed(hops) <==> AllTimed(hops[..k]) && hops[k].timed;
      AllLegsTimedJoin(AllLegs(hops[..k]), hops[k].legs);
      assert !hops[k].timed ==> IsUntimedLeg(hops[k].legs[0]);
    }
  }

  lemma LastOfLegsAndStops(tt: Timetables, day: DayType, m: LineMapData, stops: seq<StopInput>, requested: int,
                           hops: seq<Hop>)
    requires WellFormed(m) && Journey(tt, day, m, stops, requested, hops) && hops != [] && hops[|hops| - 1].timed
    requires forall k :: 0 <= k < |hops| ==> hops[k].stops != []
    ensures AllLegs(hops) != [] && AllStops(stops, requested, hops) != []
    ensures var legs, all := AllLegs(hops), AllStops(stops, requested, hops);
      all[|all| - 1].minute.Some? && legs[|legs| - 1].arrivalMinute == all[|all| - 1].minute
  {
    hide Journey, FormatClock, UnbrokenChain;
    var k := |hops| - 1;
    StageIsHop(tt, day, m, stops, requested, hops, k);
    assert IsTimedLeg(hops[k].legs[|hops[k].legs| - 1]);
  }

  /** A fully timed schedule lasts as long as its rides and waits together, at least a minute a leg;
      any other schedule shows no duration and no arrival. */
  lemma DurationIsRidesAndWaits(tt: Timetables, day: DayType, m: LineMapData, stops: seq<StopInput>, requested: int,
                                hops: seq<Hop>, schedule: RouteSchedule)
    requires WellFormed(m) && Journey(tt, day, m, stops, requested, hops) && hops != []
    requires forall k :: 0 <= k < |hops| ==> hops[k].stops != []
    requires IsScheduleOf(stops, requested, day, hops, schedule)
    ensures schedule.isFullyTimed <==> AllLegsTimed(schedule.legs)
    ensures schedule.isFullyTimed <==> schedule.durationMinutes.Some?
    ensures schedule.isFullyTimed <==> schedule.arrivalTime.Some?
    ensures schedule.isFullyTimed ==>
      && schedule.durationMinutes == Some(RideMinutes(schedule.legs) + WaitMinutes(schedule.legs))
      && RideMinutes(schedule.legs) >= |schedule.legs| >= 1 && WaitMinutes(schedule.legs) >= 0
      && schedule.departureTime == FormatClock(schedule.legs[0].departureMinute.value)
      && schedule.arrivalTime == Some(FormatClock(schedule.legs[|schedule.legs| - 1].arrivalMinute.value))
  {
    hide Journey, FormatClock, UnbrokenChain, InTime, AllLegs, AllStops, EarliestAfter, FirstDeparture, WellFormed;
    hide RideMinutes, WaitMinutes;
    FullyTimedMeansAllLegsTimed(tt, day, m, stops, requested, hops);
    if AllTimed(hops) {
      LastOfLegsAndStops(tt, day, m, stops, requested, hops);
      RouteIsInTime(tt, day, m, stops, requested, hops);
      RidesAndWaitsTelescope(schedule.legs, requested, EarliestAfter(requested, hops));
      FirstOfTimedLegs(schedule.legs);
    }
  }

  lemma FirstOfTimedLegs(legs: seq<Leg>)
    requires legs != [] && AllLegsTimed(legs)
    ensures FirstDeparture(legs) == legs[0].departureMinute && legs[0].departureMinute.Some?
  {
    assert IsTimedLeg(legs[0]);
  }

  // ---------- On built maps ----------

  /** A leg's line serves both stations it joins. */
  predicate LineServesLeg(m: LineMapData, leg: Leg) {
    && leg.fromStationId in m.stations && leg.line in m.stations[leg.fromStationId].lines
    && leg.toStationId in m.stations && leg.line in m.stations[leg.toStationId].lines
  }

  lemma SharedRawLineServes(lists: StationLists, m: LineMapData, a: StationId, b: StationId, raw: int)
    requires Built(lists, m) && a in m.stations && b in m.stations
    requires raw in m.stations[a].rawLineIds && raw in m.stations[b].rawLineIds
    ensures RealLineOf(raw).Some? && RealLineOf(raw).value in m.stations[a].lines
    ensures RealLineOf(raw).value in m.stations[b].lines
    ensures Serves(lists, raw, a) && Serves(lists, raw, b)
  {
    assert Catalogued(lists, a, m.stations[a]) && Catalogued(lists, b, m.stations[b]);
  }

  lemma DirectLegIsServed(lists: StationLists, m: LineMapData, tt: Timetables, a: StationId, b: StationId,
                          toName: string, earliest: int, day: DayType)
    requires Built(lists, m) && a in m.stations && b in m.stations
    ensures var hop := DirectHop(tt, m.stations[a], m.stations[b], toName, earliest, day);
      hop.Some? ==> forall leg :: leg in hop.value.legs ==> LineServesLeg(m, leg)
  {
    hide BestAttempt, FormatClock, Rides, Built;
    var from, to := m.stations[a], m.stations[b];
    if DirectHop(tt, from, to, toName, earliest, day).Some? {
      BestBetweenConnects(tt, from, to, earliest, day);
      SharedRawLineServes(lists, m, a, b, BestBetween(tt, from, to, earliest, day).value.rawLineId);
    }
  }

  lemma TransferLegsAreServed(lists: StationLists, m: LineMapData, tt: Timetables, a: StationId, x: StationId,
                              b: StationId, earliest: int, day: DayType)
    requires Built(lists, m) && a in m.stations && x in m.stations && b in m.stations
    ensures var hop := TryTransferVia(tt, m.stations[a], m.stations[x], m.stations[b], earliest, day);
      hop.Some? ==> forall leg :: leg in hop.value.legs ==> LineServesLeg(m, leg)
  {
    hide TryTransferVia, FormatClock, Rides, Built;
    var from, transfer, to := m.stations[a], m.stations[x], m.stations[b];
    var hop := TryTransferVia(tt, from, transfer, to, earliest, day);
    if hop.Some? {
      TransferIsItinerary(tt, from, transfer, to, earliest, day);
      var i: Itinerary :| i.transfer == transfer && IsItinerary(tt, from, to, earliest, day, i) &&
          Shows(hop.value, from, to, i);
      SharedRawLineServes(lists, m, a, x, i.firstLine);
      SharedRawLineServes(lists, m, x, b, i.secondLine);
      assert hop.value.legs == [hop.value.legs[0], hop.value.legs[1]];
    }
  }

  lemma PathLegsAreServed(lists: StationLists, m: LineMapData, a: StationId, b: StationId, p: seq<Edge>,
                          toName: string, earliest: int)
    requires Built(lists, m) && p != [] && IsPath(m.edges, a, b, p)
    ensures forall leg :: leg in PathOnlyHop(p, toName, m, earliest).legs ==> LineServesLeg(m, leg)
  {
    hide Built, LineChanges;
    PathIsChain(m.edges, a, b, p);
    forall i | 0 <= i < |p|
      ensures LineServesLeg(m, UntimedLeg(p[i]))
    {
      EdgesStayOnTheirLine(lists, m, p[i]);
    }
  }

  /** Whichever way a hop was found, each of its legs runs on a line that serves both ends of the leg. */
  lemma LegsAreServed(lists: StationLists, m: LineMapData, tt: Timetables, day: DayType, fromId: StationId,
                      toId: StationId, toName: string, earliest: int, hop: Hop)
    requires Built(lists, m) && Resolves(tt, day, m, fromId, toId, toName, earliest, hop)
    ensures forall leg :: leg in hop.legs ==> LineServesLeg(m, leg)
  {
    hide Built, DirectHop, BestTransfer, TryTransferVia, PathOnlyHop, LineServesLeg;
    var from, to := m.stations[fromId], m.stations[toId];
    var timed := TimedHop(tt, from, to, toName, earliest, day, m);
    if timed.None? {
      var p :| p != [] && IsShortestPath(m.edges, fromId, toId, p) && hop == PathOnlyHop(p, toName, m, earliest);
      PathLegsAreServed(lists, m, fromId, toId, p, toName, earliest);
    } else if SharedRawLineIds(from, to) != [] {
      DirectLegIsServed(lists, m, tt, fromId, toId, toName, earliest, day);
    } else {
      BestTransferIsBest(tt, from, to, earliest, day, m);
      var transfer :| transfer in FindTransferCandidates(from, to, m) && OnKnownLines(transfer)
                   && TryTransferVia(tt, from, transfer, to, earliest, day) == timed;
      TransferLegsAreServed(lists, m, tt, fromId, transfer.stationId, toId, earliest, day);
    }
  }

  /** Stations that share a raw line, or have a transfer candidate, are joined by map edges. */
  lemma NeighbourhoodsConnect(lists: StationLists, m: LineMapData, a: StationId, b: StationId)
    requires Built(lists, m) && a in m.stations && b in m.stations
    requires SharesLine(m.stations[a], m.stations[b]) || FindTransferCandidates(m.stations[a], m.stations[b], m) != []
    ensures Connected(m.edges, a, b)
  {
    hide Built;
    if SharesLine(m.stations[a], m.stations[b]) {
      var raw :| raw in m.stations[a].rawLineIds && raw in m.stations[b].rawLineIds;
      SharedRawLineServes(lists, m, a, b, raw);
      SharedLineConnects(lists, m, raw, a, b);
    } else {
      var transfer := FindTransferCandidates(m.stations[a], m.stations[b], m)[0];
      assert transfer in FindTransferCandidates(m.stations[a], m.stations[b], m);
      var x := transfer.stationId;
      var raw :| raw in transfer.rawLineIds && raw in m.stations[a].rawLineIds;
      var raw' :| raw' in transfer.rawLineIds && raw' in m.stations[b].rawLineIds;
      SharedRawLineServes(lists, m, a, x, raw);
      SharedRawLineServes(lists, m, x, b, raw');
      SharedLineConnects(lists, m, raw, a, x);
      SharedLineConnects(lists, m, raw', x, b);
      var p :| IsPath(m.edges, a, x, p);
      var q :| IsPath(m.edges, x, b, q);
      JoinPaths(m.edges, a, x, b, p, q);
    }
  }

  /** Between two different such stations of a built map a hop can always be resolved. */
  lemma NeverWithoutARoute(lists: StationLists, m: LineMapData, tt: Timetables, a: StationId, b: StationId,
                           toName: string, earliest: int, day: DayType)
    requires Built(lists, m) && a in m.stations && b in m.stations && a != b
    requires SharesLine(m.stations[a], m.stations[b]) || FindTransferCandidates(m.stations[a], m.stations[b], m) != []
    ensures !HasNoHop(tt, a, b, toName, earliest, day, m)
  {
    hide Built, TimedHop;
    NeighbourhoodsConnect(lists, m, a, b);
  }

  /** Between two stations of the loop line without a usable train the hop has at most half as many legs as the
      loop has stations. */
  lemma LoopHopIsHalfRound(lists: StationLists, m: LineMapData, tt: Timetables, day: DayType, i: nat, j: nat,
                           toName: string, earliest: int, hop: Hop)
    requires Built(lists, m) && i < |lists[LOOP_LINE - 1]| && j < |lists[LOOP_LINE - 1]|
    requires Resolves(tt, day, m, lists[LOOP_LINE - 1][i].stationId, lists[LOOP_LINE - 1][j].stationId, toName,
                      earliest, hop)
    requires !hop.timed
    ensures |hop.legs| <= |lists[LOOP_LINE - 1]| / 2
  {
    var a, b := lists[LOOP_LINE - 1][i].stationId, lists[LOOP_LINE - 1][j].stationId;
    hide Built, TimedHop, LineChanges;
    var from, to := m.stations[a], m.stations[b];
    TimedHopIsHop(tt, from, to, toName, earliest, day, m);
    if TimedHop(tt, from, to, toName, earliest, day, m).None? {
      var p :| p != [] && IsShortestPath(m.edges, a, b, p) && hop == PathOnlyHop(p, toName, m, earliest);
      LoopHalfRound(lists, m, i, j, p);
    }
  }
}
