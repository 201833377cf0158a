/** Resolving one stage of a route: by train where the timetables allow, else by the bare path (transitTimetable.ts). */
module Stages {
  import opened Wrappers
  import opened Clock
  import opened LineMap
  import opened ShortestPath
  import opened Trains
  import opened Hops
  import opened Itineraries

  datatype RouteError = TooFewStops | BadDepartureTime | UnknownStation | NoRoute

  // ---------- The path-only hop ----------

  function UntimedLeg(e: Edge): Leg {
    Leg(e.from, e.to, e.line, None, None, None, None, None, None)
  }

  /** The station's name, or its id where the map does not know it. */
  function NameOf(m: LineMapData, id: StationId): string {
    if id in m.stations then m.stations[id].name else id.text
  }

  function UntimedStop(id: StationId, name: string, isTransfer: bool): Stop {
    Stop(id, name, "", None, None, isTransfer)
  }

  /** The stops where the line changes between the first n + 1 edges. */
  function LineChanges(p: seq<Edge>, n: nat, m: LineMapData): seq<Stop>
    requires n < |p|
  {
    if n == 0 then [] else
      LineChanges(p, n - 1, m)
      + (if p[n].line != p[n - 1].line then [UntimedStop(p[n - 1].to, NameOf(m, p[n - 1].to), true)] else [])
  }

  function PathOnlyHop(p: seq<Edge>, toName: string, m: LineMapData, earliestMinute: int): Hop
    requires p != []
  {
    Hop(seq(|p|, i requires 0 <= i < |p| => UntimedLeg(p[i])),
        LineChanges(p, |p| - 1, m) + [UntimedStop(p[|p| - 1].to, toName, false)],
        earliestMinute, false)
  }

  method BuildPathOnlyHop(p: seq<Edge>, toName: string, m: LineMapData, earliestMinute: int) returns (hop: Hop)
    requires p != []
    ensures hop == PathOnlyHop(p, toName, m, earliestMinute)
  {
    var legs := seq(|p|, i requires 0 <= i < |p| => UntimedLeg(p[i]));
    var stops: seq<Stop> := [];
    for index := 0 to |p| - 1
      invariant stops == LineChanges(p, index, m)
    {
      var edge := p[index];
      if p[index + 1].line != edge.line {
        stops := stops + [UntimedStop(edge.to, NameOf(m, edge.to), true)];
      }
    }
    stops := stops + [UntimedStop(p[|p| - 1].to, toName, false)];
    hop := Hop(legs, stops, earliestMinute, false);
  }

  // ---------- One hop ----------

  /** What a resolved hop is: the timed one where there is one, else a shortest path through the map. */
  ghost predicate Resolves(tt: Timetables, day: DayType, m: LineMapData, fromId: StationId, toId: StationId,
                           toName: string, earliestMinute: int, hop: Hop)
    requires WellFormed(m)
  {
    && fromId in m.stations && toId in m.stations
    && var timed := TimedHop(tt, m.stations[fromId], m.stations[toId], toName, earliestMinute, day, m);
       if timed.Some? then hop == timed.value
       else
         exists p ::
           p != [] && IsShortestPath(m.edges, fromId, toId, p) && hop == PathOnlyHop(p, toName, m, earliestMinute)
  }

  /** Known stations with no timed hop that are the same one or not joined by the map. */
  ghost predicate HasNoHop(tt: Timetables, fromId: StationId, toId: StationId, toName: string, earliestMinute: int,
                           day: DayType, m: LineMapData)
    requires WellFormed(m)
  {
    && fromId in m.stations && toId in m.stations
    && TimedHop(tt, m.stations[fromId], m.stations[toId], toName, earliestMinute, day, m).None?
    && (fromId == toId || !Connected(m.edges, fromId, toId))
  }

  method ResolveHop(tt: Timetables, fromId: StationId, toId: StationId, toName: string, earliestMinute: int,
                    day: DayType, m: LineMapData)
    returns (r: Result<Hop, RouteError>)
    requires WellFormed(m)
    ensures r.Ok? ==> Resolves(tt, day, m, fromId, toId, toName, earliestMinute, r.value)
    ensures r.Ok? ==> LegsAreReal(tt, day, m, r.value.legs) && ShowsStops(m, r.value.stops, r.value.legs)
    ensures r == Err(UnknownStation) <==> fromId !in m.stations || toId !in m.stations
    ensures r == Err(NoRoute) <==> HasNoHop(tt, fromId, toId, toName, earliestMinute, day, m)
    ensures r.Ok? || r == Err(UnknownStation) || r == Err(NoRoute)
  {
    hide LegsAreReal, ShowsStops;
    if fromId !in m.stations || toId !in m.stations {
      return Err(UnknownStation);
    }
    var from, to := m.stations[fromId], m.stations[toId];
    var timed := TimedHop(tt, from, to, toName, earliestMinute, day, m);
    if timed.Some? {
      ResolvedHopShows(tt, day, m, fromId, toId, toName, earliestMinute, timed.value);
      return Ok(timed.value);
    }
    var path := FindTopologicalPath(fromId, toId, m.edges);
    assert fromId == toId ==> IsPath(m.edges, fromId, toId, []);
    if path.Some? && path.value != [] {
      var hop := BuildPathOnlyHop(path.value, toName, m, earliestMinute);
      ResolvedHopShows(tt, day, m, fromId, toId, toName, earliestMinute, hop);
      return Ok(hop);
    }
    return Err(NoRoute);
  }

  // ---------- What a hop shows ----------

  /** The leg is train t of a raw line that both its stations have: its line, number, direction and times. */
  ghost predicate RidesTrain(tt: Timetables, day: DayType, m: LineMapData, leg: Leg, raw: int, t: Train) {
    && leg.fromStationId in m.stations && raw in m.stations[leg.fromStationId].rawLineIds
    && leg.toStationId in m.stations && raw in m.stations[leg.toStationId].rawLineIds
    && RealLineOf(raw) == Some(leg.line) && Rides(tt, leg.fromStationId, leg.toStationId, raw, day, t)
    && leg.trainNo == Some(t.trainNo) && leg.direction == Some(t.direction)
    && leg.departureMinute == Some(t.departureMinute) && leg.departureTime == Some(FormatClock(t.departureMinute))
    && leg.arrivalMinute == Some(t.arrivalMinute) && leg.arrivalTime == Some(FormatClock(t.arrivalMinute))
  }

  ghost predicate HasTrain(tt: Timetables, day: DayType, m: LineMapData, leg: Leg) {
    exists raw, t :: RidesTrain(tt, day, m, leg, raw, t)
  }

  /** The leg has no train; it travels an edge of the map. */
  predicate FollowsMap(m: LineMapData, leg: Leg) {
    IsUntimedLeg(leg) && Travels(m.edges, Edge(leg.fromStationId, leg.toStationId, leg.line))
  }

  ghost predicate LegsAreReal(tt: Timetables, day: DayType, m: LineMapData, legs: seq<Leg>) {
    forall leg :: leg in legs ==> HasTrain(tt, day, m, leg) || FollowsMap(m, leg)
  }

  /** A stop that the planner inserts at this station. */
  predicate IsChangeAt(m: LineMapData, stop: Stop, id: StationId) {
    && stop.id == id && stop.isTransfer && stop.lineId == ""
    && stop.name == if id in m.stations then m.stations[id].name else id.text
  }

  /** The stop is where leg j ends, at the time it ends; an inserted one is where the journey goes on, by another train
      or, without trains, on another line. */
  predicate StopEndsLeg(m: LineMapData, stop: Stop, legs: seq<Leg>, j: nat)
    requires j < |legs|
  {
    && stop.id == legs[j].toStationId && stop.minute == legs[j].arrivalMinute && stop.time == legs[j].arrivalTime
    && (stop.isTransfer ==>
          && j + 1 < |legs| && IsChangeAt(m, stop, legs[j + 1].fromStationId)
          && (legs[j].trainNo.Some? <==> legs[j + 1].trainNo.Some?)
          && (legs[j].trainNo.Some? || legs[j].line != legs[j + 1].line))
  }

  /** Nothing is to be shown at the end of leg j: neither it nor the next leg has a train, and the line is the same. */
  predicate RunsOn(legs: seq<Leg>, j: nat) {
    && j + 1 < |legs| && IsUntimedLeg(legs[j]) && IsUntimedLeg(legs[j + 1]) && legs[j].line == legs[j + 1].line
  }

  /** The stops are exactly where these legs end, in order, and the journey runs on at the end of every other leg. */
  ghost predicate StopsEndLegs(m: LineMapData, stops: seq<Stop>, legs: seq<Leg>, at: seq<nat>) {
    && |at| == |stops| && (forall i, j :: 0 <= i < j < |at| ==> at[i] < at[j])
    && (forall k :: 0 <= k < |at| ==> at[k] < |legs| && StopEndsLeg(m, stops[k], legs, at[k]))
    && (forall j: nat :: j < |legs| && j !in at ==> RunsOn(legs, j))
  }

  ghost predicate ShowsStops(m: LineMapData, stops: seq<Stop>, legs: seq<Leg>) {
    exists at :: StopsEndLegs(m, stops, legs, at)
  }

  // ---------- What every hop satisfies ----------

  /** Each leg starts where the one before it ends. */
  ghost predicate UnbrokenChain(legs: seq<Leg>, a: StationId, b: StationId) {
    && legs != [] && legs[0].fromStationId == a && legs[|legs| - 1].toStationId == b
    && forall i :: 0 <= i < |legs| - 1 ==> legs[i].toStationId == legs[i + 1].fromStationId
  }

  /** A leg with a train: it takes a minute to three hours and its clock texts show its minutes. */
  predicate IsTimedLeg(leg: Leg) {
    && leg.trainNo.Some? && leg.direction.Some? && leg.departureMinute.Some? && leg.arrivalMinute.Some?
    && 1 <= leg.arrivalMinute.value - leg.departureMinute.value <= 180
    && leg.departureTime == Some(FormatClock(leg.departureMinute.value))
    && leg.arrivalTime == Some(FormatClock(leg.arrivalMinute.value))
  }

  predicate IsUntimedLeg(leg: Leg) {
    leg.trainNo.None? && leg.direction.None? && leg.departureMinute.None? && leg.arrivalMinute.None?
    && leg.departureTime.None? && leg.arrivalTime.None?
  }

  /** The trains of a timed hop: from the earliest minute on, with two minutes or more to change between them. */
  ghost predicate RunsInTime(hop: Hop, earliest: int) {
    && hop.legs != [] && (forall i :: 0 <= i < |hop.legs| ==> IsTimedLeg(hop.legs[i]))
    && hop.legs[0].departureMinute.value >= earliest
    && (forall i :: 0 <= i < |hop.legs| - 1 ==>
          hop.legs[i + 1].departureMinute.value >= hop.legs[i].arrivalMinute.value + 2)
    && hop.legs[|hop.legs| - 1].arrivalMinute.value == hop.arrivalMinute
  }

  /** All stops of a hop but the last were inserted by the planner; the last is the station it leads to. */
  ghost predicate EndsAt(hop: Hop, toId: StationId) {
    && hop.stops != []
    && (forall i :: 0 <= i < |hop.stops| - 1 ==> hop.stops[i].isTransfer)
    && !hop.stops[|hop.stops| - 1].isTransfer && hop.stops[|hop.stops| - 1].id == toId
    && hop.stops[|hop.stops| - 1].minute == if hop.timed then Some(hop.arrivalMinute) else None
  }

  ghost predicate IsHop(hop: Hop, fromId: StationId, toId: StationId, earliest: int) {
    && UnbrokenChain(hop.legs, fromId, toId)
    && EndsAt(hop, toId)
    && (hop.timed ==> RunsInTime(hop, earliest))
    && (!hop.timed ==> hop.arrivalMinute == earliest && forall i :: 0 <= i < |hop.legs| ==> IsUntimedLeg(hop.legs[i]))
  }

  lemma TimedLegIsTimed(tt: Timetables, a: Station, b: Station, day: DayType, earliest: int, raw: int, t: Train)
    requires Connects(tt, a, b, day, earliest, raw, t) && RealLineOf(raw).Some?
    ensures IsTimedLeg(TimedLeg(a, b.stationId, Attempt(raw, t)))
  {
    hide FormatClock;
    assert 1 <= t.arrivalMinute - t.departureMinute <= MAX_LEG_MINUTES;
  }

  lemma DirectHopIsHop(tt: Timetables, from: Station, to: Station, toName: string, earliest: int, day: DayType)
    requires OnKnownLines(from)
    ensures var hop := DirectHop(tt, from, to, toName, earliest, day);
            hop.Some? ==> hop.value.timed && IsHop(hop.value, from.stationId, to.stationId, earliest)
  {
    hide FormatClock, Rides, BestAttempt;
    var hop := DirectHop(tt, from, to, toName, earliest, day);
    if hop.Some? {
      var best := BestBetween(tt, from, to, earliest, day).value;
      BestBetweenConnects(tt, from, to, earliest, day);
      TimedLegIsTimed(tt, from, to, day, earliest, best.rawLineId, best.train);
    }
  }

  lemma TransferHopIsHop(tt: Timetables, from: Station, transfer: Station, to: Station, earliest: int, day: DayType)
    requires OnKnownLines(from) && OnKnownLines(transfer)
    ensures var hop := TryTransferVia(tt, from, transfer, to, earliest, day);
            hop.Some? ==> hop.value.timed && IsHop(hop.value, from.stationId, to.stationId, earliest)
  {
    var hop := TryTransferVia(tt, from, transfer, to, earliest, day);
    TransferIsItinerary(tt, from, transfer, to, earliest, day);
    hide FormatClock, Rides, BestAttempt, TryTransferVia, IsItinerary;
    if hop.Some? {
      var i: Itinerary :| i.transfer == transfer && IsItinerary(tt, from, to, earliest, day, i) &&
          Shows(hop.value, from, to, i);
      ItineraryTimes(tt, from, to, earliest, day, i);
      TransferStops(tt, from, transfer, to, earliest, day);
      ItineraryIsHop(hop.value, from, to, i, earliest);
    }
  }

  lemma TransferStops(tt: Timetables, from: Station, transfer: Station, to: Station, earliest: int, day: DayType)
    requires OnKnownLines(from) && OnKnownLines(transfer)
    ensures var hop := TryTransferVia(tt, from, transfer, to, earliest, day);
            hop.Some? ==> EndsAt(hop.value, to.stationId)
  {
    hide FormatClock, BestAttempt;
  }

  lemma ItineraryTimes(tt: Timetables, from: Station, to: Station, earliest: int, day: DayType, i: Itinerary)
    requires IsItinerary(tt, from, to, earliest, day, i)
    requires RealLineOf(i.firstLine).Some? && RealLineOf(i.secondLine).Some?
    ensures i.first.departureMinute >= earliest
    ensures i.second.departureMinute >= i.first.arrivalMinute + TRANSFER_MINUTES
    ensures IsTimedLeg(TimedLeg(from, i.transfer.stationId, Attempt(i.firstLine, i.first)))
    ensures IsTimedLeg(TimedLeg(i.transfer, to.stationId, Attempt(i.secondLine, i.second)))
  {
    hide Rides, TimedLeg, IsTimedLeg;
    TimedLegIsTimed(tt, from, i.transfer, day, earliest, i.firstLine, i.first);
    TimedLegIsTimed(tt, i.transfer, to, day, i.first.arrivalMinute + TRANSFER_MINUTES, i.secondLine, i.second);
  }

  /** Two timed legs with time to change between them are a hop. */
  lemma ItineraryIsHop(hop: Hop, from: Station, to: Station, i: Itinerary, earliest: int)
    requires Shows(hop, from, to, i) && EndsAt(hop, to.stationId)
    requires i.first.departureMinute >= earliest
    requires i.second.departureMinute >= i.first.arrivalMinute + TRANSFER_MINUTES
    requires IsTimedLeg(hop.legs[0]) && IsTimedLeg(hop.legs[1])
    ensures IsHop(hop, from.stationId, to.stationId, earliest)
  {
    hide FormatClock, RealLineOf;
  }

  lemma {:induction false} PathIsChain(edges: seq<Edge>, a: StationId, b: StationId, p: seq<Edge>)
    requires p != [] && IsPath(edges, a, b, p)
    ensures p[0].from == a && p[|p| - 1].to == b
    ensures forall i :: 0 <= i < |p| - 1 ==> p[i].to == p[i + 1].from
    ensures forall i :: 0 <= i < |p| ==> Travels(edges, p[i])
    decreases |p|
  {
    if |p| > 1 {
      var rest := p[1..];
      PathIsChain(edges, p[0].to, b, rest);
      forall i | 0 < i < |p|
        ensures Travels(edges, p[i]) && (i < |p| - 1 ==> p[i].to == p[i + 1].from)
      {
        assert p[i] == rest[i - 1];
        if i < |p| - 1 {
          assert p[i + 1] == rest[i];
        }
      }
    }
  }

  predicate IsLineChange(p: seq<Edge>, k: nat) {
    0 < k < |p| && p[k].line != p[k - 1].line
  }

  /** The inserted stops are exactly the line changes up to edge n, in order: nothing else is a transfer and
      none is missing. */
  ghost predicate MarksLineChanges(m: LineMapData, p: seq<Edge>, n: nat, inserted: seq<Stop>, at: seq<nat>) {
    && |at| == |inserted|
    && (forall i, j :: 0 <= i < j < |at| ==> at[i] < at[j])
    && (forall i :: 0 <= i < |at| ==> MarksLineChange(m, p, n, inserted[i], at[i]))
    && (forall k: nat :: k <= n && IsLineChange(p, k) ==> k in at)
  }

  predicate MarksLineChange(m: LineMapData, p: seq<Edge>, n: nat, stop: Stop, k: nat) {
    k <= n && IsLineChange(p, k) && IsChangeAt(m, stop, p[k - 1].to) && stop.time.None? && stop.minute.None?
  }

  lemma {:induction false} LineChangesAreMarked(p: seq<Edge>, n: nat, m: LineMapData) returns (at: seq<nat>)
    requires n < |p|
    ensures MarksLineChanges(m, p, n, LineChanges(p, n, m), at)
  {
    at := [];
    if n > 0 {
      var before := LineChangesAreMarked(p, n - 1, m);
      var stops := LineChanges(p, n - 1, m);
      if IsLineChange(p, n) {
        at := before + [n];
        var stop := UntimedStop(p[n - 1].to, NameOf(m, p[n - 1].to), true);
        assert LineChanges(p, n, m) == stops + [stop];
        MarkNext(m, p, n, stops, before, stop);
      } else {
        at := before;
        assert LineChanges(p, n, m) == stops;
        MarkNothing(m, p, n, stops, before);
      }
    }
  }

  lemma MarkNext(m: LineMapData, p: seq<Edge>, n: nat, stops: seq<Stop>, at: seq<nat>, stop: Stop)
    requires 0 < n < |p| && MarksLineChanges(m, p, n - 1, stops, at)
    requires MarksLineChange(m, p, n, stop, n)
    ensures MarksLineChanges(m, p, n, stops + [stop], at + [n])
  {
    assert forall k :: k in at ==> k in at + [n];
    assert (at + [n])[|at|] == n;
  }

  lemma MarkNothing(m: LineMapData, p: seq<Edge>, n: nat, stops: seq<Stop>, at: seq<nat>)
    requires 0 < n < |p| && MarksLineChanges(m, p, n - 1, stops, at) && !IsLineChange(p, n)
    ensures MarksLineChanges(m, p, n, stops, at)
  {
  }

  lemma PathOnlyHopIsHop(edges: seq<Edge>, a: StationId, b: StationId, p: seq<Edge>, toName: string, m: LineMapData,
                         earliest: int)
    requires p != [] && IsPath(edges, a, b, p)
    ensures IsHop(PathOnlyHop(p, toName, m, earliest), a, b, earliest)
  {
    PathIsChain(edges, a, b, p);
    var at := LineChangesAreMarked(p, |p| - 1, m);
  }

  lemma TimedHopIsHop(tt: Timetables, from: Station, to: Station, toName: string, earliest: int, day: DayType,
                      m: LineMapData)
    requires WellFormed(m) && OnKnownLines(from)
    ensures var hop := TimedHop(tt, from, to, toName, earliest, day, m);
            hop.Some? ==> hop.value.timed && IsHop(hop.value, from.stationId, to.stationId, earliest)
  {
    hide DirectHop, BestTransfer, IsHop, TryTransferVia;
    var timed := TimedHop(tt, from, to, toName, earliest, day, m);
    DirectHopIsHop(tt, from, to, toName, earliest, day);
    if SharedRawLineIds(from, to) == [] && timed.Some? {
      BestTransferIsBest(tt, from, to, earliest, day, m);
      var transfer :| transfer in FindTransferCandidates(from, to, m) && OnKnownLines(transfer)
                   && TryTransferVia(tt, from, transfer, to, earliest, day) == timed;
      TransferHopIsHop(tt, from, transfer, to, earliest, day);
    }
  }

  /** Every resolved hop is an unbroken chain from its first station to its second, wholly timed and in time or
      wholly untimed, whose stops but the last are transfers. */
  lemma ResolvedHopIsHop(tt: Timetables, day: DayType, m: LineMapData, fromId: StationId, toId: StationId,
                         toName: string, earliest: int, hop: Hop)
    requires WellFormed(m) && Resolves(tt, day, m, fromId, toId, toName, earliest, hop)
    ensures IsHop(hop, fromId, toId, earliest)
  {
    hide TimedHop, IsHop, PathOnlyHop;
    var from, to := m.stations[fromId], m.stations[toId];
    TimedHopIsHop(tt, from, to, toName, earliest, day, m);
    if TimedHop(tt, from, to, toName, earliest, day, m).None? {
      var p :| p != [] && IsShortestPath(m.edges, fromId, toId, p) && hop == PathOnlyHop(p, toName, m, earliest);
      PathOnlyHopIsHop(m.edges, fromId, toId, p, toName, m, earliest);
    }
  }

  // ---------- What every hop shows ----------

  lemma TimedLegRides(tt: Timetables, day: DayType, m: LineMapData, a: StationId, b: StationId, earliest: int, raw: int,
                      t: Train)
    requires WellFormed(m) && a in m.stations && b in m.stations
    requires Connects(tt, m.stations[a], m.stations[b], day, earliest, raw, t)
    requires RealLineOf(raw).Some?
    ensures RidesTrain(tt, day, m, TimedLeg(m.stations[a], b, Attempt(raw, t)), raw, t)
  {
    hide FormatClock, IsRide;
  }

  lemma DirectHopShows(tt: Timetables, day: DayType, m: LineMapData, a: StationId, b: StationId, toName: string,
                       earliest: int)
    requires WellFormed(m) && a in m.stations && b in m.stations
    ensures var hop := DirectHop(tt, m.stations[a], m.stations[b], toName, earliest, day);
      hop.Some? ==> LegsAreReal(tt, day, m, hop.value.legs) && StopsEndLegs(m, hop.value.stops, hop.value.legs, [0])
  {
    hide FormatClock, Rides, BestAttempt;
    var from, to := m.stations[a], m.stations[b];
    var hop := DirectHop(tt, from, to, toName, earliest, day);
    if hop.Some? {
      var best := BestBetween(tt, from, to, earliest, day).value;
      BestBetweenConnects(tt, from, to, earliest, day);
      TimedLegRides(tt, day, m, a, b, earliest, best.rawLineId, best.train);
    }
  }

  /** What is left to say of the stops of two trains, given their legs. */
  predicate TransferStopsFit(hop: Hop, transfer: Station) {
    && |hop.legs| == 2 && |hop.stops| == 2
    && hop.stops[0] == Stop(transfer.stationId, transfer.name, "", hop.legs[0].arrivalTime, hop.legs[0].arrivalMinute,
                            true)
    && hop.stops[1].id == hop.legs[1].toStationId && !hop.stops[1].isTransfer
    && hop.stops[1].minute == hop.legs[1].arrivalMinute && hop.stops[1].time == hop.legs[1].arrivalTime
  }

  lemma TransferStopsAre(tt: Timetables, from: Station, transfer: Station, to: Station, earliest: int, day: DayType)
    requires OnKnownLines(from) && OnKnownLines(transfer)
    ensures var hop := TryTransferVia(tt, from, transfer, to, earliest, day);
            hop.Some? ==> TransferStopsFit(hop.value, transfer)
  {
    hide FormatClock, BestAttempt, Rides;
  }

  lemma FittingStopsEndLegs(m: LineMapData, hop: Hop, x: StationId)
    requires WellFormed(m) && x in m.stations && TransferStopsFit(hop, m.stations[x])
    requires hop.legs[0].toStationId == x && hop.legs[1].fromStationId == x
    requires hop.legs[0].trainNo.Some? && hop.legs[1].trainNo.Some?
    ensures StopsEndLegs(m, hop.stops, hop.legs, [0, 1])
  {
    assert forall j: nat :: j < 2 ==> j in [0, 1];
  }

  lemma TransferHopShows(tt: Timetables, day: DayType, m: LineMapData, a: StationId, x: StationId, b: StationId,
                         earliest: int)
    requires WellFormed(m) && a in m.stations && x in m.stations && b in m.stations
    ensures var hop := TryTransferVia(tt, m.stations[a], m.stations[x], m.stations[b], earliest, day);
      hop.Some? ==> LegsAreReal(tt, day, m, hop.value.legs) && StopsEndLegs(m, hop.value.stops, hop.value.legs, [0, 1])
  {
    hide TryTransferVia, FormatClock, Rides, BestAttempt, StopsEndLegs;
    var from, transfer, to := m.stations[a], m.stations[x], m.stations[b];
    var hop := TryTransferVia(tt, from, transfer, to, earliest, day);
    if hop.Some? {
      TransferStopsAre(tt, from, transfer, to, earliest, day);
      TransferIsItinerary(tt, from, transfer, to, earliest, day);
      var i: Itinerary :| i.transfer == transfer && IsItinerary(tt, from, to, earliest, day, i) &&
          Shows(hop.value, from, to, i);
      TimedLegRides(tt, day, m, a, x, earliest, i.firstLine, i.first);
      TimedLegRides(tt, day, m, x, b, i.first.arrivalMinute + TRANSFER_MINUTES, i.secondLine, i.second);
      FittingStopsEndLegs(m, hop.value, x);
      assert hop.value.legs == [hop.value.legs[0], hop.value.legs[1]];
    }
  }

  lemma MarkEndsLeg(m: LineMapData, p: seq<Edge>, stop: Stop, k: nat, legs: seq<Leg>)
    requires p != [] && MarksLineChange(m, p, |p| - 1, stop, k) && p[k - 1].to == p[k].from
    requires |legs| == |p| && forall i :: 0 <= i < |p| ==> legs[i] == UntimedLeg(p[i])
    ensures StopEndsLeg(m, stop, legs, k - 1)
  {
    assert legs[k - 1] == UntimedLeg(p[k - 1]) && legs[k] == UntimedLeg(p[k]);
  }

  lemma LastEndsLeg(m: LineMapData, p: seq<Edge>, last: Stop, legs: seq<Leg>)
    requires p != [] && |legs| == |p| && legs[|p| - 1] == UntimedLeg(p[|p| - 1])
    requires last.id == p[|p| - 1].to && !last.isTransfer && last.time.None? && last.minute.None?
    ensures StopEndsLeg(m, last, legs, |p| - 1)
  {
  }

  /** The marked line changes, counted by the legs that end there, and the last leg. */
  lemma MarksEndLegs(m: LineMapData, p: seq<Edge>, inserted: seq<Stop>, at: seq<nat>, legs: seq<Leg>, last: Stop)
    returns (ends: seq<nat>)
    requires p != [] && MarksLineChanges(m, p, |p| - 1, inserted, at)
    requires forall i :: 0 <= i < |p| - 1 ==> p[i].to == p[i + 1].from
    requires |legs| == |p| && forall i :: 0 <= i < |p| ==> legs[i] == UntimedLeg(p[i])
    requires last.id == p[|p| - 1].to && !last.isTransfer && last.time.None? && last.minute.None?
    ensures StopsEndLegs(m, inserted + [last], legs, ends)
  {
    hide IsChangeAt, StopEndsLeg;
    ends := seq(|at| + 1, i requires 0 <= i <= |at| => if i < |at| then at[i] - 1 else |p| - 1);
    var stops := inserted + [last];
    assert forall i :: 0 <= i < |at| ==> ends[i] == at[i] - 1;
    forall k | 0 <= k < |ends|
      ensures StopEndsLeg(m, stops[k], legs, ends[k])
    {
      if k < |at| {
        assert MarksLineChange(m, p, |p| - 1, inserted[k], at[k]);
        MarkEndsLeg(m, p, inserted[k], at[k], legs);
      } else {
        LastEndsLeg(m, p, last, legs);
      }
    }
    forall j: nat | j < |legs| && j !in ends
      ensures RunsOn(legs, j)
    {
      assert ends[|at|] == |p| - 1;
      assert IsLineChange(p, j + 1) ==> j + 1 in at;
    }
  }

  lemma PathOnlyHopShows(tt: Timetables, day: DayType, m: LineMapData, a: StationId, b: StationId, p: seq<Edge>,
                         toName: string, earliest: int)
    requires p != [] && IsPath(m.edges, a, b, p)
    ensures var hop := PathOnlyHop(p, toName, m, earliest);
      LegsAreReal(tt, day, m, hop.legs) && ShowsStops(m, hop.stops, hop.legs)
  {
    hide LineChanges, MarksLineChanges, StopsEndLegs;
    PathIsChain(m.edges, a, b, p);
    var at := LineChangesAreMarked(p, |p| - 1, m);
    var hop := PathOnlyHop(p, toName, m, earliest);
    var ends := MarksEndLegs(m, p, LineChanges(p, |p| - 1, m), at, hop.legs, UntimedStop(p[|p| - 1].to, toName, false));
  }

  /** Every resolved hop shows rides of the timetable or edges of the map, and its stops are exactly where they meet:
      after every train and at every change of line. */
  lemma ResolvedHopShows(tt: Timetables, day: DayType, m: LineMapData, fromId: StationId, toId: StationId,
                         toName: string, earliest: int, hop: Hop)
    requires WellFormed(m) && Resolves(tt, day, m, fromId, toId, toName, earliest, hop)
    ensures LegsAreReal(tt, day, m, hop.legs) && ShowsStops(m, hop.stops, hop.legs)
  {
    hide DirectHop, BestTransfer, TryTransferVia, PathOnlyHop, LegsAreReal, StopsEndLegs;
    var from, to := m.stations[fromId], m.stations[toId];
    var timed := TimedHop(tt, from, to, toName, earliest, day, m);
    if timed.None? {
      var p :| p != [] && IsShortestPath(m.edges, fromId, toId, p) && hop == PathOnlyHop(p, toName, m, earliest);
      PathOnlyHopShows(tt, day, m, fromId, toId, p, toName, earliest);
    } else if SharedRawLineIds(from, to) != [] {
      DirectHopShows(tt, day, m, fromId, toId, toName, earliest);
    } else {
      BestTransferIsBest(tt, from, to, earliest, day, m);
      var transfer :| transfer in FindTransferCandidates(from, to, m) && OnKnownLines(transfer)
                   && TryTransferVia(tt, from, transfer, to, earliest, day) == timed;
      TransferHopShows(tt, day, m, fromId, transfer.stationId, toId, earliest);
    }
  }

  /** A hop without trains is a shortest path: no chain of map edges between its stations has fewer legs. */
  lemma UntimedHopIsShortest(tt: Timetables, day: DayType, m: LineMapData, fromId: StationId, toId: StationId,
                             toName: string, earliest: int, hop: Hop, q: seq<Edge>)
    requires WellFormed(m) && Resolves(tt, day, m, fromId, toId, toName, earliest, hop) && !hop.timed
    requires IsPath(m.edges, fromId, toId, q)
    ensures |hop.legs| <= |q|
  {
    hide TimedHop, LineChanges, IsHop;
    var from, to := m.stations[fromId], m.stations[toId];
    TimedHopIsHop(tt, from, to, toName, earliest, day, m);
    var p :| p != [] && IsShortestPath(m.edges, fromId, toId, p) && hop == PathOnlyHop(p, toName, m, earliest);
    assert |hop.legs| == |p|;
  }
}
