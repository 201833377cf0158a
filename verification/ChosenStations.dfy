/** The chosen stations in the schedule: what is left of its stops without the inserted transfers
    (transitTimetable.ts). */
module ChosenStations {
  import opened Wrappers
  import opened Clock
  import opened LineMap
  import opened Trains
  import opened Hops
  import opened Itineraries
  import opened Stages
  import opened Route
  import opened RouteFacts

  function UserStops(stops: seq<Stop>): seq<Stop> {
    if stops == [] then []
    else
      var last := stops[|stops| - 1];
      UserStops(stops[..|stops| - 1]) + (if last.isTransfer then [] else [last])
  }

  lemma {:induction false} UserStopsJoin(s: seq<Stop>, t: seq<Stop>)
    ensures UserStops(s + t) == UserStops(s) + UserStops(t)
  {
    if t == [] {
      assert s + t == s;
    } else {
      var n := |t| - 1;
      assert (s + t)[..|s + t| - 1] == s + t[..n];
      UserStopsJoin(s, t[..n]);
    }
  }

  lemma {:induction false} NoUserStops(stops: seq<Stop>)
    requires forall i :: 0 <= i < |stops| ==> stops[i].isTransfer
    ensures UserStops(stops) == []
  {
    if stops != [] {
      NoUserStops(stops[..|stops| - 1]);
    }
  }

  lemma UserStopsOfHop(hop: Hop, toId: StationId, lineId: string)
    requires EndsAt(hop, toId)
    ensures UserStops(HopStops(hop, lineId)) == [hop.stops[|hop.stops| - 1].(lineId := lineId)]
  {
    var inserted, last := hop.stops[..|hop.stops| - 1], hop.stops[|hop.stops| - 1].(lineId := lineId);
    NoUserStops(inserted);
    UserStopsJoin(inserted, [last]);
    assert [last][..0] == [];
  }

  // ---------- The name of the last stop ----------

  /** The hop changes trains on the way, so that its last stop is made from the map. */
  predicate TakesMapName(m: LineMapData, fromId: StationId, toId: StationId, hop: Hop)
    requires fromId in m.stations && toId in m.stations
  {
    hop.timed && SharedRawLineIds(m.stations[fromId], m.stations[toId]) == []
  }

  /** The last stop carries the map's name after a change of trains, and the chosen name in every other case. */
  lemma LastStopName(tt: Timetables, day: DayType, m: LineMapData, fromId: StationId, toId: StationId, toName: string,
                     earliest: int, hop: Hop)
    requires WellFormed(m) && Resolves(tt, day, m, fromId, toId, toName, earliest, hop) && hop.stops != []
    ensures hop.stops[|hop.stops| - 1].name
            == if TakesMapName(m, fromId, toId, hop) then m.stations[toId].name else toName
  {
    hide BestAttempt, BestTransfer, FormatClock, LineChanges;
    var from, to := m.stations[fromId], m.stations[toId];
    TimedHopIsHop(tt, from, to, toName, earliest, day, m);
    if SharedRawLineIds(from, to) == [] && TimedHop(tt, from, to, toName, earliest, day, m).Some? {
      BestTransferIsBest(tt, from, to, earliest, day, m);
    }
  }

  // ---------- All stops ----------

  function AsInput(stop: Stop): StopInput {
    StopInput(stop.id, stop.name, stop.lineId)
  }

  function AsInputs(stops: seq<Stop>): (inputs: seq<StopInput>)
    ensures |inputs| == |stops| && forall k :: 0 <= k < |stops| ==> inputs[k] == AsInput(stops[k])
  {
    seq(|stops|, k requires 0 <= k < |stops| => AsInput(stops[k]))
  }

  /** Chosen station k as it is shown: under its own name, or the map's where a change of trains leads to it. */
  function ShownInput(m: LineMapData, stops: seq<StopInput>, hops: seq<Hop>, k: nat): StopInput
    requires k <= |hops| < |stops|
  {
    if k > 0 && stops[k - 1].id in m.stations && stops[k].id in m.stations
       && TakesMapName(m, stops[k - 1].id, stops[k].id, hops[k - 1])
    then stops[k].(name := m.stations[stops[k].id].name)
    else stops[k]
  }

  lemma UserStopsOfStage(tt: Timetables, day: DayType, m: LineMapData, stops: seq<StopInput>, requested: int,
                         hops: seq<Hop>, k: nat)
    returns (stop: Stop)
    requires WellFormed(m) && Journey(tt, day, m, stops, requested, hops) && k < |hops| && hops[k].stops != []
    ensures |hops| < |stops|
    ensures UserStops(HopStops(hops[k], stops[k + 1].lineId)) == [stop]
    ensures AsInput(stop) == ShownInput(m, stops, hops, k + 1)
  {
    assert IsStage(tt, day, m, stops, requested, hops, k);
    hide Journey, UnbrokenChain, RunsInTime, TimedHop;
    StageIsHop(tt, day, m, stops, requested, hops, k);
    LastStopName(tt, day, m, stops[k].id, stops[k + 1].id, stops[k + 1].name, EarliestAfter(requested, hops[..k]),
                 hops[k]);
    UserStopsOfHop(hops[k], stops[k + 1].id, stops[k + 1].lineId);
    stop := hops[k].stops[|hops[k].stops| - 1].(lineId := stops[k + 1].lineId);
  }

  /** These stops are the first chosen stations as they are shown. */
  ghost predicate ShowChoice(m: LineMapData, stops: seq<StopInput>, hops: seq<Hop>, shown: seq<Stop>) {
    && |shown| == |hops| + 1 <= |stops|
    && forall k :: 0 <= k <= |hops| ==> AsInput(shown[k]) == ShownInput(m, stops, hops, k)
  }

  lemma ShowNext(m: LineMapData, stops: seq<StopInput>, hops: seq<Hop>, shown: seq<Stop>, stop: Stop)
    requires hops != [] && |hops| < |stops| && ShowChoice(m, stops, hops[..|hops| - 1], shown)
    requires AsInput(stop) == ShownInput(m, stops, hops, |hops|)
    ensures ShowChoice(m, stops, hops, shown + [stop])
  {
    hide TakesMapName, AsInput;
    forall j | 0 <= j < |hops|
      ensures ShownInput(m, stops, hops[..|hops| - 1], j) == ShownInput(m, stops, hops, j)
    {
    }
  }

  /** Without the inserted transfers, the stops are the chosen stations as they are shown, each once and in order. */
  lemma {:induction false} ErasedStopsAre(tt: Timetables, day: DayType, m: LineMapData, stops: seq<StopInput>,
                                          requested: int, hops: seq<Hop>)
    requires WellFormed(m) && Journey(tt, day, m, stops, requested, hops)
    requires forall k :: 0 <= k < |hops| ==> hops[k].stops != []
    ensures |hops| < |stops| && ShowChoice(m, stops, hops, UserStops(AllStops(stops, requested, hops)))
  {
    assert |hops| < |stops|;
    hide Journey, FormatClock, HopStops, TakesMapName, WellFormed;
    if hops == [] {
      assert AllStops(stops, requested, [])[..0] == [];
    } else {
      var k := |hops| - 1;
      var before, more := AllStops(stops, requested, hops[..k]), HopStops(hops[k], stops[k + 1].lineId);
      assert AllStops(stops, requested, hops) == before + more;
      hide AllStops, UserStops, ShowChoice;
      JourneyPrefix(tt, day, m, stops, requested, hops);
      ErasedStopsAre(tt, day, m, stops, requested, hops[..k]);
      var stop := UserStopsOfStage(tt, day, m, stops, requested, hops, k);
      UserStopsJoin(before, more);
      ShowNext(m, stops, hops, UserStops(before), stop);
    }
  }

  /** Setting the first time changes no station. */
  lemma {:induction false} FirstTimeKeepsStations(s: seq<Stop>, time: Option<string>, minute: Option<int>)
    requires s != []
    ensures AsInputs(UserStops(s[0 := s[0].(time := time, minute := minute)])) == AsInputs(UserStops(s))
  {
    var t, n := s[0 := s[0].(time := time, minute := minute)], |s| - 1;
    if n > 0 {
      assert t[..n] == s[..n][0 := s[..n][0].(time := time, minute := minute)];
      FirstTimeKeepsStations(s[..n], time, minute);
      assert t[n] == s[n];
    } else {
      assert t[..0] == [] && s[..0] == [];
    }
  }

  /** Every chosen name that the schedule replaces is the map's anyway. */
  predicate NamesAgree(m: LineMapData, stops: seq<StopInput>, hops: seq<Hop>)
    requires |hops| < |stops|
  {
    forall k :: 0 <= k < |hops| && stops[k].id in m.stations && stops[k + 1].id in m.stations
                && TakesMapName(m, stops[k].id, stops[k + 1].id, hops[k])
      ==> stops[k + 1].name == m.stations[stops[k + 1].id].name
  }

  /** Deleting the transfers of a schedule gives back the chosen stations, with ids, names and line ids, exactly if
      every station reached by a change of trains was chosen under the map's name. */
  lemma ErasingTransfersGivesTheChoiceExactly(tt: Timetables, day: DayType, m: LineMapData, stops: seq<StopInput>,
                                              requested: int, hops: seq<Hop>, schedule: RouteSchedule)
    requires WellFormed(m) && Journey(tt, day, m, stops, requested, hops) && |hops| + 1 == |stops|
    requires forall k :: 0 <= k < |hops| ==> hops[k].stops != []
    requires IsScheduleOf(stops, requested, day, hops, schedule)
    ensures AsInputs(UserStops(schedule.stops)) == stops <==> NamesAgree(m, stops, hops)
  {
    var all := AllStops(stops, requested, hops);
    hide Journey, AllStops, UserStops, FormatClock, WellFormed, ShowChoice, NamesAgree;
    ErasedStopsAre(tt, day, m, stops, requested, hops);
    FirstTimeKeepsStations(all, schedule.stops[0].time, schedule.stops[0].minute);
    assert schedule.stops
        == all[0 := all[0].(time := schedule.stops[0].time, minute := schedule.stops[0].minute)];
    hide IsScheduleOf;
    ShownIsChosenExactly(m, stops, hops, UserStops(all));
  }

  lemma ShownIsChosenExactly(m: LineMapData, stops: seq<StopInput>, hops: seq<Hop>, shown: seq<Stop>)
    requires |hops| + 1 == |stops| && ShowChoice(m, stops, hops, shown)
    ensures AsInputs(shown) == stops <==> NamesAgree(m, stops, hops)
  {
    hide TakesMapName;
    assert forall k :: 0 <= k < |stops| ==> AsInputs(shown)[k] == ShownInput(m, stops, hops, k);
    if NamesAgree(m, stops, hops) {
      forall k | 0 <= k < |stops|
        ensures AsInputs(shown)[k] == stops[k]
      {
        if k > 0 {
          assert stops[k - 1 + 1] == stops[k];
        }
      }
      assert AsInputs(shown) == stops;
    } else {
      var k :| 0 <= k < |hops| && stops[k].id in m.stations && stops[k + 1].id in m.stations
            && TakesMapName(m, stops[k].id, stops[k + 1].id, hops[k])
            && stops[k + 1].name != m.stations[stops[k + 1].id].name;
      assert AsInputs(shown)[k + 1] != stops[k + 1];
    }
  }

  /** It does where all stations were chosen under the map's names. */
  lemma MapNamesAreKept(tt: Timetables, day: DayType, m: LineMapData, stops: seq<StopInput>, requested: int,
                        hops: seq<Hop>, schedule: RouteSchedule)
    requires WellFormed(m) && Journey(tt, day, m, stops, requested, hops) && |hops| + 1 == |stops|
    requires forall k :: 0 <= k < |hops| ==> hops[k].stops != []
    requires IsScheduleOf(stops, requested, day, hops, schedule)
    requires forall k :: 0 <= k < |stops| && stops[k].id in m.stations ==>
               stops[k].name == m.stations[stops[k].id].name
    ensures AsInputs(UserStops(schedule.stops)) == stops
  {
    ErasingTransfersGivesTheChoiceExactly(tt, day, m, stops, requested, hops, schedule);
  }
}
