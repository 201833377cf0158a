/** When the planner's choice of trains is the fastest there is. */
module Itineraries {
  import opened Wrappers
  import opened Clock
  import opened StableSort
  import opened LineMap
  import opened Trains
  import opened Hops

  // ---------- One line ----------

  /** Whenever some train leaves before another, one that leaves with it also arrives no later than the other. */
  ghost predicate EarliestDepartureWins(tt: Timetables, a: StationId, b: StationId, raw: int, day: DayType) {
    forall t, u :: Rides(tt, a, b, raw, day, t) && Rides(tt, a, b, raw, day, u) && t.departureMinute < u.departureMinute
      ==> SomeWins(tt, a, b, raw, day, t.departureMinute, u.arrivalMinute)
  }

  ghost predicate SomeWins(tt: Timetables, a: StationId, b: StationId, raw: int, day: DayType, departure: int,
                           arrival: int)
  {
    exists r :: Rides(tt, a, b, raw, day, r) && r.departureMinute == departure && r.arrivalMinute <= arrival
  }

  /** No train overtakes another: a later departure never arrives earlier. */
  ghost predicate NoOvertaking(tt: Timetables, a: StationId, b: StationId, raw: int, day: DayType) {
    forall t, u :: Rides(tt, a, b, raw, day, t) && Rides(tt, a, b, raw, day, u) && t.departureMinute < u.departureMinute
      ==> t.arrivalMinute <= u.arrivalMinute
  }

  lemma NoOvertakingSuffices(tt: Timetables, a: StationId, b: StationId, raw: int, day: DayType)
    requires NoOvertaking(tt, a, b, raw, day)
    ensures EarliestDepartureWins(tt, a, b, raw, day)
  {
    forall t, u | Rides(tt, a, b, raw, day, t) && Rides(tt, a, b, raw, day, u) && t.departureMinute < u.departureMinute
      ensures SomeWins(tt, a, b, raw, day, t.departureMinute, u.arrivalMinute)
    {
      assert t.arrivalMinute <= u.arrivalMinute;
    }
  }

  /** From every minute on, the next train arrives no later than any other train. */
  ghost predicate NextTrainIsFastest(tt: Timetables, a: StationId, b: StationId, raw: int, day: DayType) {
    forall earliest, t :: Rides(tt, a, b, raw, day, t) && t.departureMinute >= earliest ==>
        NextTrainBeats(tt, a, b, raw, day, earliest, t)
  }

  ghost predicate NextTrainBeats(tt: Timetables, a: StationId, b: StationId, raw: int, day: DayType, earliest: int,
                                 t: Train)
  {
    var next := NextTrain(tt, a, b, raw, earliest, day);
    next.Some? && next.value.arrivalMinute <= t.arrivalMinute
  }

  lemma FastestWhenEarliestWins(tt: Timetables, a: StationId, b: StationId, raw: int, day: DayType, earliest: int,
                                t: Train)
    requires EarliestDepartureWins(tt, a, b, raw, day)
    requires Rides(tt, a, b, raw, day, t) && t.departureMinute >= earliest
    ensures NextTrainBeats(tt, a, b, raw, day, earliest, t)
  {
    hide NextTrain;
    NextTrainIsEarliest(tt, a, b, raw, earliest, day);
    var next := NextTrain(tt, a, b, raw, earliest, day).value;
    if next.departureMinute < t.departureMinute {
      assert SomeWins(tt, a, b, raw, day, next.departureMinute, t.arrivalMinute);
      var r :| Rides(tt, a, b, raw, day,
                     r) && r.departureMinute == next.departureMinute && r.arrivalMinute <= t.arrivalMinute;
      assert DepartureKey(next).Leq(DepartureKey(r));
    }
  }

  lemma EarliestWinsWhenFastest(tt: Timetables, a: StationId, b: StationId, raw: int, day: DayType, t: Train, u: Train)
    requires NextTrainIsFastest(tt, a, b, raw, day)
    requires Rides(tt, a, b, raw, day, t) && Rides(tt, a, b, raw, day, u) && t.departureMinute < u.departureMinute
    ensures SomeWins(tt, a, b, raw, day, t.departureMinute, u.arrivalMinute)
  {
    hide NextTrain;
    NextTrainIsEarliest(tt, a, b, raw, t.departureMinute, day);
    var next := NextTrain(tt, a, b, raw, t.departureMinute, day).value;
    assert DepartureKey(next).Leq(DepartureKey(t));
    assert NextTrainBeats(tt, a, b, raw, day, t.departureMinute, u);
  }

  /** Picking by departure is picking by arrival exactly on timetables where the earliest departure wins. */
  lemma NextTrainIsFastestExactly(tt: Timetables, a: StationId, b: StationId, raw: int, day: DayType)
    ensures NextTrainIsFastest(tt, a, b, raw, day) <==> EarliestDepartureWins(tt, a, b, raw, day)
  {
    if NextTrainIsFastest(tt, a, b, raw, day) {
      forall t, u | Rides(tt, a, b, raw, day, t) && Rides(tt, a, b, raw, day,
                                                          u) && t.departureMinute < u.departureMinute
        ensures SomeWins(tt, a, b, raw, day, t.departureMinute, u.arrivalMinute)
      {
        EarliestWinsWhenFastest(tt, a, b, raw, day, t, u);
      }
    }
    if EarliestDepartureWins(tt, a, b, raw, day) {
      forall earliest, t | Rides(tt, a, b, raw, day, t) && t.departureMinute >= earliest
        ensures NextTrainBeats(tt, a, b, raw, day, earliest, t)
      {
        FastestWhenEarliestWins(tt, a, b, raw, day, earliest, t);
      }
    }
  }

  /** A local train at 10:00 that an express leaving at 10:10 overtakes by fifty minutes. */
  function OvertakenDepartures(): seq<Row> {
    [Row(Some("L"), None, Some(FormatClock(600))), Row(Some("X"), None, Some(FormatClock(610)))]
  }

  function OvertakenArrivals(): seq<Row> {
    [Row(Some("L"), Some(FormatClock(700)), None), Row(Some("X"), Some(FormatClock(650)), None)]
  }

  lemma OvertakenRides(t: Train)
    ensures IsRide(OvertakenDepartures(), OvertakenArrivals(), Train("L", t.direction, 600, 700))
    ensures IsRide(OvertakenDepartures(), OvertakenArrivals(), Train("X", t.direction, 610, 650))
    ensures IsRide(OvertakenDepartures(), OvertakenArrivals(), t) && t.departureMinute == 600 ==> t.arrivalMinute == 700
  {
    hide FormatClock, ParseClock;
    ParseFormatClock(600);
    ParseFormatClock(610);
    ParseFormatClock(700);
    ParseFormatClock(650);
    var from, to := OvertakenDepartures(), OvertakenArrivals();
    assert DepartsAt(from[0], "L", 600) && DepartsAt(from[1], "X", 610);
    assert ArrivesAt(to[0], "L", 700) && ArrivesAt(to[1], "X", 650);
    assert SomeArrives(to, "L", 700) && SomeArrives(to, "X", 650);
  }

  /** Where a train is overtaken, the planner's train is not the fastest one. */
  lemma OvertakingMisleads(a: StationId, b: StationId)
    requires a != b
    ensures exists tt: Timetables, express ::
              && Rides(tt, a, b, 1, Weekday, express) && express.departureMinute >= 600
              && NextTrain(tt, a, b, 1, 600, Weekday).Some?
              && NextTrain(tt, a, b, 1, 600, Weekday).value.arrivalMinute > express.arrivalMinute
  {
    hide NextTrain, IsRide;
    var tt: Timetables := (s: StationId, raw: int, day: DayType, direction: Direction) =>
      if s == a then OvertakenDepartures() else OvertakenArrivals();
    var local, express := Train("L", Up, 600, 700), Train("X", Up, 610, 650);
    OvertakenRides(local);
    OvertakenRides(express);
    assert Rides(tt, a, b, 1, Weekday, local) && Rides(tt, a, b, 1, Weekday, express);
    NextTrainIsEarliest(tt, a, b, 1, 600, Weekday);
    var next := NextTrain(tt, a, b, 1, 600, Weekday);
    assert DepartureKey(next.value).Leq(DepartureKey(local));
    OvertakenRides(next.value);
  }

  // ---------- All shared lines ----------

  /** t runs between the two stations, on a raw line that both have, from the earliest minute on. */
  ghost predicate Connects(tt: Timetables, a: Station, b: Station, day: DayType, earliest: int, raw: int, t: Train) {
    raw in a.rawLineIds && raw in b.rawLineIds && Rides(tt, a.stationId, b.stationId, raw, day,
                                                        t) && t.departureMinute >= earliest
  }

  ghost predicate EarliestWinsBetween(tt: Timetables, a: Station, b: Station, day: DayType) {
    forall raw :: raw in a.rawLineIds && raw in b.rawLineIds ==>
        EarliestDepartureWins(tt, a.stationId, b.stationId, raw, day)
  }

  function BestBetween(tt: Timetables, a: Station, b: Station, earliest: int, day: DayType): Option<Attempt> {
    BestAttempt(tt, a.stationId, b.stationId, SharedRawLineIds(a, b), earliest, day)
  }

  /** The best attempt is such a train, and exists whenever there is one; with no overtaking it is the fastest. */
  lemma BestBetweenIsFastest(tt: Timetables, a: Station, b: Station, earliest: int, day: DayType)
    ensures var best := BestBetween(tt, a, b, earliest, day);
      && (best.Some? ==> Connects(tt, a, b, day, earliest, best.value.rawLineId, best.value.train))
      && (forall raw, t :: Connects(tt, a, b, day, earliest, raw, t) ==> best.Some?)
      && (EarliestWinsBetween(tt, a, b, day) ==>
            forall raw, t :: Connects(tt, a, b, day, earliest, raw, t) ==>
                best.value.train.arrivalMinute <= t.arrivalMinute)
  {
    hide NextTrain, BestAttempt;
    var raws := SharedRawLineIds(a, b);
    BestAttemptIsBest(tt, a.stationId, b.stationId, raws, earliest, day);
    var best := BestBetween(tt, a, b, earliest, day);
    if best.Some? {
      NextTrainIsEarliest(tt, a.stationId, b.stationId, best.value.rawLineId, earliest, day);
    }
    forall raw, t | Connects(tt, a, b, day, earliest, raw, t)
      ensures best.Some?
      ensures EarliestWinsBetween(tt, a, b, day) ==> best.value.train.arrivalMinute <= t.arrivalMinute
    {
      NextTrainIsEarliest(tt, a.stationId, b.stationId, raw, earliest, day);
      if EarliestWinsBetween(tt, a, b, day) {
        FastestWhenEarliestWins(tt, a.stationId, b.stationId, raw, day, earliest, t);
      }
    }
  }

  lemma BestBetweenBeats(tt: Timetables, a: Station, b: Station, earliest: int, day: DayType, raw: int, t: Train)
    requires EarliestWinsBetween(tt, a, b, day) && Connects(tt, a, b, day, earliest, raw, t)
    ensures var best := BestBetween(tt, a, b, earliest,
                                    day); best.Some? && best.value.train.arrivalMinute <= t.arrivalMinute
  {
    hide BestBetween;
    BestBetweenIsFastest(tt, a, b, earliest, day);
  }

  lemma BestBetweenConnects(tt: Timetables, a: Station, b: Station, earliest: int, day: DayType)
    ensures var best := BestBetween(tt, a, b, earliest, day);
      best.Some? ==> Connects(tt, a, b, day, earliest, best.value.rawLineId, best.value.train)
  {
    hide BestBetween;
    BestBetweenIsFastest(tt, a, b, earliest, day);
  }

  // ---------- One transfer ----------

  /** Two trains over one transfer station, with two minutes or more between them. */
  datatype Itinerary = Itinerary(transfer: Station, firstLine: int, first: Train, secondLine: int, second: Train)

  ghost predicate IsItinerary(tt: Timetables, from: Station, to: Station, earliest: int, day: DayType, i: Itinerary) {
    && Connects(tt, from, i.transfer, day, earliest, i.firstLine, i.first)
    && Connects(tt, i.transfer, to, day, i.first.arrivalMinute + 2, i.secondLine, i.second)
  }

  /** The hop shows exactly the two trains of the itinerary. */
  ghost predicate Shows(hop: Hop, from: Station, to: Station, i: Itinerary) {
    && hop.timed && |hop.legs| == 2 && hop.arrivalMinute == i.second.arrivalMinute
    && RealLineOf(i.firstLine).Some? && RealLineOf(i.secondLine).Some?
    && hop.legs[0] == TimedLeg(from, i.transfer.stationId, Attempt(i.firstLine, i.first))
    && hop.legs[1] == TimedLeg(i.transfer, to.stationId, Attempt(i.secondLine, i.second))
  }

  /** What is found over one transfer station is an itinerary over it. */
  lemma TransferIsItinerary(tt: Timetables, from: Station, transfer: Station, to: Station, earliest: int, day: DayType)
    requires OnKnownLines(from) && OnKnownLines(transfer)
    ensures var hop := TryTransferVia(tt, from, transfer, to, earliest, day);
            hop.Some? ==>
              exists i: Itinerary ::
                i.transfer == transfer && IsItinerary(tt, from, to, earliest, day, i) && Shows(hop.value, from, to, i)
  {
    hide BestAttempt, Rides, FormatClock;
    var hop := TryTransferVia(tt, from, transfer, to, earliest, day);
    if hop.Some? {
      var first := BestBetween(tt, from, transfer, earliest, day).value;
      BestBetweenConnects(tt, from, transfer, earliest, day);
      var second := BestBetween(tt, transfer, to, first.train.arrivalMinute + TRANSFER_MINUTES, day).value;
      BestBetweenConnects(tt, transfer, to, first.train.arrivalMinute + TRANSFER_MINUTES, day);
      var i := Itinerary(transfer, first.rawLineId, first.train, second.rawLineId, second.train);
      assert IsItinerary(tt, from, to, earliest, day, i) && Shows(hop.value, from, to, i);
    }
  }

  /** With no overtaking on either side, the transfer station yields an itinerary that no other over it beats. */
  lemma TransferIsFastest(tt: Timetables, from: Station, to: Station, earliest: int, day: DayType, i: Itinerary)
    requires OnKnownLines(from) && OnKnownLines(i.transfer)
    requires EarliestWinsBetween(tt, from, i.transfer, day) && EarliestWinsBetween(tt, i.transfer, to, day)
    requires IsItinerary(tt, from, to, earliest, day, i)
    ensures var hop := TryTransferVia(tt, from, i.transfer, to, earliest, day);
      hop.Some? && hop.value.arrivalMinute <= i.second.arrivalMinute
  {
    hide BestAttempt, Rides, EarliestWinsBetween, FormatClock;
    BestBetweenBeats(tt, from, i.transfer, earliest, day, i.firstLine, i.first);
    var first := BestBetween(tt, from, i.transfer, earliest, day).value.train;
    BestBetweenBeats(tt, i.transfer, to, first.arrivalMinute + TRANSFER_MINUTES, day, i.secondLine, i.second);
  }

  lemma {:induction false} TransferHopsAreExact(tt: Timetables, from: Station, transfers: seq<Station>, to: Station,
                                                earliest: int, day: DayType, hop: Hop)
    requires OnKnownLines(from) && forall transfer :: transfer in transfers ==> OnKnownLines(transfer)
    ensures hop in TransferHops(tt, from, transfers, to, earliest, day)
       <==> exists transfer :: transfer in transfers && TryTransferVia(tt, from, transfer, to, earliest,
                                                                       day) == Some(hop)
  {
    hide TryTransferVia;
    if transfers != [] {
      assert transfers == [transfers[0]] + transfers[1..];
      TransferHopsAreExact(tt, from, transfers[1..], to, earliest, day, hop);
    }
  }

  lemma BestTransferIsBest(tt: Timetables, from: Station, to: Station, earliest: int, day: DayType, m: LineMapData)
    requires WellFormed(m) && OnKnownLines(from)
    ensures var best := BestTransfer(tt, from, to, earliest, day, m);
      && (best.Some? ==> exists transfer :: transfer in FindTransferCandidates(from, to, m) && OnKnownLines(transfer)
                                         && TryTransferVia(tt, from, transfer, to, earliest, day) == best)
      && (forall transfer :: transfer in FindTransferCandidates(from, to, m) && OnKnownLines(transfer)
                          && TryTransferVia(tt, from, transfer, to, earliest, day).Some?
            ==> best.Some? && best.value.arrivalMinute <= TryTransferVia(tt, from, transfer, to, earliest,
                                                                         day).value.arrivalMinute)
  {
    hide TryTransferVia;
    var transfers := FindTransferCandidates(from, to, m);
    CandidatesAreOnKnownLines(from, to, m);
    var hops := TransferHops(tt, from, transfers, to, earliest, day);
    if hops != [] {
      SortedHead(hops, HopArrivalKey);
      TransferHopsAreExact(tt, from, transfers, to, earliest, day, SortBy(hops, HopArrivalKey)[0]);
    }
    forall transfer | transfer in transfers && TryTransferVia(tt, from, transfer, to, earliest, day).Some?
      ensures hops != []
      ensures SortBy(hops, HopArrivalKey)[0].arrivalMinute
              <= TryTransferVia(tt, from, transfer, to, earliest, day).value.arrivalMinute
    {
      var hop := TryTransferVia(tt, from, transfer, to, earliest, day).value;
      TransferHopsAreExact(tt, from, transfers, to, earliest, day, hop);
      assert HopArrivalKey(SortBy(hops, HopArrivalKey)[0]).Leq(HopArrivalKey(hop));
    }
  }

  /** An itinerary over some transfer candidate of the map. */
  ghost predicate IsRoute(tt: Timetables, from: Station, to: Station, earliest: int, day: DayType, m: LineMapData,
                          i: Itinerary)
    requires WellFormed(m)
  {
    i.transfer in FindTransferCandidates(from, to, m) && IsItinerary(tt, from, to, earliest, day, i)
  }

  ghost predicate EarliestWinsAround(tt: Timetables, from: Station, to: Station, day: DayType, m: LineMapData)
    requires WellFormed(m)
  {
    forall transfer :: transfer in FindTransferCandidates(from, to, m)
      ==> EarliestWinsBetween(tt, from, transfer, day) && EarliestWinsBetween(tt, transfer, to, day)
  }

  /** Between stations that share no raw line, where no train overtakes another: the timed hop exists exactly when
      some two-train itinerary does, it is one of them, and none of them arrives earlier. */
  lemma TimedTransferIsFastest(tt: Timetables, from: Station, to: Station, toName: string, earliest: int,
                               day: DayType, m: LineMapData)
    requires WellFormed(m) && OnKnownLines(from) && SharedRawLineIds(from, to) == []
    requires EarliestWinsAround(tt, from, to, day, m)
    ensures var hop := TimedHop(tt, from, to, toName, earliest, day, m);
      && (hop.Some? <==> exists i: Itinerary :: IsRoute(tt, from, to, earliest, day, m, i))
      && (hop.Some? ==>
            exists i: Itinerary :: IsRoute(tt, from, to, earliest, day, m, i) && Shows(hop.value, from, to, i))
      && (forall i: Itinerary :: IsRoute(tt, from, to, earliest, day, m, i) ==>
           hop.Some? && hop.value.arrivalMinute <= i.second.arrivalMinute)
  {
    hide TryTransferVia, BestTransfer, EarliestWinsBetween, IsItinerary, Shows;
    CandidatesAreOnKnownLines(from, to, m);
    BestTransferIsBest(tt, from, to, earliest, day, m);
    var best := BestTransfer(tt, from, to, earliest, day, m);
    if best.Some? {
      var transfer :| transfer in FindTransferCandidates(from, to, m) && OnKnownLines(transfer)
                   && TryTransferVia(tt, from, transfer, to, earliest, day) == best;
      TransferIsItinerary(tt, from, transfer, to, earliest, day);
      var i: Itinerary :| i.transfer == transfer && IsItinerary(tt, from, to, earliest, day, i) &&
          Shows(best.value, from, to, i);
      assert IsRoute(tt, from, to, earliest, day, m, i);
    }
    forall i: Itinerary | IsRoute(tt, from, to, earliest, day, m, i)
      ensures best.Some? && best.value.arrivalMinute <= i.second.arrivalMinute
    {
      TransferIsFastest(tt, from, to, earliest, day, i);
    }
  }
}
