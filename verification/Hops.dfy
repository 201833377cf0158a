/** One stage of a route: the direct train, the best one-transfer itinerary, or the bare path (transitTimetable.ts). */
module Hops {
  import opened Wrappers
  import opened Clock
  import opened StableSort
  import opened LineMap
  import opened Trains

  /** A leg; the last six fields are null when only the path is known. */
  datatype Leg = Leg(fromStationId: StationId, toStationId: StationId, line: RealLine,
                     trainNo: Option<string>, direction: Option<Direction>,
                     departureTime: Option<string>, arrivalTime: Option<string>,
                     departureMinute: Option<int>, arrivalMinute: Option<int>)

  datatype Stop = Stop(id: StationId, name: string, lineId: string, time: Option<string>, minute: Option<int>,
                       isTransfer: bool)

  datatype Hop = Hop(legs: seq<Leg>, stops: seq<Stop>, arrivalMinute: int, timed: bool)

  /** Minutes allowed for changing trains. */
  const TRANSFER_MINUTES := 2

  // ---------- Shared lines and transfer stations ----------

  function SharedAmong(raws: seq<int>, to: Station): (shared: seq<int>)
    ensures forall raw :: raw in shared <==> raw in raws && raw in to.rawLineIds
  {
    if raws == [] then [] else (if raws[0] in to.rawLineIds then [raws[0]] else []) + SharedAmong(raws[1..], to)
  }

  function SharedRawLineIds(from: Station, to: Station): seq<int> {
    SharedAmong(from.rawLineIds, to)
  }

  predicate SharesLine(a: Station, b: Station) {
    exists raw :: raw in a.rawLineIds && raw in b.rawLineIds
  }

  predicate IsTransferStation(from: Station, to: Station, station: Station) {
    station.stationId != from.stationId && station.stationId != to.stationId
    && SharesLine(station, from) && SharesLine(station, to)
  }

  function TransfersAmong(order: seq<StationId>, from: Station, to: Station, m: LineMapData): (found: seq<Station>)
    requires forall id :: id in order ==> id in m.stations
    ensures forall station :: station in found <==>
              exists id :: id in order && m.stations[id] == station && IsTransferStation(from, to, station)
  {
    if order == [] then [] else
      var station := m.stations[order[0]];
      assert order == [order[0]] + order[1..];
      (if IsTransferStation(from, to, station) then [station] else []) + TransfersAmong(order[1..], from, to, m)
  }

  function FindTransferCandidates(from: Station, to: Station, m: LineMapData): seq<Station>
    requires WellFormed(m)
  {
    TransfersAmong(m.order, from, to, m)
  }

  function LineOf(station: Station, rawLineId: int): RealLine
    requires RealLineOf(rawLineId).Some? || station.lines != []
  {
    if RealLineOf(rawLineId).Some? then RealLineOf(rawLineId).value else station.lines[0]
  }

  // ---------- The best train over the shared lines ----------

  datatype Attempt = Attempt(rawLineId: int, train: Train)

  function Attempts(tt: Timetables, a: StationId, b: StationId, raws: seq<int>, earliestMinute: int,
                    day: DayType): seq<Attempt>
  {
    if raws == [] then [] else
      var next := NextTrain(tt, a, b, raws[0], earliestMinute, day);
      (if next.Some? then [Attempt(raws[0], next.value)] else []) + Attempts(tt, a, b, raws[1..], earliestMinute, day)
  }

  function ArrivalKey(attempt: Attempt): Key {
    Key(attempt.train.arrivalMinute, 0)
  }

  /** Of the next trains of the lines the one that arrives first. */
  function BestAttempt(tt: Timetables, a: StationId, b: StationId, raws: seq<int>, earliestMinute: int,
                       day: DayType): Option<Attempt>
  {
    var attempts := Attempts(tt, a, b, raws, earliestMinute, day);
    if attempts == [] then None else
      SortedHead(attempts, ArrivalKey);
      Some(SortBy(attempts, ArrivalKey)[0])
  }

  // ---------- Hops ----------

  function TimedLeg(from: Station, toId: StationId, attempt: Attempt): Leg
    requires RealLineOf(attempt.rawLineId).Some? || from.lines != []
  {
    var t := attempt.train;
    Leg(from.stationId, toId, LineOf(from, attempt.rawLineId), Some(t.trainNo), Some(t.direction),
        Some(FormatClock(t.departureMinute)), Some(FormatClock(t.arrivalMinute)),
        Some(t.departureMinute), Some(t.arrivalMinute))
  }

  function TimedStop(id: StationId, name: string, minute: int, isTransfer: bool): Stop {
    Stop(id, name, "", Some(FormatClock(minute)), Some(minute), isTransfer)
  }

  lemma {:induction false} AttemptsAreNextTrains(tt: Timetables, a: StationId, b: StationId, raws: seq<int>,
                                                 earliestMinute: int, day: DayType, attempt: Attempt)
    ensures attempt in Attempts(tt, a, b, raws, earliestMinute, day)
       <==> attempt.rawLineId in raws && NextTrain(tt, a, b, attempt.rawLineId, earliestMinute,
                                                   day) == Some(attempt.train)
  {
    hide NextTrain;
    if raws != [] {
      assert raws == [raws[0]] + raws[1..];
      AttemptsAreNextTrains(tt, a, b, raws[1..], earliestMinute, day, attempt);
    }
  }

  /** The best attempt is the next train of one of the lines, and no line's next train arrives before it. */
  lemma BestAttemptIsBest(tt: Timetables, a: StationId, b: StationId, raws: seq<int>, earliestMinute: int, day: DayType)
    ensures var best := BestAttempt(tt, a, b, raws, earliestMinute, day);
      && (best.Some? ==> (&& best.value.rawLineId in raws
                          && NextTrain(tt, a, b, best.value.rawLineId, earliestMinute, day) == Some(best.value.train)))
      && (forall raw :: raw in raws && NextTrain(tt, a, b, raw, earliestMinute, day).Some?
           ==> best.Some? && best.value.train.arrivalMinute <= NextTrain(tt, a, b, raw, earliestMinute,
                                                                         day).value.arrivalMinute)
  {
    hide NextTrain;
    var attempts := Attempts(tt, a, b, raws, earliestMinute, day);
    if attempts != [] {
      SortedHead(attempts, ArrivalKey);
      AttemptsAreNextTrains(tt, a, b, raws, earliestMinute, day, SortBy(attempts, ArrivalKey)[0]);
    }
    forall raw | raw in raws && NextTrain(tt, a, b, raw, earliestMinute, day).Some?
      ensures attempts != []
      ensures BestAttempt(tt, a, b, raws, earliestMinute, day).value.train.arrivalMinute
           <= NextTrain(tt, a, b, raw, earliestMinute, day).value.arrivalMinute
    {
      var attempt := Attempt(raw, NextTrain(tt, a, b, raw, earliestMinute, day).value);
      AttemptsAreNextTrains(tt, a, b, raws, earliestMinute, day, attempt);
      assert ArrivalKey(SortBy(attempts, ArrivalKey)[0]).Leq(ArrivalKey(attempt));
    }
  }

  lemma BestAttemptIsOnALine(tt: Timetables, a: Station, b: Station, earliestMinute: int, day: DayType)
    requires OnKnownLines(a)
    ensures var best := BestAttempt(tt, a.stationId, b.stationId, SharedRawLineIds(a, b), earliestMinute, day);
            best.Some? ==> RealLineOf(best.value.rawLineId).Some?
  {
    BestAttemptIsBest(tt, a.stationId, b.stationId, SharedRawLineIds(a, b), earliestMinute, day);
  }

  /** from to transfer to to, two trains with at least the transfer time between them; None where either is missing. */
  function TryTransferVia(tt: Timetables, from: Station, transfer: Station, to: Station, earliestMinute: int,
                          day: DayType): Option<Hop>
    requires OnKnownLines(from) && OnKnownLines(transfer)
  {
    var first := BestAttempt(tt, from.stationId, transfer.stationId, SharedRawLineIds(from, transfer), earliestMinute,
                             day);
    if first.None? then None else
      var firstTrain := first.value.train;
      var second := BestAttempt(tt, transfer.stationId, to.stationId, SharedRawLineIds(transfer, to),
                                firstTrain.arrivalMinute + TRANSFER_MINUTES, day);
      if second.None? then None else
        var secondTrain := second.value.train;
        BestAttemptIsOnALine(tt, from, transfer, earliestMinute, day);
        BestAttemptIsOnALine(tt, transfer, to, firstTrain.arrivalMinute + TRANSFER_MINUTES, day);
        Some(Hop([TimedLeg(from, transfer.stationId, first.value), TimedLeg(transfer, to.stationId, second.value)],
                 [TimedStop(transfer.stationId, transfer.name, firstTrain.arrivalMinute, true),
                  TimedStop(to.stationId, to.name, secondTrain.arrivalMinute, false)],
                 secondTrain.arrivalMinute, true))
  }

  function DirectHop(tt: Timetables, from: Station, to: Station, toName: string, earliestMinute: int,
                     day: DayType): Option<Hop>
    requires OnKnownLines(from)
  {
    var direct := BestAttempt(tt, from.stationId, to.stationId, SharedRawLineIds(from, to), earliestMinute, day);
    if direct.None? then None else
      BestAttemptIsOnALine(tt, from, to, earliestMinute, day);
      var arrivalMinute := direct.value.train.arrivalMinute;
      Some(Hop([TimedLeg(from, to.stationId, direct.value)], [TimedStop(to.stationId, toName, arrivalMinute, false)],
               arrivalMinute, true))
  }

  function HopArrivalKey(hop: Hop): Key {
    Key(hop.arrivalMinute, 0)
  }

  function TransferHops(tt: Timetables, from: Station, transfers: seq<Station>, to: Station, earliestMinute: int,
                        day: DayType): seq<Hop>
    requires OnKnownLines(from) && forall transfer :: transfer in transfers ==> OnKnownLines(transfer)
  {
    if transfers == [] then [] else
      var hop := TryTransferVia(tt, from, transfers[0], to, earliestMinute, day);
      (if hop.Some? then [hop.value] else []) + TransferHops(tt, from, transfers[1..], to, earliestMinute, day)
  }

  lemma CandidatesAreOnKnownLines(from: Station, to: Station, m: LineMapData)
    requires WellFormed(m)
    ensures forall transfer :: transfer in FindTransferCandidates(from, to, m) ==> OnKnownLines(transfer)
  {
  }

  /** Of the itineraries over all transfer stations the one that arrives first. */
  function BestTransfer(tt: Timetables, from: Station, to: Station, earliestMinute: int, day: DayType,
                        m: LineMapData): Option<Hop>
    requires WellFormed(m) && OnKnownLines(from)
  {
    CandidatesAreOnKnownLines(from, to, m);
    var hops := TransferHops(tt, from, FindTransferCandidates(from, to, m), to, earliestMinute, day);
    if hops == [] then None else
      SortedHead(hops, HopArrivalKey);
      Some(SortBy(hops, HopArrivalKey)[0])
  }

  /** Transfers are tried only between stations that share no raw line. */
  function TimedHop(tt: Timetables, from: Station, to: Station, toName: string, earliestMinute: int, day: DayType,
                    m: LineMapData): Option<Hop>
    requires WellFormed(m) && OnKnownLines(from)
  {
    if SharedRawLineIds(from, to) != []
    then DirectHop(tt, from, to, toName, earliestMinute, day)
    else BestTransfer(tt, from, to, earliestMinute, day, m)
  }
}
