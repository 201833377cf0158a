/** Finding the next train between two stations of one raw line by matching train numbers
    across their timetables (transitTimetable.ts). */
module Trains {
  import opened Wrappers
  import opened Clock
  import opened StableSort
  import opened LineMap

  datatype DayType = Weekday | Weekend

  datatype Direction = Up | Down

  datatype Row = Row(trainNo: Option<string>, arrivalTime: Option<string>, departureTime: Option<string>)

  /** What the timetable API answers for a station, raw line, day type and direction. */
  type Timetables = (StationId, int, DayType, Direction) -> seq<Row>

  datatype Train = Train(trainNo: string, direction: Direction, departureMinute: int, arrivalMinute: int)

  /** The longest ride that a match of train numbers is believed for. */
  const MAX_LEG_MINUTES := 180

  // ---------- Rides, declaratively ----------

  /** The row belongs to a numbered train: neither null nor the empty text. */
  predicate IsNumbered(row: Row) {
    row.trainNo.Some? && row.trainNo.value != ""
  }

  function DepartureOf(row: Row): Option<int> {
    ParseClock(if row.departureTime.Some? then row.departureTime else row.arrivalTime)
  }

  function ArrivalOf(row: Row): Option<int> {
    ParseClock(if row.arrivalTime.Some? then row.arrivalTime else row.departureTime)
  }

  /** The train leaves at the row's departure time; its arrival time counts only where there is no departure time. */
  predicate DepartsAt(row: Row, trainNo: string, minute: int) {
    && row.trainNo == Some(trainNo) && trainNo != ""
    && if row.departureTime.Some? then ParseClock(row.departureTime) == Some(minute)
       else row.arrivalTime.Some? && ParseClock(row.arrivalTime) == Some(minute)
  }

  /** The train arrives at the row's arrival time; its departure time counts only where there is no arrival time. */
  predicate ArrivesAt(row: Row, trainNo: string, minute: int) {
    && row.trainNo == Some(trainNo) && trainNo != ""
    && if row.arrivalTime.Some? then ParseClock(row.arrivalTime) == Some(minute)
       else row.departureTime.Some? && ParseClock(row.departureTime) == Some(minute)
  }

  lemma RowTimes(row: Row, trainNo: string, minute: int)
    ensures DepartsAt(row, trainNo, minute)
       <==> IsNumbered(row) && row.trainNo.value == trainNo && DepartureOf(row) == Some(minute)
    ensures ArrivesAt(row, trainNo, minute)
       <==> IsNumbered(row) && row.trainNo.value == trainNo && ArrivalOf(row) == Some(minute)
  {
    hide MatchClock, DigitsValue, IsSixty, IsTail;
  }

  ghost predicate SomeDeparts(fromRows: seq<Row>, trainNo: string, minute: int) {
    exists row :: row in fromRows && DepartsAt(row, trainNo, minute)
  }

  ghost predicate SomeArrives(toRows: seq<Row>, trainNo: string, raw: int) {
    exists row :: row in toRows && ArrivesAt(row, trainNo, raw)
  }

  /** The first minute after `departure` that shows the same clock as `raw`, or `raw` itself when it is later. */
  function LiftPast(raw: int, departure: int): (arrival: int)
    ensures arrival > departure && (arrival - raw) % 1440 == 0
    ensures arrival == raw || raw < arrival <= departure + 1440
  {
    if raw > departure then raw else departure + MINUTES_PER_DAY - (departure - raw) % MINUTES_PER_DAY
  }

  /** The two timetables show this train leaving one station and reaching the other within three hours. */
  ghost predicate IsRide(fromRows: seq<Row>, toRows: seq<Row>, t: Train) {
    && SomeDeparts(fromRows, t.trainNo, t.departureMinute)
    && (exists raw :: SomeArrives(toRows, t.trainNo, raw) && t.arrivalMinute == LiftPast(raw, t.departureMinute))
    && t.arrivalMinute - t.departureMinute <= 180
  }

  ghost predicate Rides(tt: Timetables, a: StationId, b: StationId, rawLineId: int, day: DayType, t: Train) {
    IsRide(tt(a, rawLineId, day, t.direction), tt(b, rawLineId, day, t.direction), t)
  }

  // ---------- The matches, in the order in which they are collected ----------

  function ArrivalsOf(toRows: seq<Row>, trainNo: string): seq<int> {
    if toRows == [] then [] else
      var row := toRows[|toRows| - 1];
      ArrivalsOf(toRows[..|toRows| - 1], trainNo)
      + (if IsNumbered(row) && row.trainNo.value == trainNo && ArrivalOf(row).Some? then [ArrivalOf(row).value] else [])
  }

  function Pairings(trainNo: string, direction: Direction, departure: int, raws: seq<int>): seq<Train> {
    if raws == [] then [] else
      var arrival := LiftPast(raws[|raws| - 1], departure);
      Pairings(trainNo, direction, departure, raws[..|raws| - 1])
      + (if arrival - departure > MAX_LEG_MINUTES then [] else [Train(trainNo, direction, departure, arrival)])
  }

  function MatchesOfRow(row: Row, toRows: seq<Row>, direction: Direction, earliestMinute: int): seq<Train> {
    if IsNumbered(row) && DepartureOf(row).Some? && DepartureOf(row).value >= earliestMinute
    then Pairings(row.trainNo.value, direction, DepartureOf(row).value, ArrivalsOf(toRows, row.trainNo.value))
    else []
  }

  function Matches(fromRows: seq<Row>, toRows: seq<Row>, direction: Direction, earliestMinute: int): seq<Train> {
    if fromRows == [] then [] else
      Matches(fromRows[..|fromRows| - 1], toRows, direction, earliestMinute)
      + MatchesOfRow(fromRows[|fromRows| - 1], toRows, direction, earliestMinute)
  }

  function DepartureKey(t: Train): Key {
    Key(t.departureMinute, t.arrivalMinute)
  }

  function Candidates(tt: Timetables, a: StationId, b: StationId, rawLineId: int, earliestMinute: int,
                      day: DayType): seq<Train>
  {
    Matches(tt(a, rawLineId, day, Up), tt(b, rawLineId, day, Up), Up, earliestMinute)
    + Matches(tt(a, rawLineId, day, Down), tt(b, rawLineId, day, Down), Down, earliestMinute)
  }

  /** The earliest departure, among equals the earliest arrival. */
  function NextTrain(tt: Timetables, a: StationId, b: StationId, rawLineId: int, earliestMinute: int,
                     day: DayType): Option<Train>
  {
    var candidates := Candidates(tt, a, b, rawLineId, earliestMinute, day);
    if candidates == [] then None else
      SortedHead(candidates, DepartureKey);
      Some(SortBy(candidates, DepartureKey)[0])
  }

  // ---------- The collected matches are the rides ----------

  lemma SomeArrivesSplit(init: seq<Row>, last: Row, trainNo: string, raw: int)
    ensures SomeArrives(init + [last], trainNo, raw) <==>
              SomeArrives(init, trainNo, raw) || ArrivesAt(last, trainNo, raw)
  {
    assert last in init + [last];
    assert forall row :: row in init ==> row in init + [last];
  }

  lemma {:induction false} ArrivalsOfIsExact(toRows: seq<Row>, trainNo: string, raw: int)
    ensures raw in ArrivalsOf(toRows, trainNo) <==> SomeArrives(toRows, trainNo, raw)
  {
    hide ArrivalOf, ArrivesAt;
    if toRows != [] {
      RowTimes(toRows[|toRows| - 1], trainNo, raw);
      var init, last := toRows[..|toRows| - 1], toRows[|toRows| - 1];
      ArrivalsOfIsExact(init, trainNo, raw);
      SomeArrivesSplit(init, last, trainNo, raw);
      assert toRows == init + [last];
    }
  }

  lemma {:induction false} PairingsAreExact(trainNo: string, direction: Direction, departure: int, raws: seq<int>,
                                            t: Train)
    ensures t in Pairings(trainNo, direction, departure, raws) <==>
            (&& t.trainNo == trainNo && t.direction == direction && t.departureMinute == departure
             && t.arrivalMinute - departure <= MAX_LEG_MINUTES
             && exists raw :: raw in raws && t.arrivalMinute == LiftPast(raw, departure))
  {
    if raws != [] {
      var init, last := raws[..|raws| - 1], raws[|raws| - 1];
      PairingsAreExact(trainNo, direction, departure, init, t);
      assert raws == init + [last];
    }
  }

  lemma MatchesOfRowAreRides(row: Row, toRows: seq<Row>, direction: Direction, earliestMinute: int, t: Train)
    ensures t in MatchesOfRow(row, toRows, direction, earliestMinute) <==>
              IsMatch([row], toRows, direction, earliestMinute, t)
  {
    hide DepartureOf, ArrivalOf, ArrivalsOf, DepartsAt, ArrivesAt;
    RowTimes(row, t.trainNo, t.departureMinute);
    forall raw
      ensures raw in ArrivalsOf(toRows, t.trainNo) <==> SomeArrives(toRows, t.trainNo, raw)
    {
      ArrivalsOfIsExact(toRows, t.trainNo, raw);
    }
    if IsNumbered(row) && DepartureOf(row).Some? {
      PairingsAreExact(row.trainNo.value, direction, DepartureOf(row).value, ArrivalsOf(toRows, row.trainNo.value), t);
    }
    assert row in [row];
  }

  lemma IsRideSplit(fromRows: seq<Row>, init: seq<Row>, last: Row, toRows: seq<Row>, t: Train)
    requires fromRows == init + [last]
    ensures IsRide(fromRows, toRows, t) <==> IsRide(init, toRows, t) || IsRide([last], toRows, t)
  {
    assert last in fromRows && last in [last];
    assert forall row :: row in init ==> row in fromRows;
    assert SomeDeparts(fromRows, t.trainNo, t.departureMinute)
      <==> SomeDeparts(init, t.trainNo, t.departureMinute) || SomeDeparts([last], t.trainNo, t.departureMinute);
  }

  ghost predicate IsMatch(fromRows: seq<Row>, toRows: seq<Row>, direction: Direction, earliestMinute: int, t: Train) {
    t.direction == direction && t.departureMinute >= earliestMinute && IsRide(fromRows, toRows, t)
  }

  lemma MatchesOfLastRow(init: seq<Row>, last: Row, toRows: seq<Row>, direction: Direction, earliestMinute: int,
                         t: Train)
    ensures t in Matches(init + [last], toRows, direction, earliestMinute)
            <==> (t in Matches(init, toRows, direction, earliestMinute)
                  || IsMatch([last], toRows, direction, earliestMinute, t))
  {
    var fromRows := init + [last];
    assert fromRows[..|fromRows| - 1] == init && fromRows[|fromRows| - 1] == last;
    MatchesOfRowAreRides(last, toRows, direction, earliestMinute, t);
  }

  /** What is collected for one direction is exactly its rides from the earliest minute on. */
  lemma {:induction false} MatchesAreRides(fromRows: seq<Row>, toRows: seq<Row>, direction: Direction,
                                           earliestMinute: int, t: Train)
    ensures t in Matches(fromRows, toRows, direction, earliestMinute) <==>
              IsMatch(fromRows, toRows, direction, earliestMinute, t)
  {
    if fromRows != [] {
      var init, last := fromRows[..|fromRows| - 1], fromRows[|fromRows| - 1];
      assert fromRows == init + [last];
      MatchesAreRides(init, toRows, direction, earliestMinute, t);
      MatchesOfLastRow(init, last, toRows, direction, earliestMinute, t);
      IsRideSplit(fromRows, init, last, toRows, t);
    }
  }

  /** The next train is a ride from the earliest minute on, none departs before it, none that departs with
      it arrives before it; and there is one whenever there is such a ride. */
  lemma NextTrainIsEarliest(tt: Timetables, a: StationId, b: StationId, rawLineId: int, earliestMinute: int,
                            day: DayType)
    ensures var next := NextTrain(tt, a, b, rawLineId, earliestMinute, day);
      && (next.Some? <==> exists t :: Rides(tt, a, b, rawLineId, day, t) && t.departureMinute >= earliestMinute)
      && (next.Some? ==> Rides(tt, a, b, rawLineId, day, next.value) && next.value.departureMinute >= earliestMinute)
      && (forall t :: Rides(tt, a, b, rawLineId, day, t) && t.departureMinute >= earliestMinute
                  ==> next.Some? && DepartureKey(next.value).Leq(DepartureKey(t)))
  {
    var candidates := Candidates(tt, a, b, rawLineId, earliestMinute, day);
    forall t
      ensures t in candidates <==> Rides(tt, a, b, rawLineId, day, t) && t.departureMinute >= earliestMinute
    {
      MatchesAreRides(tt(a, rawLineId, day, Up), tt(b, rawLineId, day, Up), Up, earliestMinute, t);
      MatchesAreRides(tt(a, rawLineId, day, Down), tt(b, rawLineId, day, Down), Down, earliestMinute, t);
    }
    if candidates != [] {
      SortedHead(candidates, DepartureKey);
      assert candidates[0] in candidates;
    }
  }

  // ---------- The search itself ----------

  method LiftArrival(rawArrival: int, departureMinute: int) returns (arrivalMinute: int)
    ensures arrivalMinute == LiftPast(rawArrival, departureMinute)
  {
    arrivalMinute := rawArrival;
    while arrivalMinute <= departureMinute
      invariant arrivalMinute == rawArrival || rawArrival < arrivalMinute <= departureMinute + MINUTES_PER_DAY
      invariant (arrivalMinute - rawArrival) % MINUTES_PER_DAY == 0
      decreases departureMinute - arrivalMinute
    {
      arrivalMinute := arrivalMinute + MINUTES_PER_DAY;
    }
  }

  type Destinations = map<string, seq<int>>

  function ArrivalsKept(destinations: Destinations, trainNo: string): seq<int> {
    if trainNo in destinations then destinations[trainNo] else []
  }

  method CollectDestinations(toRows: seq<Row>) returns (destinations: Destinations)
    ensures forall trainNo :: ArrivalsKept(destinations, trainNo) == ArrivalsOf(toRows, trainNo)
  {
    destinations := map[];
    for i := 0 to |toRows|
      invariant forall trainNo :: ArrivalsKept(destinations, trainNo) == ArrivalsOf(toRows[..i], trainNo)
    {
      var row := toRows[i];
      assert toRows[..i + 1][..i] == toRows[..i];
      if IsNumbered(row) {
        var minute := ArrivalOf(row);
        if minute.Some? {
          destinations := destinations[row.trainNo.value := ArrivalsKept(destinations,
                                                                         row.trainNo.value) + [minute.value]];
        }
      }
    }
    assert toRows[..|toRows|] == toRows;
  }

  method PairArrivals(trainNo: string, direction: Direction, departureMinute: int,
                      raws: seq<int>) returns (matches: seq<Train>)
    ensures matches == Pairings(trainNo, direction, departureMinute, raws)
  {
    matches := [];
    for i := 0 to |raws|
      invariant matches == Pairings(trainNo, direction, departureMinute, raws[..i])
    {
      var arrivalMinute := LiftArrival(raws[i], departureMinute);
      assert raws[..i + 1][..i] == raws[..i];
      if arrivalMinute - departureMinute <= MAX_LEG_MINUTES {
        matches := matches + [Train(trainNo, direction, departureMinute, arrivalMinute)];
      }
    }
    assert raws[..|raws|] == raws;
  }

  method CollectMatches(fromRows: seq<Row>, toRows: seq<Row>, direction: Direction,
                        earliestMinute: int) returns (matches: seq<Train>)
    ensures matches == Matches(fromRows, toRows, direction, earliestMinute)
  {
    hide DepartureOf, ArrivalOf, ArrivalsOf;
    var destinations := CollectDestinations(toRows);
    matches := [];
    for i := 0 to |fromRows|
      invariant matches == Matches(fromRows[..i], toRows, direction, earliestMinute)
    {
      var row := fromRows[i];
      assert fromRows[..i + 1][..i] == fromRows[..i];
      if IsNumbered(row) {
        var departureMinute := DepartureOf(row);
        if departureMinute.Some? && departureMinute.value >= earliestMinute {
          var raws := ArrivalsKept(destinations, row.trainNo.value);
          var more := PairArrivals(row.trainNo.value, direction, departureMinute.value, raws);
          matches := matches + more;
        }
      }
    }
    assert fromRows[..|fromRows|] == fromRows;
  }

  method FindNextTrainOnLine(tt: Timetables, fromId: StationId, toId: StationId, rawLineId: int, earliestMinute: int,
                             day: DayType)
    returns (next: Option<Train>)
    ensures next == NextTrain(tt, fromId, toId, rawLineId, earliestMinute, day)
  {
    var up := CollectMatches(tt(fromId, rawLineId, day, Up), tt(toId, rawLineId, day, Up), Up, earliestMinute);
    var down := CollectMatches(tt(fromId, rawLineId, day, Down), tt(toId, rawLineId, day, Down), Down, earliestMinute);
    var candidates := up + down;
    if candidates == [] {
      return None;
    }
    SortedHead(candidates, DepartureKey);
    return Some(SortBy(candidates, DepartureKey)[0]);
  }
}
