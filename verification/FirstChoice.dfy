/** Which of several equally good trains and ways the planner takes (transitTimetable.ts). */
module FirstChoice {
  import opened Wrappers
  import opened StableSort
  import opened LineMap
  import opened Trains
  import opened Hops

  /** A train in the second direction is taken only if none in the first leaves and arrives with it. */
  lemma FirstDirectionFirst(tt: Timetables, a: StationId, b: StationId, raw: int, earliest: int, day: DayType, t: Train)
    requires var next := NextTrain(tt, a, b, raw, earliest, day); next.Some? && next.value.direction == Down
    requires Rides(tt, a, b, raw, day, t) && t.direction == Up && t.departureMinute >= earliest
    ensures var next := NextTrain(tt, a, b, raw, earliest, day).value;
      next.departureMinute < t.departureMinute
      || (next.departureMinute == t.departureMinute && next.arrivalMinute < t.arrivalMinute)
  {
    hide Matches, IsRide;
    var up := Matches(tt(a, raw, day, Up), tt(b, raw, day, Up), Up, earliest);
    var candidates := Candidates(tt, a, b, raw, earliest, day);
    MatchesAreRides(tt(a, raw, day, Up), tt(b, raw, day, Up), Up, earliest, t);
    var k :| 0 <= k < |up| && up[k] == t;
    var i := HeadIsFirst(candidates, DepartureKey);
    if i < |up| {
      MatchesAreRides(tt(a, raw, day, Up), tt(b, raw, day, Up), Up, earliest, up[i]);
    }
    assert candidates[k] == t;
  }

  ghost predicate Ascend(raws: seq<int>) {
    forall i, j :: 0 <= i < j < |raws| ==> raws[i] < raws[j]
  }

  /** In a built map a station's raw lines ascend, and so do those that two stations share. */
  lemma {:induction false} SharedLinesAscend(raws: seq<int>, to: Station)
    requires Ascend(raws)
    ensures Ascend(SharedAmong(raws, to))
  {
    hide Ascend;
    if raws == [] {
      NoneAscend();
    } else {
      var rest := SharedAmong(raws[1..], to);
      TailAscends(raws);
      SharedLinesAscend(raws[1..], to);
      OneMoreAscends(raws[0], raws[1..], rest);
      assert SharedAmong(raws, to) == [raws[0]] + rest || SharedAmong(raws, to) == rest;
    }
  }

  lemma NoneAscend()
    ensures Ascend([])
  {
  }

  lemma TailAscends(raws: seq<int>)
    requires raws != [] && Ascend(raws)
    ensures Ascend(raws[1..]) && forall raw :: raw in raws[1..] ==> raws[0] < raw
  {
  }

  lemma OneMoreAscends(first: int, raws: seq<int>, shared: seq<int>)
    requires Ascend(shared) && (forall raw :: raw in raws ==> first < raw)
    requires forall raw :: raw in shared ==> raw in raws
    ensures Ascend([first] + shared)
  {
    assert forall i :: 0 <= i < |shared| ==> shared[i] in shared;
  }

  lemma BestOfMore(tt: Timetables, a: StationId, b: StationId, raws: seq<int>, earliest: int, day: DayType)
    requires raws != []
    ensures var next, rest := NextTrain(tt, a, b, raws[0], earliest, day),
                              BestAttempt(tt, a, b, raws[1..], earliest, day);
      BestAttempt(tt, a, b, raws, earliest, day)
      == if next.None? then rest
         else if rest.Some? && rest.value.train.arrivalMinute < next.value.arrivalMinute then rest
         else Some(Attempt(raws[0], next.value))
  {
    hide NextTrain;
    var next := NextTrain(tt, a, b, raws[0], earliest, day);
    var rest := Attempts(tt, a, b, raws[1..], earliest, day);
    if next.Some? {
      var first := Attempt(raws[0], next.value);
      assert Attempts(tt, a, b, raws, earliest, day) == [first] + rest;
      assert ([first] + rest)[1..] == rest;
      assert SortBy([first] + rest, ArrivalKey) == Insert(first, SortBy(rest, ArrivalKey), ArrivalKey);
      if rest != [] {
        SortedHead(rest, ArrivalKey);
        assert BestAttempt(tt, a, b, raws[1..], earliest, day) == Some(SortBy(rest, ArrivalKey)[0]);
      } else {
        assert SortBy(rest, ArrivalKey) == [];
      }
    } else {
      assert Attempts(tt, a, b, raws, earliest, day) == rest;
    }
  }

  /** Of the lines whose next trains arrive first the first one in order is taken. */
  lemma {:induction false} FirstLineFirst(tt: Timetables, a: StationId, b: StationId, raws: seq<int>, earliest: int,
                                          day: DayType)
    returns (i: nat)
    requires BestAttempt(tt, a, b, raws, earliest, day).Some?
    ensures var best := BestAttempt(tt, a, b, raws, earliest, day).value;
      && i < |raws| && best.rawLineId == raws[i]
      && NextTrain(tt, a, b, raws[i], earliest, day) == Some(best.train)
      && forall j :: 0 <= j < i ==> IsLater(NextTrain(tt, a, b, raws[j], earliest, day), best.train.arrivalMinute)
  {
    hide NextTrain;
    var next := NextTrain(tt, a, b, raws[0], earliest, day);
    var rest := BestAttempt(tt, a, b, raws[1..], earliest, day);
    BestOfMore(tt, a, b, raws, earliest, day);
    hide BestAttempt;
    i := 0;
    if next.None? || (rest.Some? && rest.value.train.arrivalMinute < next.value.arrivalMinute) {
      var k := FirstLineFirst(tt, a, b, raws[1..], earliest, day);
      i := k + 1;
      forall j | 0 <= j < i
        ensures IsLater(NextTrain(tt, a, b, raws[j], earliest, day),
                        BestAttempt(tt, a, b, raws, earliest, day).value.train.arrivalMinute)
      {
        assert j > 0 ==> raws[j] == raws[1..][j - 1];
      }
    }
  }

  predicate IsLater(next: Option<Train>, arrivalMinute: int) {
    next.Some? ==> next.value.arrivalMinute > arrivalMinute
  }

  ghost predicate AllOnKnownLines(stations: seq<Station>) {
    forall station :: station in stations ==> OnKnownLines(station)
  }

  function FirstToArrive(hops: seq<Hop>): Option<Hop> {
    if hops == [] then None else
      SortedHead(hops, HopArrivalKey);
      Some(SortBy(hops, HopArrivalKey)[0])
  }

  lemma FirstOfMore(hop: Hop, rest: seq<Hop>)
    ensures var best := FirstToArrive(rest);
      FirstToArrive([hop] + rest)
      == if best.Some? && best.value.arrivalMinute < hop.arrivalMinute then best else Some(hop)
  {
    assert ([hop] + rest)[1..] == rest;
    assert SortBy([hop] + rest, HopArrivalKey) == Insert(hop, SortBy(rest, HopArrivalKey), HopArrivalKey);
    if rest != [] {
      SortedHead(rest, HopArrivalKey);
    }
  }

  predicate ArrivesLater(hop: Option<Hop>, arrivalMinute: int) {
    hop.Some? ==> hop.value.arrivalMinute > arrivalMinute
  }

  /** Of the stations over which the hops arrive first the first one is taken. */
  lemma {:induction false} FirstOfStations(tt: Timetables, from: Station, transfers: seq<Station>, to: Station,
                                           earliest: int, day: DayType)
    returns (i: nat)
    requires OnKnownLines(from) && AllOnKnownLines(transfers)
    requires FirstToArrive(TransferHops(tt, from, transfers, to, earliest, day)).Some?
    ensures var best := FirstToArrive(TransferHops(tt, from, transfers, to, earliest, day));
      && i < |transfers| && TryTransferVia(tt, from, transfers[i], to, earliest, day) == best
      && forall j :: 0 <= j < i ==> ArrivesLater(TryTransferVia(tt, from, transfers[j], to, earliest, day),
                                                 best.value.arrivalMinute)
  {
    hide TryTransferVia;
    assert transfers != [];
    var hops := TransferHops(tt, from, transfers, to, earliest, day);
    var first := TryTransferVia(tt, from, transfers[0], to, earliest, day);
    var rest := TransferHops(tt, from, transfers[1..], to, earliest, day);
    assert first.None? ==> hops == rest;
    if first.Some? {
      FirstOfMore(first.value, rest);
    }
    hide FirstToArrive, TransferHops;
    i := 0;
    if first != FirstToArrive(hops) {
      var k := FirstOfStations(tt, from, transfers[1..], to, earliest, day);
      i := k + 1;
      forall j | 0 <= j < i
        ensures ArrivesLater(TryTransferVia(tt, from, transfers[j], to, earliest, day),
                             FirstToArrive(hops).value.arrivalMinute)
      {
        assert j > 0 ==> transfers[j] == transfers[1..][j - 1];
      }
    }
  }

  /** Found are exactly the transfer stations from position n of the map's order on, in this order. */
  ghost predicate FoundFrom(order: seq<StationId>, n: nat, from: Station, to: Station, m: LineMapData,
                            found: seq<Station>, at: seq<nat>)
    requires forall id :: id in order ==> id in m.stations
  {
    && |at| == |found| && (forall i, j :: 0 <= i < j < |at| ==> at[i] < at[j])
    && (forall k :: 0 <= k < |at| ==> n <= at[k] < |order| && found[k] == m.stations[order[at[k]]])
    && (forall p: nat :: n <= p < |order| && IsTransferStation(from, to, m.stations[order[p]]) ==> p in at)
  }

  lemma {:induction false} CandidatesInOrder(order: seq<StationId>, n: nat, from: Station, to: Station, m: LineMapData)
    returns (at: seq<nat>)
    requires n <= |order| && forall id :: id in order ==> id in m.stations
    ensures FoundFrom(order, n, from, to, m, TransfersAmong(order[n..], from, to, m), at)
    decreases |order| - n
  {
    hide IsTransferStation;
    at := [];
    if n < |order| {
      var rest := CandidatesInOrder(order, n + 1, from, to, m);
      assert order[n..][1..] == order[n + 1..];
      var found := TransfersAmong(order[n + 1..], from, to, m);
      at := rest;
      if IsTransferStation(from, to, m.stations[order[n]]) {
        at := [n] + rest;
        assert TransfersAmong(order[n..], from, to, m) == [m.stations[order[n]]] + found;
        hide TransfersAmong;
        OneMoreFound(order, n, from, to, m, found, rest);
      } else {
        assert TransfersAmong(order[n..], from, to, m) == found;
      }
    }
  }

  lemma OneMoreFound(order: seq<StationId>, n: nat, from: Station, to: Station, m: LineMapData, found: seq<Station>,
                     at: seq<nat>)
    requires n < |order| && forall id :: id in order ==> id in m.stations
    requires FoundFrom(order, n + 1, from, to, m, found, at)
    ensures FoundFrom(order, n, from, to, m, [m.stations[order[n]]] + found, [n] + at)
  {
    hide IsTransferStation;
    assert forall p :: p in at ==> p in [n] + at;
    assert ([n] + at)[0] == n;
  }

  /** Between stations without a shared raw line, of the transfer stations over which the hops arrive first the one
      that the map lists first is taken. */
  lemma FirstStationFirst(tt: Timetables, from: Station, to: Station, earliest: int, day: DayType, m: LineMapData)
    returns (n: nat)
    requires WellFormed(m) && OnKnownLines(from) && BestTransfer(tt, from, to, earliest, day, m).Some?
    ensures var best := BestTransfer(tt, from, to, earliest, day, m);
      && n < |m.order| && IsTransferStation(from, to, m.stations[m.order[n]])
      && TryTransferVia(tt, from, m.stations[m.order[n]], to, earliest, day) == best
      && forall k :: 0 <= k < n && IsTransferStation(from, to, m.stations[m.order[k]]) ==>
           ArrivesLater(TryTransferVia(tt, from, m.stations[m.order[k]], to, earliest, day), best.value.arrivalMinute)
  {
    hide TryTransferVia, IsTransferStation, ArrivesLater;
    var candidates := FindTransferCandidates(from, to, m);
    CandidatesAreOnKnownLines(from, to, m);
    var at := CandidatesInOrder(m.order, 0, from, to, m);
    assert m.order[0..] == m.order;
    var best := BestTransfer(tt, from, to, earliest, day, m);
    var i := FirstOfStations(tt, from, candidates, to, earliest, day);
    hide BestTransfer, FindTransferCandidates;
    n := at[i];
    forall k | 0 <= k < n && IsTransferStation(from, to, m.stations[m.order[k]])
      ensures ArrivesLater(TryTransferVia(tt, from, m.stations[m.order[k]], to, earliest, day),
                           best.value.arrivalMinute)
    {
      var j :| 0 <= j < |at| && at[j] == k;
      assert j < i;
    }
  }
}
