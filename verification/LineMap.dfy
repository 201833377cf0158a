/** The station graph of subwayLineMap.ts: six ordered station lists merged into one map. */
module LineMap {
  import opened Wrappers

  /** A station id, compared only for equality. */
  datatype StationId = StationId(text: string)

  datatype RealLine = Line1 | Line2 | Line4

  /** Which of the three real lines a raw line id (1 to 6) belongs to. */
  function RealLineOf(rawLineId: int): Option<RealLine> {
    match rawLineId
    case 1 => Some(Line1)
    case 2 => Some(Line1)
    case 3 => Some(Line4)
    case 4 => Some(Line2)
    case 5 => Some(Line2)
    case 6 => Some(Line2)
    case _ => None
  }

  const LINE_COUNT := 6
  const LOOP_LINE := 4

  /** One row of a line's station list, in station order. */
  datatype ApiStation = ApiStation(stationId: StationId, stationName: string)

  type StationLists = seq<seq<ApiStation>>

  datatype Station = Station(stationId: StationId, name: string, lines: seq<RealLine>, rawLineIds: seq<int>)

  datatype Edge = Edge(from: StationId, to: StationId, line: RealLine)

  /** The map; `order` is the insertion order in which its stations are iterated. */
  datatype LineMapData = LineMapData(stations: map<StationId, Station>, order: seq<StationId>, edges: seq<Edge>)

  // ---------- What a built map means ----------

  predicate Lists(list: seq<ApiStation>, id: StationId) {
    exists i :: 0 <= i < |list| && list[i].stationId == id
  }

  /** The raw line `rawLineId`'s list names the station. */
  predicate Serves(lists: StationLists, rawLineId: int, id: StationId) {
    1 <= rawLineId <= |lists| && Lists(lists[rawLineId - 1], id)
  }

  ghost predicate Distinct<T>(s: seq<T>) {
    forall i, j :: 0 <= i < j < |s| ==> s[i] != s[j]
  }

  /** The raw ids of a station are exactly the lists that name it, in increasing order; its real lines
      are exactly their images, each once. */
  ghost predicate Catalogued(lists: StationLists, id: StationId, station: Station) {
    && station.stationId == id
    && (forall raw :: raw in station.rawLineIds <==> Serves(lists, raw, id))
    && (forall i, j :: 0 <= i < j < |station.rawLineIds| ==> station.rawLineIds[i] < station.rawLineIds[j])
    && (forall line :: line in station.lines <==>
         exists raw :: raw in station.rawLineIds && RealLineOf(raw) == Some(line))
    && Distinct(station.lines)
  }

  /** The keys are exactly the listed stations, each catalogued and iterated once. */
  ghost predicate Merged(lists: StationLists, stations: map<StationId, Station>, order: seq<StationId>) {
    && (forall id :: id in stations <==> exists raw :: Serves(lists, raw, id))
    && (forall id :: id in stations ==> Catalogued(lists, id, stations[id]))
    && Distinct(order)
    && (forall id :: id in order <==> id in stations)
  }

  function AllRows(lists: StationLists): seq<ApiStation> {
    if lists == [] then [] else AllRows(lists[..|lists| - 1]) + lists[|lists| - 1]
  }

  /** Where the station first appears among the rows, their number when it does not. */
  function FirstRow(rows: seq<ApiStation>, id: StationId): (i: nat)
    ensures i <= |rows| && (i < |rows| ==> rows[i].stationId == id)
    ensures forall k :: 0 <= k < i ==> rows[k].stationId != id
  {
    if rows == [] || rows[0].stationId == id then 0 else 1 + FirstRow(rows[1..], id)
  }

  /** Stations are iterated by first appearance. */
  ghost predicate OrderedByAppearance(rows: seq<ApiStation>, order: seq<StationId>) {
    && (forall i :: 0 <= i < |order| ==> FirstRow(rows, order[i]) < |rows|)
    && (forall i, j :: 0 <= i < j < |order| ==> FirstRow(rows, order[i]) < FirstRow(rows, order[j]))
  }

  /** Each station carries the name it first appeared with. */
  ghost predicate NamedByAppearance(rows: seq<ApiStation>, stations: map<StationId, Station>) {
    && (forall id :: id in stations <==> FirstRow(rows, id) < |rows|)
    && (forall id :: id in stations ==> stations[id].name == rows[FirstRow(rows, id)].stationName)
  }

  ghost predicate InOrderOfAppearance(rows: seq<ApiStation>, stations: map<StationId, Station>, order: seq<StationId>) {
    OrderedByAppearance(rows, order) && NamedByAppearance(rows, stations)
  }

  /** One edge between each two neighbours of a list. */
  ghost predicate ChainEdges(list: seq<ApiStation>, line: RealLine, edges: seq<Edge>) {
    && |edges| == (if |list| == 0 then 0 else |list| - 1)
    && forall i :: 0 <= i < |edges| ==> edges[i] == Edge(list[i].stationId, list[i + 1].stationId, line)
  }

  /** The edges of the first n lists, list after list. */
  function EdgesOfLists(lists: StationLists, n: nat): seq<Edge>
    requires n <= |lists| <= LINE_COUNT
  {
    if n == 0 then [] else EdgesOfLists(lists, n - 1) + EdgesOfList(lists[n - 1], RealLineOf(n).value)
  }

  function EdgesOfList(list: seq<ApiStation>, line: RealLine): (edges: seq<Edge>)
    ensures ChainEdges(list, line, edges)
  {
    if |list| < 2 then [] else
      var n := |list| - 1;
      EdgesOfList(list[..n], line) + [Edge(list[n - 1].stationId, list[n].stationId, line)]
  }

  /** The edge from the last station of the loop line back to its first. */
  function ClosingEdge(loop: seq<ApiStation>): seq<Edge> {
    if |loop| > 1 then [Edge(loop[|loop| - 1].stationId, loop[0].stationId, Line2)] else []
  }

  /** What the planner asks of a map: stations under their own ids, iterated through `order`, on known raw lines. */
  ghost predicate WellFormed(m: LineMapData) {
    && (forall id :: id in m.order <==> id in m.stations)
    && (forall id :: id in m.stations ==> m.stations[id].stationId == id && OnKnownLines(m.stations[id]))
  }

  predicate OnKnownLines(station: Station) {
    forall raw :: raw in station.rawLineIds ==> RealLineOf(raw).Some?
  }

  lemma MergedIsWellFormed(lists: StationLists, m: LineMapData)
    ensures |lists| == LINE_COUNT && Merged(lists, m.stations, m.order) ==> WellFormed(m)
  {
    if |lists| == LINE_COUNT && Merged(lists, m.stations, m.order) {
      forall id | id in m.stations
        ensures m.stations[id].stationId == id && OnKnownLines(m.stations[id])
      {
        assert Catalogued(lists, id, m.stations[id]);
      }
    }
  }

  /** The map that the six lists make; it is what the planner asks for. */
  ghost predicate Built(lists: StationLists, m: LineMapData)
    ensures Built(lists, m) ==> WellFormed(m)
  {
    MergedIsWellFormed(lists, m);
    && |lists| == LINE_COUNT
    && Merged(lists, m.stations, m.order)
    && InOrderOfAppearance(AllRows(lists), m.stations, m.order)
    && m.edges == EdgesOfLists(lists, LINE_COUNT) + ClosingEdge(lists[LOOP_LINE - 1])
  }

  // ---------- The builder ----------

  class LineMapBuilder {
    var stations: map<StationId, Station>
    var order: seq<StationId>
    var edges: seq<Edge>

    /** The lists merged so far; the last one may be under way. */
    ghost var seen: StationLists

    constructor ()
      ensures Valid() && stations == map[] && order == [] && edges == [] && seen == []
    {
      stations, order, edges := map[], [], [];
      seen := [];
    }

    ghost predicate Valid()
      reads this
    {
      |seen| <= LINE_COUNT && Merged(seen, stations, order) && InOrderOfAppearance(AllRows(seen), stations, order)
    }

    /** Turns to the next list; nothing of it is merged yet. */
    ghost method OpenList()
      requires Valid() && |seen| < LINE_COUNT
      modifies this`seen
      ensures Valid() && seen == old(seen) + [[]]
    {
      EmptyListAddsNothing(seen, stations, order);
      assert (seen + [[]])[..|seen|] == seen && AllRows(seen) + [] == AllRows(seen);
      seen := seen + [[]];
    }

    /** Merges a whole list, row by row. */
    method AddList(list: seq<ApiStation>, line: RealLine, rawLineId: int)
      requires Valid() && rawLineId == |seen| + 1 <= LINE_COUNT && RealLineOf(rawLineId) == Some(line)
      modifies this`stations, this`order, this`seen
      ensures Valid() && seen == old(seen) + [list]
    {
      OpenList();
      for i := 0 to |list|
        invariant Valid() && seen == old(seen) + [list[..i]]
      {
        AddStation(list[i], line, rawLineId);
        assert list[..i + 1] == list[..i] + [list[i]];
      }
      assert list[..|list|] == list;
    }

    /** Merges one row of the list under way, which is the raw line `rawLineId`. */
    method AddStation(station: ApiStation, line: RealLine, rawLineId: int)
      requires Valid() && seen != [] && rawLineId == |seen| && RealLineOf(rawLineId) == Some(line)
      modifies this`stations, this`order, this`seen
      ensures Valid()
      ensures seen == old(seen)[|old(seen)| - 1 := old(seen)[|old(seen)| - 1] + [station]]
    {
      var id := station.stationId;
      ghost var before := seen;
      hide Merged, InOrderOfAppearance, AllRows, RealLineOf;
      seen := seen[|seen| - 1 := seen[|seen| - 1] + [station]];
      if id in stations {
        var existing := stations[id];
        if line !in existing.lines {
          existing := existing.(lines := existing.lines + [line]);
        }
        if rawLineId !in existing.rawLineIds {
          existing := existing.(rawLineIds := existing.rawLineIds + [rawLineId]);
        }
        KnownStationMerged(before, station, seen, stations, order, line, existing);
        stations := stations[id := existing];
      } else {
        NewStationMerged(before, station, seen, stations, order, line);
        stations := stations[id := Station(id, station.stationName, [line], [rawLineId])];
        order := order + [id];
      }
    }

    /** Appends the edges of one list. */
    method AddEdges(list: seq<ApiStation>, line: RealLine)
      modifies this`edges
      ensures edges == old(edges) + EdgesOfList(list, line)
    {
      hide EdgesOfList, ChainEdges;
      NoEdges(list, line);
      var i := 1;
      while i < |list|
        invariant 1 <= i && (list != [] ==> i <= |list|)
        invariant edges == old(edges) + EdgesOfList(if list == [] then [] else list[..i], line)
      {
        OneMoreEdge(list, line, i);
        edges := edges + [Edge(list[i - 1].stationId, list[i].stationId, line)];
        i := i + 1;
      }
      assert list != [] ==> list[..i] == list;
    }
  }

  lemma NoEdges(list: seq<ApiStation>, line: RealLine)
    ensures EdgesOfList(if list == [] then [] else list[..1], line) == []
  {
  }

  lemma OneMoreEdge(list: seq<ApiStation>, line: RealLine, i: nat)
    requires 0 < i < |list|
    ensures EdgesOfList(list[..i + 1], line)
            == EdgesOfList(list[..i], line) + [Edge(list[i - 1].stationId, list[i].stationId, line)]
  {
    assert list[..i + 1][..i] == list[..i];
    hide ChainEdges;
  }

  lemma ServesAfterRow(before: StationLists, station: ApiStation, after: StationLists)
    requires IsRowAdded(before, station, after)
    ensures forall raw, id :: Serves(after, raw, id) <==>
              Serves(before, raw, id) || (raw == |before| && id == station.stationId)
  {
    var last, longer := before[|before| - 1], before[|before| - 1] + [station];
    forall id
      ensures Lists(longer, id) <==> Lists(last, id) || id == station.stationId
    {
      assert longer[|last|] == station;
      if Lists(last, id) {
        var i :| 0 <= i < |last| && last[i].stationId == id;
        assert longer[i] == last[i];
      }
    }
  }

  /** One more row of the last list. */
  predicate IsRowAdded(before: StationLists, station: ApiStation, after: StationLists) {
    before != [] && after == before[|before| - 1 := before[|before| - 1] + [station]]
  }

  /** A row of a station that is known adds the line to it. */
  lemma KnownStationMerged(before: StationLists, station: ApiStation, after: StationLists,
                           stations: map<StationId, Station>, order: seq<StationId>, line: RealLine, now: Station)
    requires IsRowAdded(before, station, after) && RealLineOf(|before|) == Some(line)
    requires Merged(before, stations, order) && InOrderOfAppearance(AllRows(before), stations, order)
    requires station.stationId in stations
    requires var was, raw := stations[station.stationId], |before|;
      && now.stationId == was.stationId && now.name == was.name
      && now.lines == (if line in was.lines then was.lines else was.lines + [line])
      && now.rawLineIds == if raw in was.rawLineIds then was.rawLineIds else was.rawLineIds + [raw]
    ensures var stations' := stations[station.stationId := now];
            Merged(after, stations', order) && InOrderOfAppearance(AllRows(after), stations', order)
  {
    var id := station.stationId;
    ServesAfterRow(before, station, after);
    assert Catalogued(before, id, stations[id]);
    KnownStationAfterRow(before, id, stations[id], line, |before|, after, now);
    hide Catalogued, RealLineOf, Serves, AllRows, InOrderOfAppearance;
    MergedAfterRow(before, id, after, stations, order, stations[id := now], order);
    AppearanceAfterRow(before, station, after, stations, order, stations[id := now], order);
  }

  /** A row of a station that is not known adds it at the end. */
  lemma NewStationMerged(before: StationLists, station: ApiStation, after: StationLists,
                         stations: map<StationId, Station>, order: seq<StationId>, line: RealLine)
    requires IsRowAdded(before, station, after) && RealLineOf(|before|) == Some(line)
    requires Merged(before, stations, order) && InOrderOfAppearance(AllRows(before), stations, order)
    requires station.stationId !in stations
    ensures var now := Station(station.stationId, station.stationName, [line], [|before|]);
            var stations', order' := stations[station.stationId := now], order + [station.stationId];
            Merged(after, stations', order') && InOrderOfAppearance(AllRows(after), stations', order')
  {
    var id := station.stationId;
    var now := Station(id, station.stationName, [line], [|before|]);
    ServesAfterRow(before, station, after);
    NewStationAfterRow(before, id, line, |before|, after, now);
    hide Catalogued, RealLineOf, Serves, AllRows, InOrderOfAppearance;
    MergedAfterRow(before, id, after, stations, order, stations[id := now], order + [id]);
    AppearanceAfterRow(before, station, after, stations, order, stations[id := now], order + [id]);
  }

  lemma AppearanceAfterRow(before: StationLists, station: ApiStation, after: StationLists,
                           stations: map<StationId, Station>, order: seq<StationId>,
                           stations': map<StationId, Station>, order': seq<StationId>)
    requires IsRowAdded(before, station, after) && InOrderOfAppearance(AllRows(before), stations, order)
    requires var id := station.stationId;
      && id in stations' && stations' == stations[id := stations'[id]]
      && stations'[id].name == (if id in stations then stations[id].name else station.stationName)
      && order' == if id in stations then order else order + [id]
    ensures InOrderOfAppearance(AllRows(after), stations', order')
  {
    var rows := AllRows(before);
    AllRowsAfterRow(before, station, after);
    hide AllRows, OrderedByAppearance;
    assert station.stationId in stations <==> FirstRow(rows, station.stationId) < |rows|;
    OrderAfterRow(rows, station, order, order');
    NamesAfterRow(rows, station, stations, stations');
    hide NamedByAppearance;
  }

  lemma KnownStationAfterRow(before: StationLists, id: StationId, was: Station, line: RealLine, raw: int,
                             after: StationLists, now: Station)
    requires before != [] && raw == |before| && RealLineOf(raw) == Some(line)
    requires Catalogued(before, id, was)
    requires forall r :: Serves(after, r, id) <==> Serves(before, r, id) || r == raw
    requires now.stationId == was.stationId
    requires now.lines == if line in was.lines then was.lines else was.lines + [line]
    requires now.rawLineIds == if raw in was.rawLineIds then was.rawLineIds else was.rawLineIds + [raw]
    ensures Catalogued(after, id, now)
  {
    hide Serves, RealLineOf;
    forall r
      ensures r in now.rawLineIds <==> Serves(after, r, id)
    {
      assert r in now.rawLineIds <==> r in was.rawLineIds || r == raw;
    }
    RawIdsStayAscending(before, id, was.rawLineIds, raw);
    hide Distinct;
    LinesStayImages(was.lines, was.rawLineIds, line, raw, now.lines, now.rawLineIds);
  }

  /** The lines stay the images of the raw lines, each once. */
  lemma LinesStayImages(was: seq<RealLine>, wasRaw: seq<int>, line: RealLine, raw: int, now: seq<RealLine>,
                        nowRaw: seq<int>)
    requires RealLineOf(raw) == Some(line) && Distinct(was)
    requires forall l :: l in was <==> exists r :: r in wasRaw && RealLineOf(r) == Some(l)
    requires now == if line in was then was else was + [line]
    requires nowRaw == if raw in wasRaw then wasRaw else wasRaw + [raw]
    ensures Distinct(now) && forall l :: l in now <==> exists r :: r in nowRaw && RealLineOf(r) == Some(l)
  {
    hide RealLineOf;
    assert raw in nowRaw && forall r :: r in nowRaw <==> r in wasRaw || r == raw;
    forall l
      ensures l in now <==> exists r :: r in nowRaw && RealLineOf(r) == Some(l)
    {
      assert l in now <==> l in was || l == line;
    }
  }

  lemma RawIdsStayAscending(before: StationLists, id: StationId, raws: seq<int>, raw: int)
    requires raw == |before| && forall r :: r in raws ==> Serves(before, r, id)
    requires forall i, j :: 0 <= i < j < |raws| ==> raws[i] < raws[j]
    ensures raw !in raws ==> forall i, j :: 0 <= i < j < |raws + [raw]| ==> (raws + [raw])[i] < (raws + [raw])[j]
  {
    forall i | raw !in raws && 0 <= i < |raws|
      ensures raws[i] < raw
    {
      assert raws[i] in raws;
    }
  }

  lemma NewStationAfterRow(before: StationLists, id: StationId, line: RealLine, raw: int, after: StationLists,
                           now: Station)
    requires before != [] && raw == |before| && RealLineOf(raw) == Some(line)
    requires forall r :: !Serves(before, r, id)
    requires forall r :: Serves(after, r, id) <==> Serves(before, r, id) || r == raw
    requires now.stationId == id && now.lines == [line] && now.rawLineIds == [raw]
    ensures Catalogued(after, id, now)
  {
    assert raw in now.rawLineIds;
  }

  lemma MergedAfterRow(before: StationLists, id: StationId, after: StationLists,
                       stations: map<StationId, Station>, order: seq<StationId>,
                       stations': map<StationId, Station>, order': seq<StationId>)
    requires Merged(before, stations, order)
    requires forall raw, other :: Serves(after, raw, other) <==>
               Serves(before, raw, other) || (raw == |before| && other == id)
    requires id in stations' && stations' == stations[id := stations'[id]] && Catalogued(after, id, stations'[id])
    requires order' == if id in stations then order else order + [id]
    ensures Merged(after, stations', order')
  {
    hide Catalogued, Serves, Distinct;
    assert Serves(after, |before|, id);
    OrderStaysDistinct(stations, order, id);
    forall other
      ensures other in stations' <==> exists raw :: Serves(after, raw, other)
    {
      if other in stations && other != id {
        var raw :| Serves(before, raw, other);
        assert Serves(after, raw, other);
      }
    }
    forall other | other in stations' && other != id
      ensures Catalogued(after, other, stations'[other])
    {
      assert Catalogued(before, other, stations[other]);
      StillCatalogued(before, after, other, stations[other]);
    }
  }

  lemma OrderStaysDistinct(stations: map<StationId, Station>, order: seq<StationId>, id: StationId)
    requires Distinct(order) && forall other :: other in order <==> other in stations
    ensures id !in stations ==> Distinct(order + [id])
  {
  }

  lemma StillCatalogued(before: StationLists, after: StationLists, id: StationId, station: Station)
    requires Catalogued(before, id, station) && forall raw :: Serves(after, raw, id) <==> Serves(before, raw, id)
    ensures Catalogued(after, id, station)
  {
    hide Serves;
  }

  lemma AllRowsAfterRow(before: StationLists, station: ApiStation, after: StationLists)
    requires IsRowAdded(before, station, after)
    ensures AllRows(after) == AllRows(before) + [station]
  {
    var n := |before| - 1;
    assert after[..n] == before[..n];
    assert AllRows(before[..n]) + (before[n] + [station]) == AllRows(before[..n]) + before[n] + [station];
  }

  lemma {:induction false} FirstRowAfterRow(rows: seq<ApiStation>, row: ApiStation, id: StationId)
    ensures FirstRow(rows + [row], id)
         == if FirstRow(rows, id) < |rows| then FirstRow(rows,
                                                         id) else if row.stationId == id then |rows| else |rows| + 1
  {
    if rows == [] {
      assert [] + [row] == [row];
    } else if rows[0].stationId != id {
      assert (rows + [row])[1..] == rows[1..] + [row];
      FirstRowAfterRow(rows[1..], row, id);
    }
  }

  lemma FirstRowsAfterRow(rows: seq<ApiStation>, row: ApiStation)
    ensures forall id :: FirstRow(rows, id) < |rows| ==> FirstRow(rows + [row], id) == FirstRow(rows, id)
    ensures forall id :: FirstRow(rows, id) == |rows| ==> (FirstRow(rows + [row], id) == |rows| <==>
              id == row.stationId)
  {
    forall id
      ensures FirstRow(rows, id) < |rows| ==> FirstRow(rows + [row], id) == FirstRow(rows, id)
      ensures FirstRow(rows, id) == |rows| ==> (FirstRow(rows + [row], id) == |rows| <==> id == row.stationId)
    {
      FirstRowAfterRow(rows, row, id);
    }
  }

  lemma OrderAfterRow(rows: seq<ApiStation>, row: ApiStation, order: seq<StationId>, order': seq<StationId>)
    requires OrderedByAppearance(rows, order)
    requires order' == if FirstRow(rows, row.stationId) < |rows| then order else order + [row.stationId]
    ensures OrderedByAppearance(rows + [row], order')
  {
    hide FirstRow;
    forall i | 0 <= i < |order'|
      ensures FirstRow(rows + [row], order'[i])
              == if i < |order| then FirstRow(rows, order[i]) else |rows|
    {
      FirstRowAfterRow(rows, row, order'[i]);
    }
  }

  lemma NamesAfterRow(rows: seq<ApiStation>, row: ApiStation,
                      stations: map<StationId, Station>, stations': map<StationId, Station>)
    requires NamedByAppearance(rows, stations)
    requires row.stationId in stations' && stations' == stations[row.stationId := stations'[row.stationId]]
    requires stations'[row.stationId].name
          == if row.stationId in stations then stations[row.stationId].name else row.stationName
    ensures NamedByAppearance(rows + [row], stations')
  {
    FirstRowsAfterRow(rows, row);
    forall id
      ensures id in stations' <==> FirstRow(rows + [row], id) < |rows| + 1
      ensures id in stations' ==> stations'[id].name == (rows + [row])[FirstRow(rows + [row], id)].stationName
    {
    }
  }

  lemma EmptyListAddsNothing(lists: StationLists, stations: map<StationId, Station>, order: seq<StationId>)
    requires Merged(lists, stations, order)
    ensures Merged(lists + [[]], stations, order)
  {
    assert forall raw, id :: Serves(lists + [[]], raw, id) <==> Serves(lists, raw, id);
    forall id | id in stations
      ensures Catalogued(lists + [[]], id, stations[id])
    {
      assert Catalogued(lists, id, stations[id]);
    }
  }

  /** Merges the six lists and closes the loop line. A list that could not be fetched is empty. */
  method FetchSubwayLineMap(lists: StationLists) returns (m: LineMapData)
    requires |lists| == LINE_COUNT
    ensures Built(lists, m)
  {
    hide Merged, InOrderOfAppearance, WellFormed, AllRows, EdgesOfList, ChainEdges;
    var builder := new LineMapBuilder();
    for i := 0 to LINE_COUNT
      invariant fresh(builder) && builder.Valid() && builder.seen == lists[..i]
      invariant builder.edges == EdgesOfLists(lists, i)
    {
      var realLine := RealLineOf(i + 1).value;
      builder.AddList(lists[i], realLine, i + 1);
      builder.AddEdges(lists[i], realLine);
      assert lists[..i + 1] == lists[..i] + [lists[i]];
    }
    assert lists[..LINE_COUNT] == lists;
    var loop := lists[LOOP_LINE - 1];
    if |loop| > 1 {
      builder.edges := builder.edges + [Edge(loop[|loop| - 1].stationId, loop[0].stationId, Line2)];
    }
    m := LineMapData(builder.stations, builder.order, builder.edges);
  }
}
