/** What the built station map guarantees about its paths. */
module MapRoutes {
  import opened Wrappers
  import opened LineMap
  import opened ShortestPath

  // ---------- Paths ----------

  lemma {:induction false} JoinPaths(edges: seq<Edge>, a: StationId, b: StationId, c: StationId, p: seq<Edge>,
                                     q: seq<Edge>)
    requires IsPath(edges, a, b, p) && IsPath(edges, b, c, q)
    ensures IsPath(edges, a, c, p + q)
    decreases |p|
  {
    if p == [] {
      assert p + q == q;
    } else {
      assert (p + q)[1..] == p[1..] + q;
      JoinPaths(edges, p[0].to, b, c, p[1..], q);
    }
  }

  function Reversed(p: seq<Edge>): seq<Edge> {
    if p == [] then [] else Reversed(p[1..]) + [Flip(p[0])]
  }

  lemma {:induction false} ReversePath(edges: seq<Edge>, a: StationId, b: StationId, p: seq<Edge>)
    requires IsPath(edges, a, b, p)
    ensures IsPath(edges, b, a, Reversed(p)) && |Reversed(p)| == |p|
    decreases |p|
  {
    if p != [] {
      ReversePath(edges, p[0].to, b, p[1..]);
      var back := [Flip(p[0])];
      assert Flip(Flip(p[0])) == p[0];
      assert back[1..] == [] && IsPath(edges, p[0].to, a, back);
      JoinPaths(edges, b, p[0].to, a, Reversed(p[1..]), back);
    }
  }

  /** Along a list whose neighbours are joined, j - i edges lead from its i-th to its j-th station. */
  lemma {:induction false} WalkList(edges: seq<Edge>, list: seq<ApiStation>, line: RealLine, i: nat,
                                    j: nat) returns (p: seq<Edge>)
    requires i <= j < |list|
    requires forall e :: e in EdgesOfList(list, line) ==> e in edges
    ensures IsPath(edges, list[i].stationId, list[j].stationId, p) && |p| == j - i
    decreases j - i
  {
    p := [];
    if i < j {
      var rest := WalkList(edges, list, line, i + 1, j);
      var e := Edge(list[i].stationId, list[i + 1].stationId, line);
      assert EdgesOfList(list, line)[i] == e;
      p := [e] + rest;
      assert p[1..] == rest;
    }
  }

  // ---------- The built map ----------

  lemma {:induction false} ListEdgesAreMapEdges(lists: StationLists, n: nat, k: nat)
    requires k < n <= |lists| <= LINE_COUNT
    ensures forall e :: e in EdgesOfList(lists[k], RealLineOf(k + 1).value) ==> e in EdgesOfLists(lists, n)
  {
    if k < n - 1 {
      ListEdgesAreMapEdges(lists, n - 1, k);
    }
  }

  /** Each edge of the lists joins two stations of one list, on that list's real line. */
  lemma {:induction false} MapEdgesAreListEdges(lists: StationLists, n: nat, e: Edge)
    requires n <= |lists| <= LINE_COUNT && e in EdgesOfLists(lists, n)
    ensures exists raw :: Serves(lists, raw, e.from) && Serves(lists, raw, e.to) && RealLineOf(raw) == Some(e.line)
  {
    if e in EdgesOfLists(lists, n - 1) {
      MapEdgesAreListEdges(lists, n - 1, e);
    } else {
      var i :| 0 <= i < |EdgesOfList(lists[n - 1], RealLineOf(n).value)| &&
          EdgesOfList(lists[n - 1], RealLineOf(n).value)[i] == e;
      assert Serves(lists, n, lists[n - 1][i].stationId) && Serves(lists, n, lists[n - 1][i + 1].stationId);
    }
  }

  /** Both ends of every map edge are stations of the map that lie on the edge's line. */
  lemma EdgesStayOnTheirLine(lists: StationLists, m: LineMapData, e: Edge)
    requires Built(lists, m) && Travels(m.edges, e)
    ensures e.from in m.stations && e.line in m.stations[e.from].lines
    ensures e.to in m.stations && e.line in m.stations[e.to].lines
  {
    var raw := EdgeIsOnRawLine(lists, m, if e in m.edges then e else Flip(e));
    EndIsOnLine(lists, m, e.from, raw);
    EndIsOnLine(lists, m, e.to, raw);
    hide *;
  }

  lemma EdgeIsOnRawLine(lists: StationLists, m: LineMapData, e: Edge) returns (raw: int)
    requires Built(lists, m) && e in m.edges
    ensures Serves(lists, raw, e.from) && Serves(lists, raw, e.to) && RealLineOf(raw) == Some(e.line)
  {
    hide Merged, InOrderOfAppearance, WellFormed;
    if e in EdgesOfLists(lists, LINE_COUNT) {
      MapEdgesAreListEdges(lists, LINE_COUNT, e);
      raw :| Serves(lists, raw, e.from) && Serves(lists, raw, e.to) && RealLineOf(raw) == Some(e.line);
    } else {
      var loop := lists[LOOP_LINE - 1];
      assert e == Edge(loop[|loop| - 1].stationId, loop[0].stationId, Line2);
      raw := LOOP_LINE;
    }
  }

  // ---------- The map, list by list ----------

  /** The lists of each line: the first two are line 1, the third is line 4, the last three are line 2. */
  predicate IsListOf(line: RealLine, k: int) {
    match line
    case Line1 => k == 0 || k == 1
    case Line4 => k == 2
    case Line2 => k == 3 || k == 4 || k == 5
  }

  /** The edge joins station i of list k to the next one. */
  predicate IsListEdge(lists: StationLists, e: Edge, k: nat, i: nat) {
    && k < |lists| && i + 1 < |lists[k]| && IsListOf(e.line, k)
    && e.from == lists[k][i].stationId && e.to == lists[k][i + 1].stationId
  }

  /** The edge closes the loop of the fourth list. */
  predicate IsClosingEdge(lists: StationLists, e: Edge) {
    && |lists| > 3 && |lists[3]| > 1 && e.line == Line2
    && e.from == lists[3][|lists[3]| - 1].stationId && e.to == lists[3][0].stationId
  }

  lemma ListsOfLines(k: int, line: RealLine)
    ensures RealLineOf(k + 1) == Some(line) <==> IsListOf(line, k)
  {
  }

  lemma {:induction false} ListEdgesExactly(lists: StationLists, n: nat, e: Edge)
    requires n <= |lists| <= LINE_COUNT
    ensures e in EdgesOfLists(lists, n) <==> exists k: nat, i: nat :: k < n && IsListEdge(lists, e, k, i)
  {
    if n > 0 {
      hide RealLineOf, EdgesOfList;
      ListEdgesExactly(lists, n - 1, e);
      ListsOfLines(n - 1, e.line);
      LastListEdges(lists, n - 1, e);
    }
  }

  lemma LastListEdges(lists: StationLists, k: nat, e: Edge)
    requires k < |lists| <= LINE_COUNT
    ensures e in EdgesOfList(lists[k], RealLineOf(k + 1).value) <==> exists i: nat :: IsListEdge(lists, e, k, i)
  {
    ListsOfLines(k, e.line);
    var line := RealLineOf(k + 1).value;
    assert RealLineOf(k + 1) == Some(line);
    hide RealLineOf, EdgesOfList, IsListOf;
    var edges := EdgesOfList(lists[k], line);
    if i: nat :| IsListEdge(lists, e, k, i) {
      assert e == Edge(lists[k][i].stationId, lists[k][i + 1].stationId, line);
      assert edges[i] == e;
    }
    if e in edges {
      var i :| 0 <= i < |edges| && edges[i] == e;
      assert edges[i] == Edge(lists[k][i].stationId, lists[k][i + 1].stationId, line);
      assert RealLineOf(k + 1) == Some(e.line);
      assert IsListEdge(lists, e, k, i);
    }
  }

  /** The edges of the map are exactly those between neighbours of a list, on the list's line, and the one that closes
      the loop; a station's lines are exactly those of the lists that name it. */
  lemma MapIsOfLists(lists: StationLists, m: LineMapData, e: Edge, id: StationId, line: RealLine)
    requires Built(lists, m)
    ensures e in m.edges <==> IsClosingEdge(lists, e) || exists k: nat, i: nat :: IsListEdge(lists, e, k, i)
    ensures id in m.stations ==>
      (line in m.stations[id].lines
       <==> exists k :: 0 <= k < |lists| && IsListOf(line, k) && Lists(lists[k], id))
  {
    ClosesExactly(lists, e);
    ListEdgesExactly(lists, LINE_COUNT, e);
    assert forall k: nat, i: nat :: IsListEdge(lists, e, k, i) ==> k < |lists|;
    hide EdgesOfLists, ClosingEdge, IsListEdge, InOrderOfAppearance, WellFormed, IsClosingEdge;
    if id in m.stations {
      LinesExactly(lists, id, m.stations[id], line);
    }
  }

  lemma ClosesExactly(lists: StationLists, e: Edge)
    requires |lists| == LINE_COUNT
    ensures e in ClosingEdge(lists[LOOP_LINE - 1]) <==> IsClosingEdge(lists, e)
  {
  }

  lemma LinesExactly(lists: StationLists, id: StationId, station: Station, line: RealLine)
    requires Catalogued(lists, id, station)
    ensures line in station.lines <==> exists k :: 0 <= k < |lists| && IsListOf(line, k) && Lists(lists[k], id)
  {
    forall raw
      ensures RealLineOf(raw) == Some(line) <==> IsListOf(line, raw - 1)
    {
      ListsOfLines(raw - 1, line);
    }
    hide RealLineOf, IsListOf, Distinct, Lists;
    if k :| 0 <= k < |lists| && IsListOf(line, k) && Lists(lists[k], id) {
      assert Serves(lists, k + 1, id) && RealLineOf(k + 1) == Some(line);
    }
    if line in station.lines {
      var raw :| raw in station.rawLineIds && RealLineOf(raw) == Some(line);
      assert Lists(lists[raw - 1], id) && IsListOf(line, raw - 1);
    }
  }

  lemma EndIsOnLine(lists: StationLists, m: LineMapData, id: StationId, raw: int)
    requires Built(lists, m) && Serves(lists, raw, id) && RealLineOf(raw).Some?
    ensures id in m.stations && RealLineOf(raw).value in m.stations[id].lines
  {
    hide InOrderOfAppearance, WellFormed, EdgesOfLists;
    assert Catalogued(lists, id, m.stations[id]);
  }

  lemma WalkRawLine(lists: StationLists, m: LineMapData, raw: int, i: nat, j: nat) returns (p: seq<Edge>)
    requires Built(lists, m) && 1 <= raw <= LINE_COUNT && i <= j < |lists[raw - 1]|
    ensures IsPath(m.edges, lists[raw - 1][i].stationId, lists[raw - 1][j].stationId, p) && |p| == j - i
  {
    ListEdgesAreMapEdges(lists, LINE_COUNT, raw - 1);
    p := WalkList(m.edges, lists[raw - 1], RealLineOf(raw).value, i, j);
  }

  /** Two stations of one raw line are joined by map edges. */
  lemma SharedLineConnects(lists: StationLists, m: LineMapData, raw: int, a: StationId, b: StationId)
    requires Built(lists, m) && Serves(lists, raw, a) && Serves(lists, raw, b)
    ensures Connected(m.edges, a, b)
  {
    var list := lists[raw - 1];
    var i :| 0 <= i < |list| && list[i].stationId == a;
    var j :| 0 <= j < |list| && list[j].stationId == b;
    if i <= j {
      var p := WalkRawLine(lists, m, raw, i, j);
    } else {
      var p := WalkRawLine(lists, m, raw, j, i);
      ReversePath(m.edges, b, a, p);
    }
  }

  /** The other way round the loop: on from the j-th station, over the closing edge, to the i-th. */
  lemma WalkOverTheClosingEdge(lists: StationLists, m: LineMapData, i: nat, j: nat) returns (p: seq<Edge>)
    requires Built(lists, m) && i < j < |lists[LOOP_LINE - 1]|
    ensures IsPath(m.edges, lists[LOOP_LINE - 1][j].stationId, lists[LOOP_LINE - 1][i].stationId, p)
    ensures |p| == |lists[LOOP_LINE - 1]| - (j - i)
  {
    var loop := lists[LOOP_LINE - 1];
    var n := |loop|;
    var head := WalkRawLine(lists, m, LOOP_LINE, j, n - 1);
    var tail := WalkRawLine(lists, m, LOOP_LINE, 0, i);
    var closing := Edge(loop[n - 1].stationId, loop[0].stationId, Line2);
    assert ClosingEdge(loop)[0] == closing;
    var rest := [closing] + tail;
    assert rest[1..] == tail && IsPath(m.edges, loop[n - 1].stationId, loop[i].stationId, rest);
    JoinPaths(m.edges, loop[j].stationId, loop[n - 1].stationId, loop[i].stationId, head, rest);
    p := head + rest;
  }

  /** On the loop line the fallback never takes more than half a round: one of the two ways is that short. */
  lemma LoopHalfRound(lists: StationLists, m: LineMapData, i: nat, j: nat, p: seq<Edge>)
    requires Built(lists, m) && i < |lists[LOOP_LINE - 1]| && j < |lists[LOOP_LINE - 1]|
    requires IsShortestPath(m.edges, lists[LOOP_LINE - 1][i].stationId, lists[LOOP_LINE - 1][j].stationId, p)
    ensures |p| <= |lists[LOOP_LINE - 1]| / 2
  {
    var n := |lists[LOOP_LINE - 1]|;
    if i == j {
      var stay := WalkRawLine(lists, m, LOOP_LINE, i, j);
    } else if i < j {
      hide *;
      var some, rest := BothWaysRound(lists, m, i, j);
      ShortestIsHalf(m.edges, lists[LOOP_LINE - 1][i].stationId, lists[LOOP_LINE - 1][j].stationId, p, some, rest, n);
    } else {
      hide *;
      var some, rest := BothWaysRound(lists, m, j, i);
      ShortestIsHalf(m.edges, lists[LOOP_LINE - 1][i].stationId, lists[LOOP_LINE - 1][j].stationId, p, some, rest, n);
    }
  }

  /** Two walks between stations i and j of the loop, which make a round together; either can be reversed. */
  lemma BothWaysRound(lists: StationLists, m: LineMapData, i: nat, j: nat) returns (some: seq<Edge>, rest: seq<Edge>)
    requires Built(lists, m) && i < j < |lists[LOOP_LINE - 1]|
    ensures |some| + |rest| == |lists[LOOP_LINE - 1]|
    ensures var a, b := lists[LOOP_LINE - 1][i].stationId, lists[LOOP_LINE - 1][j].stationId;
            HasPath(m.edges, a, b, |some|) && HasPath(m.edges, b, a, |some|)
            && HasPath(m.edges, a, b, |rest|) && HasPath(m.edges, b, a, |rest|)
  {
    var a, b := lists[LOOP_LINE - 1][i].stationId, lists[LOOP_LINE - 1][j].stationId;
    some := WalkRawLine(lists, m, LOOP_LINE, i, j);
    rest := WalkOverTheClosingEdge(lists, m, i, j);
    hide Built, IsPath;
    ReversePath(m.edges, a, b, some);
    ReversePath(m.edges, b, a, rest);
  }

  ghost predicate HasPath(edges: seq<Edge>, a: StationId, b: StationId, n: nat) {
    exists p :: IsPath(edges, a, b, p) && |p| == n
  }

  lemma ShortestIsHalf(edges: seq<Edge>, a: StationId, b: StationId, p: seq<Edge>, some: seq<Edge>, rest: seq<Edge>,
                       n: nat)
    requires IsShortestPath(edges, a, b, p) && |some| + |rest| == n
    requires HasPath(edges, a, b, |some|) && HasPath(edges, a, b, |rest|)
    ensures |p| <= n / 2
  {
    hide IsPath;
  }
}
