/** The timetable-free fallback of transitTimetable.ts: breadth-first search over the station graph. */
module ShortestPath {
  import opened Sets
  import opened Wrappers
  import opened LineMap

  function Flip(e: Edge): Edge {
    Edge(e.to, e.from, e.line)
  }

  /** Map edges may be travelled both ways. */
  predicate Travels(edges: seq<Edge>, e: Edge) {
    e in edges || Flip(e) in edges
  }

  /** A chain of map edges from a to b. */
  ghost predicate IsPath(edges: seq<Edge>, a: StationId, b: StationId, p: seq<Edge>)
    decreases |p|
  {
    if p == [] then a == b
    else p[0].from == a && Travels(edges, p[0]) && IsPath(edges, p[0].to, b, p[1..])
  }

  ghost predicate IsShortestPath(edges: seq<Edge>, a: StationId, b: StationId, p: seq<Edge>) {
    IsPath(edges, a, b, p) && forall q :: IsPath(edges, a, b, q) ==> |p| <= |q|
  }

  ghost predicate Connected(edges: seq<Edge>, a: StationId, b: StationId) {
    exists p :: IsPath(edges, a, b, p)
  }

  // ---------- Adjacency ----------

  type Adjacency = map<StationId, seq<Edge>>

  function Neighbours(adjacency: Adjacency, id: StationId): seq<Edge> {
    if id in adjacency then adjacency[id] else []
  }

  /** The lists of outgoing edges are exactly the edges that may be travelled. */
  ghost predicate Indexes(adjacency: Adjacency, edges: seq<Edge>) {
    forall id, e :: e in Neighbours(adjacency, id) <==> e.from == id && Travels(edges, e)
  }

  function AddEdge(adjacency: Adjacency, e: Edge): Adjacency {
    adjacency[e.from := Neighbours(adjacency, e.from) + [e]]
  }

  method BuildAdjacency(edges: seq<Edge>) returns (adjacency: Adjacency)
    ensures Indexes(adjacency, edges)
  {
    adjacency := map[];
    for i := 0 to |edges|
      invariant Indexes(adjacency, edges[..i])
    {
      var before := adjacency;
      adjacency := AddEdge(adjacency, edges[i]);
      adjacency := AddEdge(adjacency, Flip(edges[i]));
      IndexAnotherEdge(before, edges[..i], edges[i], adjacency);
      assert edges[..i] + [edges[i]] == edges[..i + 1];
    }
    assert edges[..|edges|] == edges;
  }

  lemma IndexAnotherEdge(before: Adjacency, edges: seq<Edge>, edge: Edge, after: Adjacency)
    requires Indexes(before, edges)
    requires after == AddEdge(AddEdge(before, edge), Flip(edge))
    ensures Indexes(after, edges + [edge])
  {
    forall id, e
      ensures e in Neighbours(after, id) <==> e.from == id && Travels(edges + [edge], e)
    {
      assert e in Neighbours(AddEdge(before, edge), id) <==>
               e in Neighbours(before, id) || (e == edge && id == edge.from);
      assert Flip(e) == edge <==> e == Flip(edge);
    }
  }

  // ---------- The search ----------

  /** What the search knows: the visited stations with their distance from the start, the last edge
      towards each, and the queue of those not yet expanded. */
  ghost predicate Searching(edges: seq<Edge>, start: StationId, dist: map<StationId, nat>,
                            cameFrom: map<StationId, Edge>, queue: seq<StationId>) {
    && start in dist && dist[start] == 0
    && cameFrom.Keys == dist.Keys - {start}
    && (forall v :: v in cameFrom ==> Arrives(edges, dist, v, cameFrom[v]))
    && (forall v :: v in queue ==> v in dist)
    && Distinct(queue)
    && (forall i, j :: 0 <= i < j < |queue| ==> dist[queue[i]] <= dist[queue[j]])
    && (queue != [] ==> forall v :: v in dist ==> dist[v] <= dist[queue[0]] + 1)
  }

  ghost predicate Arrives(edges: seq<Edge>, dist: map<StationId, nat>, v: StationId, e: Edge) {
    e.to == v && Travels(edges, e) && v in dist && e.from in dist && dist[e.from] + 1 == dist[v]
  }

  /** Every edge out of v leads to a visited station at most one further away. */
  ghost predicate Expanded(edges: seq<Edge>, dist: map<StationId, nat>, v: StationId) {
    v in dist && forall e :: Travels(edges, e) && e.from == v ==> e.to in dist && dist[e.to] <= dist[v] + 1
  }

  ghost predicate OthersExpanded(edges: seq<Edge>, dist: map<StationId, nat>, queue: seq<StationId>) {
    forall v :: v in dist && v !in queue ==> Expanded(edges, dist, v)
  }

  ghost function Ends(edges: seq<Edge>): set<StationId> {
    (set e | e in edges :: e.from) + (set e | e in edges :: e.to)
  }

  /** Visits the neighbours of `current` that are not visited yet. */
  method Expand(edges: seq<Edge>, adjacency: Adjacency, start: StationId, ghost goal: StationId, current: StationId,
                visited0: set<StationId>, queue0: seq<StationId>, cameFrom0: map<StationId, Edge>,
                ghost dist0: map<StationId, nat>)
    returns (visited: set<StationId>, queue: seq<StationId>, cameFrom: map<StationId, Edge>,
             ghost dist: map<StationId, nat>)
    requires Indexes(adjacency, edges)
    requires visited0 == dist0.Keys && current in dist0 && current !in queue0
    requires Searching(edges, start, dist0, cameFrom0, [current] + queue0)
    requires OthersExpanded(edges, dist0, [current] + queue0)
    requires goal != current && (goal in dist0 ==> goal in queue0)
    ensures visited == dist.Keys && visited0 <= visited <= visited0 + Ends(edges)
    ensures Searching(edges, start, dist, cameFrom, queue)
    ensures OthersExpanded(edges, dist, queue)
    ensures visited == visited0 ==> queue == queue0
    ensures goal in dist ==> goal in queue
  {
    hide Searching, OthersExpanded, Indexes, Ends, Expanded, Neighbours;
    var neighbours := Neighbours(adjacency, current);
    visited, queue, cameFrom, dist := visited0, queue0, cameFrom0, dist0;
    for i := 0 to |neighbours|
      invariant visited == dist.Keys && visited0 <= visited <= visited0 + Ends(edges)
      invariant forall v :: v in dist0 ==> dist[v] == dist0[v]
      invariant Searching(edges, start, dist, cameFrom, [current] + queue)
      invariant forall v :: v in dist && v !in dist0 ==> v in queue
      invariant visited == visited0 ==> queue == queue0
      invariant queue0 <= queue
      invariant AreVisited(neighbours[..i], dist, current)
    {
      var edge := neighbours[i];
      NeighbourTravels(adjacency, edges, current, i);
      NextIsVisited(neighbours, i, dist, current);
      if edge.to !in visited {
        EnterStation(edges, start, dist, cameFrom, current, queue, edge);
        visited := visited + {edge.to};
        cameFrom := cameFrom[edge.to := edge];
        assert forall v :: v in queue ==> v in queue + [edge.to];
        queue := queue + [edge.to];
        dist := dist[edge.to := dist[current] + 1];
      } else {
        AtMostOneFurther(edges, start, dist, cameFrom, current, queue, edge.to);
      }
    }
    assert neighbours[..|neighbours|] == neighbours;
    LeaveQueue(edges, start, dist, cameFrom, current, queue);
    NowExpanded(adjacency, edges, dist, current);
    StillExpanded(edges, dist0, dist, current, queue0, queue);
  }

  /** The edges lead to visited stations at most one further away. */
  ghost predicate AreVisited(edges: seq<Edge>, dist: map<StationId, nat>, current: StationId) {
    current in dist && forall k :: 0 <= k < |edges| ==> edges[k].to in dist && dist[edges[k].to] <= dist[current] + 1
  }

  lemma NeighbourTravels(adjacency: Adjacency, edges: seq<Edge>, current: StationId, i: nat)
    requires Indexes(adjacency, edges) && i < |Neighbours(adjacency, current)|
    ensures var edge := Neighbours(adjacency, current)[i];
            Travels(edges, edge) && edge.from == current && edge.to in Ends(edges)
  {
    assert Neighbours(adjacency, current)[i] in Neighbours(adjacency, current);
  }

  /** Visiting one more neighbour. */
  lemma NextIsVisited(neighbours: seq<Edge>, i: nat, dist: map<StationId, nat>, current: StationId)
    requires i < |neighbours| && AreVisited(neighbours[..i], dist, current)
    ensures neighbours[i].to !in dist ==>
              AreVisited(neighbours[..i + 1], dist[neighbours[i].to := dist[current] + 1], current)
    ensures neighbours[i].to in dist && dist[neighbours[i].to] <= dist[current] + 1 ==>
              AreVisited(neighbours[..i + 1], dist, current)
  {
    assert neighbours[..i + 1] == neighbours[..i] + [neighbours[i]];
  }

  lemma AtMostOneFurther(edges: seq<Edge>, start: StationId, dist: map<StationId, nat>, cameFrom: map<StationId, Edge>,
                         current: StationId, queue: seq<StationId>, v: StationId)
    requires Searching(edges, start, dist, cameFrom, [current] + queue) && v in dist
    ensures current in dist && dist[v] <= dist[current] + 1
  {
    assert ([current] + queue)[0] == current;
  }

  lemma NowExpanded(adjacency: Adjacency, edges: seq<Edge>, dist: map<StationId, nat>, current: StationId)
    requires Indexes(adjacency, edges) && AreVisited(Neighbours(adjacency, current), dist, current)
    ensures Expanded(edges, dist, current)
  {
    forall e | Travels(edges, e) && e.from == current
      ensures e.to in dist && dist[e.to] <= dist[current] + 1
    {
      assert e in Neighbours(adjacency, current);
    }
  }

  lemma StillExpanded(edges: seq<Edge>, dist0: map<StationId, nat>, dist: map<StationId, nat>, current: StationId,
                      queue0: seq<StationId>, queue: seq<StationId>)
    requires OthersExpanded(edges, dist0, [current] + queue0) && Expanded(edges, dist, current)
    requires forall v :: v in dist0 ==> v in dist && dist[v] == dist0[v]
    requires forall v :: v in dist && v !in dist0 ==> v in queue
    requires queue0 <= queue
    ensures OthersExpanded(edges, dist, queue)
  {
    forall v | v in dist && v !in queue && v != current
      ensures Expanded(edges, dist, v)
    {
      assert v in dist0 && v !in [current] + queue0;
      assert Expanded(edges, dist0, v);
    }
  }

  lemma EnterStation(edges: seq<Edge>, start: StationId, dist: map<StationId, nat>, cameFrom: map<StationId, Edge>,
                     current: StationId, queue: seq<StationId>, edge: Edge)
    requires Searching(edges, start, dist, cameFrom, [current] + queue)
    requires edge.from == current && Travels(edges, edge) && edge.to !in dist
    ensures Searching(edges, start, dist[edge.to := dist[current] + 1], cameFrom[edge.to := edge],
                      [current] + (queue + [edge.to]))
  {
    var was, longer := [current] + queue, [current] + (queue + [edge.to]);
    var dist' := dist[edge.to := dist[current] + 1];
    assert was[0] == current && current in was;
    assert longer == was + [edge.to];
    forall v | v in cameFrom
      ensures Arrives(edges, dist', v, cameFrom[v])
    {
      assert Arrives(edges, dist, v, cameFrom[v]);
    }
    forall i, j | 0 <= i < j < |longer|
      ensures longer[i] != longer[j]
      ensures dist'[longer[i]] <= dist'[longer[j]]
    {
      assert was[i] in was;
      if j < |was| {
        assert was[j] in was;
      }
    }
  }

  lemma LeaveQueue(edges: seq<Edge>, start: StationId, dist: map<StationId, nat>, cameFrom: map<StationId, Edge>,
                   current: StationId, queue: seq<StationId>)
    requires Searching(edges, start, dist, cameFrom, [current] + queue)
    ensures Searching(edges, start, dist, cameFrom, queue)
  {
    var was := [current] + queue;
    forall v | v in queue
      ensures v in dist
    {
      assert v in was;
    }
    assert forall i :: 0 <= i < |queue| ==> queue[i] == was[i + 1];
  }

  /** With the goal at the front of the queue, no path from a station visited at distance at most k
      reaches it in fewer edges than the rest of its recorded distance. */
  lemma {:induction false} NoShortcut(edges: seq<Edge>, dist: map<StationId, nat>, queue: seq<StationId>,
                                      u: StationId, p: seq<Edge>, k: nat)
    requires queue != [] && queue[0] in dist
    requires forall i :: 0 <= i < |queue| ==> queue[i] in dist && dist[queue[0]] <= dist[queue[i]]
    requires OthersExpanded(edges, dist, queue)
    requires u in dist && dist[u] <= k && IsPath(edges, u, queue[0], p)
    ensures dist[queue[0]] <= k + |p|
    decreases |p|
  {
    if p != [] && dist[u] < dist[queue[0]] {
      assert Expanded(edges, dist, u);
      NoShortcut(edges, dist, queue, p[0].to, p[1..], k + 1);
    }
  }

  /** Once every visited station is expanded, paths do not leave the visited stations. */
  lemma {:induction false} StaysVisited(edges: seq<Edge>, dist: map<StationId, nat>, u: StationId, goal: StationId,
                                        p: seq<Edge>)
    requires forall v :: v in dist ==> Expanded(edges, dist, v)
    requires u in dist && IsPath(edges, u, goal, p)
    ensures goal in dist
    decreases |p|
  {
    if p != [] {
      assert Expanded(edges, dist, u);
      StaysVisited(edges, dist, p[0].to, goal, p[1..]);
    }
  }

  lemma GoalInFront(edges: seq<Edge>, start: StationId, dist: map<StationId, nat>, cameFrom: map<StationId, Edge>,
                    queue: seq<StationId>)
    requires queue != [] && Searching(edges, start, dist, cameFrom, queue) && OthersExpanded(edges, dist, queue)
    ensures queue[0] in dist && Searching(edges, start, dist, cameFrom, [])
    ensures forall p :: IsPath(edges, start, queue[0], p) ==> dist[queue[0]] <= |p|
  {
    assert queue[0] in queue;
    forall p | IsPath(edges, start, queue[0], p)
      ensures dist[queue[0]] <= |p|
    {
      NoShortcut(edges, dist, queue, start, p, 0);
    }
  }

  lemma GoalMissed(edges: seq<Edge>, start: StationId, goal: StationId, dist: map<StationId, nat>)
    requires start in dist && goal !in dist && OthersExpanded(edges, dist, [])
    ensures !Connected(edges, start, goal)
  {
    forall p | IsPath(edges, start, goal, p)
      ensures false
    {
      StaysVisited(edges, dist, start, goal, p);
    }
  }

  lemma FewerLeft(ends: set<StationId>, before: set<StationId>, after: set<StationId>)
    requires before <= after <= before + ends
    ensures before == after || |ends - after| < |ends - before|
  {
    if before != after {
      assert after == before + (after - before);
      var v :| v in after - before;
      assert ends - after <= ends - before - {v};
      SubsetSize(ends - after, ends - before - {v});
    }
  }

  lemma HeadAndRest<T>(s: seq<T>)
    requires s != []
    ensures s == [s[0]] + s[1..]
  {
  }

  /** Breadth-first search, stopped when the goal leaves the queue. */
  method Search(edges: seq<Edge>, adjacency: Adjacency, start: StationId, goal: StationId)
    returns (visited: set<StationId>, cameFrom: map<StationId, Edge>, ghost dist: map<StationId, nat>)
    requires Indexes(adjacency, edges)
    ensures visited == dist.Keys && Searching(edges, start, dist, cameFrom, [])
    ensures goal in visited ==> forall p :: IsPath(edges, start, goal, p) ==> dist[goal] <= |p|
    ensures goal !in visited ==> !Connected(edges, start, goal)
  {
    visited, cameFrom, dist := {start}, map[], map[start := 0];
    var queue := [start];
    ghost var ends := Ends(edges);
    while queue != []
      invariant visited == dist.Keys
      invariant Searching(edges, start, dist, cameFrom, queue)
      invariant OthersExpanded(edges, dist, queue)
      invariant goal in dist ==> goal in queue
      decreases |ends - visited|, |queue|
    {
      var current, rest := queue[0], queue[1..];
      if current == goal {
        GoalInFront(edges, start, dist, cameFrom, queue);
        return;
      }
      HeadAndRest(queue);
      ghost var before := visited;
      visited, queue, cameFrom, dist := Expand(edges, adjacency, start, goal, current, visited, rest, cameFrom, dist);
      FewerLeft(ends, before, visited);
    }
    if goal !in visited {
      GoalMissed(edges, start, goal, dist);
    }
  }

  /** Follows the recorded edges from the goal back to the start; the search recorded one for every
      station it meets. */
  method WalkBack(edges: seq<Edge>, cameFrom: map<StationId, Edge>, start: StationId, goal: StationId,
                  ghost dist: map<StationId, nat>)
    returns (r: Option<seq<Edge>>)
    requires Searching(edges, start, dist, cameFrom, []) && goal in dist
    ensures r.Some? && IsPath(edges, start, goal, r.value) && |r.value| == dist[goal]
  {
    var path: seq<Edge> := [];
    var cursor := goal;
    while cursor != start
      invariant cursor in dist && IsPath(edges, cursor, goal, path)
      invariant |path| + dist[cursor] == dist[goal]
      decreases dist[cursor]
    {
      if cursor !in cameFrom {
        assert false;
        return None;
      }
      var edge := cameFrom[cursor];
      assert Arrives(edges, dist, cursor, edge);
      path := [edge] + path;
      cursor := edge.from;
      assert path[1..] == path[1..];
    }
    return Some(path);
  }

  method FindTopologicalPath(fromId: StationId, toId: StationId, edges: seq<Edge>) returns (r: Option<seq<Edge>>)
    ensures r.None? <==> !Connected(edges, fromId, toId)
    ensures r.Some? ==> IsShortestPath(edges, fromId, toId, r.value)
  {
    if fromId == toId {
      assert IsPath(edges, fromId, toId, []);
      return Some([]);
    }
    var adjacency := BuildAdjacency(edges);
    var visited, cameFrom, dist := Search(edges, adjacency, fromId, toId);
    if toId !in visited {
      return None;
    }
    r := WalkBack(edges, cameFrom, fromId, toId, dist);
  }
}
