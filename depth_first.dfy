/**
 The depth-first search over an arena as a reference definition: the nodes
 it marks, in the order it marks them, and the visited set it leaves behind.
 It checks the visited set before marking a node, marks it, then searches
 its neighbours in list order, each with the visited set the previous one
 left. The helpers of `Build` are proved to follow it exactly.

 `Seek` is the search of `canReach`, which stops at the destination, and
 `MapDfs` the search of `unreachable` over a map graph.
 */
module DepthFirst {
  import opened Graphs
  import opened Reach

  /** The search from `vertex` with visited set `visited`: (marked nodes in marking order, final visited set). */
  ghost function Dfs(adj: Arena, vertex: Option<Node>, visited: set<Node>): (r: (seq<Node>, set<Node>))
    requires WellFormed(adj) && (vertex.Some? ==> vertex.value in adj)
    ensures visited <= r.1
    ensures forall u :: u in r.0 ==> u in adj
    decreases adj.Keys - visited, 0, 0
  {
    if vertex.None? || vertex.value in visited then ([], visited)
    else
      var rest := DfsNeighbours(adj, vertex.value, 0, visited + {vertex.value});
      ([vertex.value] + rest.0, rest.1)
  }

  /** The searches from the neighbours of `v` at positions `i` onwards, one after the other. */
  ghost function DfsNeighbours(adj: Arena, v: Node, i: nat, visited: set<Node>): (r: (seq<Node>, set<Node>))
    requires WellFormed(adj) && v in adj && i <= |adj[v]|
    ensures visited <= r.1
    ensures forall u :: u in r.0 ==> u in adj
    decreases adj.Keys - visited, 1, |adj[v]| - i
  {
    if i == |adj[v]| then ([], visited)
    else
      var first := Dfs(adj, adj[v][i], visited);
      var rest := DfsNeighbours(adj, v, i + 1, first.1);
      (first.0 + rest.0, rest.1)
  }

  /** What a search from a possibly null vertex did: nothing for null, otherwise a finished search. */
  ghost predicate Searched(adj: Arena, vertex: Option<Node>, before: set<Node>, after: set<Node>, order: seq<Node>)
  {
    && (vertex.None? ==> after == before && order == [])
    && (vertex.Some? ==> Explores(Links(adj), vertex.value, before, after, order))
    && (forall u :: u in order ==> u in adj)
  }

  /**
   The reference search marks each node once, only nodes reachable from its
   start and not visited before, and leaves every edge out of them ending in
   a visited node.
   */
  lemma {:induction false} DfsExplores(adj: Arena, vertex: Option<Node>, visited: set<Node>)
    requires WellFormed(adj) && (vertex.Some? ==> vertex.value in adj)
    ensures Searched(adj, vertex, visited, Dfs(adj, vertex, visited).1, Dfs(adj, vertex, visited).0)
    decreases adj.Keys - visited, 0, 0
  {
    if vertex.Some? && vertex.value !in visited {
      var v := vertex.value;
      ExploringStart(Links(adj), v, visited);
      DfsNeighboursExploring(adj, v, 0, visited, visited + {v}, [v]);
      var rest := DfsNeighbours(adj, v, 0, visited + {v});
      AllLinksMarked(adj, v, rest.1);
      ExploringDone(Links(adj), v, visited, rest.1, [v] + rest.0);
    }
  }

  /** Searching the remaining neighbours of `v` keeps the search from `v` well formed and marks them all. */
  lemma {:induction false} DfsNeighboursExploring(adj: Arena, v: Node, i: nat, before: set<Node>,
                                                  current: set<Node>, order: seq<Node>)
    requires WellFormed(adj) && v in adj && i <= |adj[v]|
    requires Exploring(Links(adj), v, before, current, order)
    requires forall j :: 0 <= j < i && adj[v][j].Some? ==> adj[v][j].value in current
    ensures Exploring(Links(adj), v, before, DfsNeighbours(adj, v, i, current).1, order + DfsNeighbours(adj, v, i, current).0)
    ensures forall j :: 0 <= j < |adj[v]| && adj[v][j].Some? ==> adj[v][j].value in DfsNeighbours(adj, v, i, current).1
    decreases adj.Keys - current, 1, |adj[v]| - i
  {
    if i == |adj[v]| {
      assert order + [] == order;
    } else {
      var n := adj[v][i];
      var first := Dfs(adj, n, current);
      DfsExplores(adj, n, current);
      var next := order + first.0;
      if n.Some? {
        assert Links(adj)(v, n.value);
        ExploringStep(Links(adj), v, n.value, before, current, order, first.1, first.0);
      } else {
        assert next == order;
      }
      DfsNeighboursExploring(adj, v, i + 1, before, first.1, next);
      var rest := DfsNeighbours(adj, v, i + 1, first.1);
      assert next + rest.0 == order + (first.0 + rest.0);
    }
  }

  /**
   Started with nothing visited from a vertex, the reference search marks
   exactly the vertices reachable from it, each once, the start first, and
   leaves exactly those visited.
   */
  lemma DfsFromScratch(adj: Arena, s: Node)
    requires WellFormed(adj) && s in adj
    ensures Enumerates(Links(adj), s, Dfs(adj, Some(s), {}).0)
    ensures forall u :: u in Dfs(adj, Some(s), {}).1 <==> Reachable(Links(adj), s, u)
  {
    DfsExplores(adj, Some(s), {});
    ExploredFromScratch(Links(adj), s, Dfs(adj, Some(s), {}).1, Dfs(adj, Some(s), {}).0);
  }

  /**
   The search of `canReach` from `current` for `destination`: whether it
   finds it, and the visited set it leaves behind. A null or visited airport
   gives false; the destination gives true before it is marked; otherwise the
   airport is marked and its flights are searched in order until one succeeds.
   */
  ghost function Seek(adj: Arena, current: Option<Node>, destination: Option<Node>, visited: set<Node>): (r: (bool, set<Node>))
    requires WellFormed(adj) && (current.Some? ==> current.value in adj)
    ensures visited <= r.1
    decreases adj.Keys - visited, 0, 0
  {
    if current.None? || current.value in visited then (false, visited)
    else if current == destination then (true, visited)
    else SeekNeighbours(adj, current.value, destination, 0, visited + {current.value})
  }

  /** The searches from the flights of `c` at positions `i` onwards, until one finds the destination. */
  ghost function SeekNeighbours(adj: Arena, c: Node, destination: Option<Node>, i: nat, visited: set<Node>): (r: (bool, set<Node>))
    requires WellFormed(adj) && c in adj && i <= |adj[c]|
    ensures visited <= r.1
    decreases adj.Keys - visited, 1, |adj[c]| - i
  {
    if i == |adj[c]| then (false, visited)
    else
      var first := Seek(adj, adj[c][i], destination, visited);
      if first.0 then first else SeekNeighbours(adj, c, destination, i + 1, first.1)
  }

  /**
   The search of `unreachable` from `current` over a map graph: the values it
   marks, in the order it marks them, and the visited set it leaves behind. A
   value with no entry has no neighbours, so its search ends once it is marked.
   */
  ghost function MapDfs<T>(graph: map<T, seq<T>>, current: T, visited: set<T>): (r: (seq<T>, set<T>))
    ensures visited <= r.1
    decreases Mentioned(graph) - visited, 0, 0
  {
    if current in visited then ([], visited)
    else if current !in graph then ([current], visited + {current})
    else
      var rest := MapDfsNeighbours(graph, current, 0, visited + {current});
      ([current] + rest.0, rest.1)
  }

  /** The searches from the values listed under `v` at positions `i` onwards, one after the other. */
  ghost function MapDfsNeighbours<T>(graph: map<T, seq<T>>, v: T, i: nat, visited: set<T>): (r: (seq<T>, set<T>))
    requires v in graph && i <= |graph[v]|
    ensures visited <= r.1
    decreases Mentioned(graph) - visited, 1, |graph[v]| - i
  {
    if i == |graph[v]| then ([], visited)
    else
      var first := MapDfs(graph, graph[v][i], visited);
      var rest := MapDfsNeighbours(graph, v, i + 1, first.1);
      (first.0 + rest.0, rest.1)
  }

  /**
   The search of a map graph marks each value once, only values reachable
   from its start and not visited before, and leaves every listed neighbour of
   them visited.
   */
  lemma {:induction false} MapDfsExplores<T(!new)>(graph: map<T, seq<T>>, current: T, visited: set<T>)
    ensures Explores(Successors(graph), current, visited, MapDfs(graph, current, visited).1, MapDfs(graph, current, visited).0)
    decreases Mentioned(graph) - visited, 0, 0
  {
    if current !in visited {
      ExploringStart(Successors(graph), current, visited);
      if current in graph {
        MapDfsNeighboursExploring(graph, current, 0, visited, visited + {current}, [current]);
        var rest := MapDfsNeighbours(graph, current, 0, visited + {current});
        AllSuccessorsMarked(graph, current, rest.1);
        ExploringDone(Successors(graph), current, visited, rest.1, [current] + rest.0);
      } else {
        ExploringDone(Successors(graph), current, visited, visited + {current}, [current]);
      }
    }
  }

  /** Searching the remaining values listed under `v` keeps the search from `v` well formed and marks them all. */
  lemma {:induction false} MapDfsNeighboursExploring<T(!new)>(graph: map<T, seq<T>>, v: T, i: nat, before: set<T>,
                                                              current: set<T>, order: seq<T>)
    requires v in graph && i <= |graph[v]|
    requires Exploring(Successors(graph), v, before, current, order)
    requires forall j :: 0 <= j < i ==> graph[v][j] in current
    ensures Exploring(Successors(graph), v, before, MapDfsNeighbours(graph, v, i, current).1,
                      order + MapDfsNeighbours(graph, v, i, current).0)
    ensures forall j :: 0 <= j < |graph[v]| ==> graph[v][j] in MapDfsNeighbours(graph, v, i, current).1
    decreases Mentioned(graph) - current, 1, |graph[v]| - i
  {
    if i == |graph[v]| {
      assert order + [] == order;
    } else {
      var n := graph[v][i];
      var first := MapDfs(graph, n, current);
      MapDfsExplores(graph, n, current);
      assert Successors(graph)(v, n);
      ExploringStep(Successors(graph), v, n, before, current, order, first.1, first.0);
      MapDfsNeighboursExploring(graph, v, i + 1, before, first.1, order + first.0);
      var rest := MapDfsNeighbours(graph, v, i + 1, first.1);
      assert (order + first.0) + rest.0 == order + (first.0 + rest.0);
    }
  }
}
