/**
 The five searches of `Build`. Each public operation creates a fresh visited
 set and hands it to a recursive helper that checks it before marking a node
 and before recursing, and walks the node's neighbour list in order.

 Printing is modelled by returning the printed lines in order. Each helper
 of the vertex searches also returns, as a ghost, the sequence of nodes it
 marked; its contract pins that sequence and the final visited set to the
 reference search `DepthFirst.Dfs`, and the printed lines or the returned
 word are stated over that sequence.
 */
module Build {
  import opened Graphs
  import opened Reach
  import opened DepthFirst

  /**
   Java's `String.length()`: the number of UTF-16 code units, so a character
   outside the Basic Multilingual Plane counts twice.
   */
  function Utf16Length(s: string): (n: nat)
    ensures |s| <= n <= 2 * |s|
  {
    if s == [] then 0 else (if s[0] as int >= 0x1_0000 then 2 else 1) + Utf16Length(s[1..])
  }

  /** The lines printed while visiting `order`: the data of each vertex in `chosen`, in visiting order. */
  ghost function Emitted<T>(data: map<Node, T>, order: seq<Node>, chosen: set<Node>): seq<T>
    requires forall u :: u in order ==> u in data
  {
    if order == [] then []
    else (if order[0] in chosen then [data[order[0]]] else []) + Emitted(data, order[1..], chosen)
  }

  lemma {:induction false} EmittedConcat<T>(data: map<Node, T>, a: seq<Node>, b: seq<Node>, chosen: set<Node>)
    requires forall u :: u in a + b ==> u in data
    ensures Emitted(data, a + b, chosen) == Emitted(data, a, chosen) + Emitted(data, b, chosen)
  {
    if a == [] {
      assert a + b == b;
    } else {
      assert (a + b)[1..] == a[1..] + b;
      EmittedConcat(data, a[1..], b, chosen);
    }
  }

  /** A line is printed iff it is the data of a chosen vertex of `order`. */
  lemma {:induction false} EmittedMembers<T>(data: map<Node, T>, order: seq<Node>, chosen: set<Node>)
    requires forall u :: u in order ==> u in data
    ensures forall x :: x in Emitted(data, order, chosen) ==> exists u :: u in order && u in chosen && data[u] == x
    ensures forall u :: u in order && u in chosen ==> data[u] in Emitted(data, order, chosen)
  {
    if order != [] {
      EmittedMembers(data, order[1..], chosen);
      forall u | u in order && u != order[0]
        ensures u in order[1..]
      {
        var j :| 0 <= j < |order| && order[j] == u;
        assert order[1..][j - 1] == u;
      }
    }
  }

  /** Vertices whose data is strictly shorter than `k`. */
  ghost function ShortVertices(g: VertexGraph<string>, k: int): set<Node>
  {
    set u | u in g.data && Utf16Length(g.data[u]) < k
  }

  /** Vertices that list themselves among their neighbours (by identity). */
  ghost function SelfLoopVertices<T>(g: VertexGraph<T>): set<Node>
  {
    set u | u in g.neighbors && Some(u) in g.neighbors[u]
  }

  /**
   The longest data among the vertices of `order`, the earliest one on a tie;
   "" when `order` is empty.
   */
  ghost function FirstLongest(data: map<Node, string>, order: seq<Node>): string
    requires forall u :: u in order ==> u in data
  {
    if order == [] then ""
    else
      var rest := FirstLongest(data, order[1..]);
      if Utf16Length(rest) > Utf16Length(data[order[0]]) then rest else data[order[0]]
  }

  /** Folding with a strict `>` over consecutive stretches keeps the earliest longest. */
  lemma {:induction false} FirstLongestConcat(data: map<Node, string>, a: seq<Node>, b: seq<Node>)
    requires forall u :: u in a + b ==> u in data
    ensures FirstLongest(data, a + b)
         == if Utf16Length(FirstLongest(data, b)) > Utf16Length(FirstLongest(data, a))
            then FirstLongest(data, b) else FirstLongest(data, a)
  {
    if a == [] {
      assert a + b == b;
    } else {
      assert (a + b)[1..] == a[1..] + b;
      FirstLongestConcat(data, a[1..], b);
    }
  }

  /**
   `FirstLongest` is the data of some vertex of `order` at position `i`; it is
   at least as long as every other, and strictly longer than every one before `i`.
   */
  lemma {:induction false} FirstLongestAt(data: map<Node, string>, order: seq<Node>) returns (i: nat)
    requires order != [] && forall u :: u in order ==> u in data
    ensures i < |order| && FirstLongest(data, order) == data[order[i]]
    ensures forall j :: 0 <= j < |order| ==> Utf16Length(data[order[j]]) <= Utf16Length(FirstLongest(data, order))
    ensures forall j :: 0 <= j < i ==> Utf16Length(data[order[j]]) < Utf16Length(FirstLongest(data, order))
  {
    var rest := order[1..];
    if rest == [] {
      i := 0;
    } else {
      var k := FirstLongestAt(data, rest);
      if Utf16Length(FirstLongest(data, rest)) > Utf16Length(data[order[0]]) {
        i := k + 1;
      } else {
        i := 0;
      }
      forall j | 1 <= j < |order|
        ensures order[j] == rest[j - 1]
      {
      }
    }
  }

  /**
   A graph where the search order decides ties and output order: vertex 0
   lists 1 and then 2, whose words "aa" and "bb" are equally long.
   */
  const TieGraph: VertexGraph<string> :=
    VertexGraph(map[0 := [Some(1), Some(2)], 1 := [], 2 := []], map[0 := "s", 1 := "aa", 2 := "bb"])

  /** The search from 0 meets 1 before 2. */
  lemma TieGraphOrder()
    ensures TieGraph.Valid() && Dfs(TieGraph.neighbors, Some(0), {}).0 == [0, 1, 2]
  {
    var adj := TieGraph.neighbors;
    assert {0} + {1} == {0, 1} && {0, 1} + {2} == {0, 1, 2} && {} + {0} == {0};
    assert [1] + [] == [1] && [2] + [] == [2] && [1] + [2] == [1, 2] && [0] + [1, 2] == [0, 1, 2];
    assert DfsNeighbours(adj, 1, 0, {0, 1}) == ([], {0, 1});
    assert Dfs(adj, Some(1), {0}) == ([1], {0, 1});
    assert DfsNeighbours(adj, 2, 0, {0, 1, 2}) == ([], {0, 1, 2});
    assert Dfs(adj, Some(2), {0, 1}) == ([2], {0, 1, 2});
    assert DfsNeighbours(adj, 0, 2, {0, 1, 2}) == ([], {0, 1, 2});
    assert DfsNeighbours(adj, 0, 1, {0, 1}) == ([2], {0, 1, 2});
    assert DfsNeighbours(adj, 0, 0, {0}) == ([1, 2], {0, 1, 2});
  }

  /** So `longestWord` from 0 gives "aa", which the search meets first, and not "bb". */
  lemma TieGraphLongest()
    ensures FirstLongest(TieGraph.data, Dfs(TieGraph.neighbors, Some(0), {}).0) == "aa"
  {
    TieGraphOrder();
    assert FirstLongest(TieGraph.data, [0, 1, 2]) == "aa";
  }

  /** And `printShortWords` from 0 with `k == 3` prints "s", "aa", "bb" in that order. */
  lemma TieGraphShortWords()
    ensures Emitted(TieGraph.data, Dfs(TieGraph.neighbors, Some(0), {}).0, ShortVertices(TieGraph, 3)) == ["s", "aa", "bb"]
  {
    TieGraphOrder();
    var data := TieGraph.data;
    assert Utf16Length("aa") == 2 && Utf16Length("bb") == 2 && Utf16Length("s") == 1;
    assert 0 in ShortVertices(TieGraph, 3) && 1 in ShortVertices(TieGraph, 3) && 2 in ShortVertices(TieGraph, 3);
    assert [0, 1, 2][1..] == [1, 2] && [1, 2][1..] == [2] && [2][1..] == [];
    assert Emitted(data, [2], ShortVertices(TieGraph, 3)) == ["bb"];
    assert Emitted(data, [1, 2], ShortVertices(TieGraph, 3)) == ["aa", "bb"];
  }

  // printShortWords

  /**
   The recursive helper of `printShortWords`: it marks and visits the nodes
   of the reference search, in its order, and prints the short words among them.
   */
  method PrintShortWordsFrom(g: VertexGraph<string>, vertex: Option<Node>, k: int, visited: Visited<Node>)
      returns (printed: seq<string>, ghost order: seq<Node>)
    requires g.Valid() && g.Has(vertex)
    modifies visited
    ensures (order, visited.elems) == Dfs(g.neighbors, vertex, old(visited.elems))
    ensures printed == Emitted(g.data, order, ShortVertices(g, k))
    decreases g.neighbors.Keys - visited.elems
  {
    printed, order := [], [];
    if vertex.None? || visited.Contains(vertex.value) {
      return;
    }
    var v := vertex.value;
    ghost var before := visited.elems;
    visited.Add(v);
    order := [v];
    var value := g.data[v];
    if Utf16Length(value) < k {
      printed := [value];
    }
    var neighbors := g.neighbors[v];
    for i := 0 to |neighbors|
      invariant before + {v} <= visited.elems
      invariant order + DfsNeighbours(g.neighbors, v, i, visited.elems).0 == Dfs(g.neighbors, vertex, before).0
      invariant DfsNeighbours(g.neighbors, v, i, visited.elems).1 == Dfs(g.neighbors, vertex, before).1
      invariant forall u :: u in order ==> u in g.neighbors
      invariant printed == Emitted(g.data, order, ShortVertices(g, k))
    {
      ghost var current := visited.elems;
      var words, sub := PrintShortWordsFrom(g, neighbors[i], k, visited);
      ghost var rest := DfsNeighbours(g.neighbors, v, i + 1, visited.elems);
      assert DfsNeighbours(g.neighbors, v, i, current) == (sub + rest.0, rest.1);
      assert (order + sub) + rest.0 == order + (sub + rest.0);
      EmittedConcat(g.data, order, sub, ShortVertices(g, k));
      printed, order := printed + words, order + sub;
    }
    assert DfsNeighbours(g.neighbors, v, |neighbors|, visited.elems) == ([], visited.elems);
    assert order + [] == order;
  }

  /**
   `printShortWords`: prints the data of every vertex reachable from `vertex`
   that is shorter than `k`, in the order of the reference search; nothing for null.
   */
  method PrintShortWords(g: VertexGraph<string>, vertex: Option<Node>, k: int)
      returns (printed: seq<string>, ghost order: seq<Node>)
    requires g.Valid() && g.Has(vertex)
    ensures order == Dfs(g.neighbors, vertex, {}).0
    ensures vertex.None? ==> printed == [] && order == []
    ensures vertex.Some? ==> Enumerates(Links(g.neighbors), vertex.value, order)
    ensures forall u :: u in order ==> u in g.data
    ensures printed == Emitted(g.data, order, ShortVertices(g, k))
    ensures forall w :: w in printed ==>
              Utf16Length(w) < k &&
              exists u :: vertex.Some? && u in g.data && Reachable(Links(g.neighbors), vertex.value, u) && g.data[u] == w
    ensures forall u ::
              (vertex.Some? && u in g.data && Reachable(Links(g.neighbors), vertex.value, u) && Utf16Length(g.data[u]) < k) ==>
              g.data[u] in printed
  {
    var visited := new Visited<Node>();
    printed, order := PrintShortWordsFrom(g, vertex, k, visited);
    if vertex.Some? {
      DfsFromScratch(g.neighbors, vertex.value);
    }
    EmittedMembers(g.data, order, ShortVertices(g, k));
  }

  // longestWord

  /**
   The recursive helper of `longestWord`: it marks and visits the nodes of the
   reference search, in its order, and returns the first longest word among them.
   */
  method LongestWordFrom(g: VertexGraph<string>, vertex: Option<Node>, visited: Visited<Node>)
      returns (longest: string, ghost order: seq<Node>)
    requires g.Valid() && g.Has(vertex)
    modifies visited
    ensures (order, visited.elems) == Dfs(g.neighbors, vertex, old(visited.elems))
    ensures longest == FirstLongest(g.data, order)
    decreases g.neighbors.Keys - visited.elems
  {
    longest, order := "", [];
    if vertex.None? || visited.Contains(vertex.value) {
      return;
    }
    var v := vertex.value;
    ghost var before := visited.elems;
    visited.Add(v);
    order := [v];
    longest := g.data[v];
    var neighbors := g.neighbors[v];
    for i := 0 to |neighbors|
      invariant before + {v} <= visited.elems
      invariant order + DfsNeighbours(g.neighbors, v, i, visited.elems).0 == Dfs(g.neighbors, vertex, before).0
      invariant DfsNeighbours(g.neighbors, v, i, visited.elems).1 == Dfs(g.neighbors, vertex, before).1
      invariant forall u :: u in order ==> u in g.neighbors
      invariant longest == FirstLongest(g.data, order)
    {
      ghost var current := visited.elems;
      var word, sub := LongestWordFrom(g, neighbors[i], visited);
      ghost var rest := DfsNeighbours(g.neighbors, v, i + 1, visited.elems);
      assert DfsNeighbours(g.neighbors, v, i, current) == (sub + rest.0, rest.1);
      assert (order + sub) + rest.0 == order + (sub + rest.0);
      FirstLongestConcat(g.data, order, sub);
      if Utf16Length(word) > Utf16Length(longest) {
        longest := word;
      }
      order := order + sub;
    }
    assert DfsNeighbours(g.neighbors, v, |neighbors|, visited.elems) == ([], visited.elems);
    assert order + [] == order;
  }

  /**
   `longestWord`: "" for null; otherwise the data of a reachable vertex that
   is at least as long as every reachable vertex's data, the first such in
   the order of the reference search (so the start's own data wins a tie,
   and an earlier neighbour's subtree beats a later one's).
   */
  method LongestWord(g: VertexGraph<string>, vertex: Option<Node>)
      returns (longest: string, ghost order: seq<Node>)
    requires g.Valid() && g.Has(vertex)
    ensures order == Dfs(g.neighbors, vertex, {}).0
    ensures vertex.None? ==> longest == "" && order == []
    ensures vertex.Some? ==> Enumerates(Links(g.neighbors), vertex.value, order)
    ensures forall u :: u in order ==> u in g.data
    ensures longest == FirstLongest(g.data, order)
    ensures vertex.Some? ==>
              exists u :: u in g.data && Reachable(Links(g.neighbors), vertex.value, u) && longest == g.data[u]
    ensures forall u :: vertex.Some? && u in g.data && Reachable(Links(g.neighbors), vertex.value, u) ==>
              Utf16Length(g.data[u]) <= Utf16Length(longest)
    ensures vertex.Some? ==>
              exists i :: 0 <= i < |order| && longest == g.data[order[i]] &&
                forall j :: 0 <= j < i ==> Utf16Length(g.data[order[j]]) < Utf16Length(longest)
    ensures vertex.Some? && Utf16Length(g.data[vertex.value]) == Utf16Length(longest) ==> longest == g.data[vertex.value]
  {
    if vertex.None? {
      return "", [];
    }
    var visited := new Visited<Node>();
    longest, order := LongestWordFrom(g, vertex, visited);
    DfsFromScratch(g.neighbors, vertex.value);
    var i := FirstLongestAt(g.data, order);
    assert order[i] in order;
  }

  // printSelfLoopers

  /**
   The recursive helper of `printSelfLoopers`: it marks and visits the nodes
   of the reference search, in its order, and prints the self-looping ones.
   */
  method PrintSelfLoopersFrom<T>(g: VertexGraph<T>, vertex: Option<Node>, visited: Visited<Node>)
      returns (printed: seq<T>, ghost order: seq<Node>)
    requires g.Valid() && g.Has(vertex)
    modifies visited
    ensures (order, visited.elems) == Dfs(g.neighbors, vertex, old(visited.elems))
    ensures printed == Emitted(g.data, order, SelfLoopVertices(g))
    decreases g.neighbors.Keys - visited.elems
  {
    printed, order := [], [];
    if vertex.None? || visited.Contains(vertex.value) {
      return;
    }
    var v := vertex.value;
    ghost var before := visited.elems;
    visited.Add(v);
    order := [v];
    var neighbors := g.neighbors[v];
    if vertex in neighbors {
      printed := [g.data[v]];
    }
    for i := 0 to |neighbors|
      invariant before + {v} <= visited.elems
      invariant order + DfsNeighbours(g.neighbors, v, i, visited.elems).0 == Dfs(g.neighbors, vertex, before).0
      invariant DfsNeighbours(g.neighbors, v, i, visited.elems).1 == Dfs(g.neighbors, vertex, before).1
      invariant forall u :: u in order ==> u in g.neighbors
      invariant printed == Emitted(g.data, order, SelfLoopVertices(g))
    {
      ghost var current := visited.elems;
      var values, sub := PrintSelfLoopersFrom(g, neighbors[i], visited);
      ghost var rest := DfsNeighbours(g.neighbors, v, i + 1, visited.elems);
      assert DfsNeighbours(g.neighbors, v, i, current) == (sub + rest.0, rest.1);
      assert (order + sub) + rest.0 == order + (sub + rest.0);
      EmittedConcat(g.data, order, sub, SelfLoopVertices(g));
      printed, order := printed + values, order + sub;
    }
    assert DfsNeighbours(g.neighbors, v, |neighbors|, visited.elems) == ([], visited.elems);
    assert order + [] == order;
  }

  /**
   `printSelfLoopers`: prints the data of exactly those vertices reachable
   from `vertex` whose own neighbour list holds them, in the order of the
   reference search; nothing for null.
   */
  method PrintSelfLoopers<T>(g: VertexGraph<T>, vertex: Option<Node>)
      returns (printed: seq<T>, ghost order: seq<Node>)
    requires g.Valid() && g.Has(vertex)
    ensures order == Dfs(g.neighbors, vertex, {}).0
    ensures vertex.None? ==> printed == [] && order == []
    ensures vertex.Some? ==> Enumerates(Links(g.neighbors), vertex.value, order)
    ensures forall u :: u in order ==> u in g.data
    ensures printed == Emitted(g.data, order, SelfLoopVertices(g))
    ensures forall x :: x in printed ==>
              exists u :: vertex.Some? && u in g.neighbors && Some(u) in g.neighbors[u] &&
                Reachable(Links(g.neighbors), vertex.value, u) && g.data[u] == x
    ensures forall u ::
              (vertex.Some? && u in g.neighbors && Some(u) in g.neighbors[u] &&
               Reachable(Links(g.neighbors), vertex.value, u)) ==> g.data[u] in printed
  {
    var visited := new Visited<Node>();
    printed, order := PrintSelfLoopersFrom(g, vertex, visited);
    if vertex.Some? {
      DfsFromScratch(g.neighbors, vertex.value);
    }
    EmittedMembers(g.data, order, SelfLoopVertices(g));
  }

  // canReach

  /**
   The recursive helper of `canReach`. It follows the reference search `Seek`,
   and it returns `true` exactly when `destination` can be reached from
   `current` without passing through an airport visited before the call. On
   `false` every airport it marked has all its flights ending at marked
   airports. It never marks `destination`.
   */
  method CanReachFrom(g: AirportGraph, current: Option<Node>, destination: Option<Node>, visited: Visited<Node>)
      returns (reached: bool)
    requires g.Valid() && g.Has(current)
    modifies visited
    ensures (reached, visited.elems) == Seek(g.outbound, current, destination, old(visited.elems))
    ensures reached <==>
              current.Some? && destination.Some? &&
              ReachableAvoiding(Links(g.outbound), current.value, destination.value, old(visited.elems))
    ensures current.None? || current.value in old(visited.elems) ==> !reached && visited.elems == old(visited.elems)
    ensures old(visited.elems) <= visited.elems
    ensures destination.Some? ==> (destination.value in visited.elems <==> destination.value in old(visited.elems))
    ensures reached ==>
              current.Some? && destination.Some? && Reachable(Links(g.outbound), current.value, destination.value)
    ensures !reached && current.Some? ==> current.value in visited.elems
    ensures !reached ==>
              forall u, w :: u in visited.elems && u !in old(visited.elems) && Links(g.outbound)(u, w) ==> w in visited.elems
    decreases g.outbound.Keys - visited.elems
  {
    if current.None? || visited.Contains(current.value) {
      if current.Some? && destination.Some? {
        AvoidingFromInside(Links(g.outbound), current.value, destination.value, visited.elems);
      }
      return false;
    }
    if current == destination {
      ReachableRefl(Links(g.outbound), current.value);
      AvoidingRefl(Links(g.outbound), current.value, visited.elems);
      return true;
    }
    var c := current.value;
    ghost var before := visited.elems;
    visited.Add(c);
    var flights := g.outbound[c];
    var i := 0;
    while i < |flights|
      invariant 0 <= i <= |flights|
      invariant before + {c} <= visited.elems
      invariant SeekNeighbours(g.outbound, c, destination, i, visited.elems) == Seek(g.outbound, current, destination, before)
      invariant destination.Some? ==> (destination.value in visited.elems <==> destination.value in before)
      invariant forall j :: 0 <= j < i && flights[j].Some? ==> flights[j].value in visited.elems
      invariant forall u, w :: u in visited.elems && u !in before && u != c && Links(g.outbound)(u, w) ==> w in visited.elems
    {
      ghost var now := visited.elems;
      var found := CanReachFrom(g, flights[i], destination, visited);
      if found {
        assert Links(g.outbound)(c, flights[i].value);
        ReachablePrepend(Links(g.outbound), c, flights[i].value, destination.value);
        AvoidingPrepend(Links(g.outbound), c, flights[i].value, destination.value, before, now);
        return true;
      }
      i := i + 1;
    }
    AllLinksMarked(g.outbound, c, visited.elems);
    if destination.Some? && ReachableAvoiding(Links(g.outbound), c, destination.value, before) {
      AvoidingStaysIn(Links(g.outbound), visited.elems, before, c, destination.value);
      assert false;
    }
    return false;
  }

  /**
   Called with airport 1 already visited, the helper searching 0 -> 1 -> 2
   for 2 marks 0 and gives false: the only way on passes through 1.
   */
  lemma SeekThroughVisitedExample()
    ensures Seek(map[0 := [Some(1)], 1 := [Some(2)], 2 := []], Some(0), Some(2), {1}) == (false, {0, 1})
  {
    var adj: Arena := map[0 := [Some(1)], 1 := [Some(2)], 2 := []];
    assert {1} + {0} == {0, 1};
    assert Seek(adj, Some(1), Some(2), {0, 1}) == (false, {0, 1});
    assert SeekNeighbours(adj, 0, Some(2), 1, {0, 1}) == (false, {0, 1});
    assert SeekNeighbours(adj, 0, Some(2), 0, {0, 1}) == (false, {0, 1});
  }

  /**
   `canReach`: false if either airport is null; true at once when they are
   the same airport; otherwise whether `destination` is reachable from
   `start` along outbound flights.
   */
  method CanReach(g: AirportGraph, start: Option<Node>, destination: Option<Node>) returns (r: bool)
    requires g.Valid() && g.Has(start)
    ensures r <==> start.Some? && destination.Some? && Reachable(Links(g.outbound), start.value, destination.value)
    ensures start.Some? && start == destination ==> r
  {
    if start.None? || destination.None? {
      return false;
    }
    if start == destination {
      ReachableRefl(Links(g.outbound), start.value);
      return true;
    }
    var visited := new Visited<Node>();
    r := CanReachFrom(g, start, destination, visited);
    AvoidingNothing(Links(g.outbound), start.value, destination.value);
  }

  // unreachable

  /**
   The recursive helper of `unreachable`: it marks the values of the reference
   search `MapDfs`, in its order, starting from any visited set.
   */
  method UnreachableFrom<T(==,!new)>(graph: map<T, seq<T>>, current: T, visited: Visited<T>)
      returns (ghost order: seq<T>)
    modifies visited
    ensures (order, visited.elems) == MapDfs(graph, current, old(visited.elems))
    ensures Explores(Successors(graph), current, old(visited.elems), visited.elems, order)
    decreases Mentioned(graph) - visited.elems
  {
    order := [];
    ghost var before := visited.elems;
    MapDfsExplores(graph, current, before);
    if visited.Contains(current) {
      return;
    }
    visited.Add(current);
    order := [current];
    var neighbors := if current in graph then graph[current] else [];
    for i := 0 to |neighbors|
      invariant before + {current} <= visited.elems
      invariant current !in graph ==> order == [current] && visited.elems == before + {current}
      invariant current in graph ==>
                  order + MapDfsNeighbours(graph, current, i, visited.elems).0 == MapDfs(graph, current, before).0
      invariant current in graph ==> MapDfsNeighbours(graph, current, i, visited.elems).1 == MapDfs(graph, current, before).1
    {
      ghost var now := visited.elems;
      assert neighbors[i] in Mentioned(graph);
      ghost var sub := UnreachableFrom(graph, neighbors[i], visited);
      ghost var rest := MapDfsNeighbours(graph, current, i + 1, visited.elems);
      assert MapDfsNeighbours(graph, current, i, now) == (sub + rest.0, rest.1);
      assert (order + sub) + rest.0 == order + (sub + rest.0);
      order := order + sub;
    }
    if current in graph {
      assert MapDfsNeighbours(graph, current, |neighbors|, visited.elems) == ([], visited.elems);
      assert order + [] == order;
    }
  }

  /**
   Called with 1 already visited, the helper on 0 -> 1 -> 2 marks only 0:
   2 lies behind the visited 1.
   */
  lemma MapDfsThroughVisitedExample()
    ensures MapDfs(map[0 := [1], 1 := [2], 2 := []], 0, {1}) == ([0], {0, 1})
  {
    var graph := map[0 := [1], 1 := [2], 2 := []];
    assert {1} + {0} == {0, 1} && [0] + [] == [0];
    assert MapDfs(graph, 1, {0, 1}) == ([], {0, 1});
    var none: seq<int> := [];
    assert graph[0] == [1] && none + none == none;
    assert MapDfsNeighbours(graph, 0, 1, {0, 1}) == ([], {0, 1});
    assert MapDfsNeighbours(graph, 0, 0, {0, 1}) == ([], {0, 1});
  }

  /**
   `unreachable`: every key when `starting` is not a key; otherwise the keys
   not reachable from `starting` (a value with no entry has no neighbours).
   */
  method Unreachable<T(==,!new)>(graph: map<T, seq<T>>, starting: T) returns (unreached: set<T>)
    ensures starting !in graph ==> unreached == graph.Keys
    ensures starting in graph ==>
              forall x :: x in unreached <==> x in graph && !Reachable(Successors(graph), starting, x)
    ensures unreached <= graph.Keys && starting !in unreached
  {
    var visited := new Visited<T>();
    if starting !in graph {
      return graph.Keys;
    }
    ghost var order := UnreachableFrom(graph, starting, visited);
    ExploredFromScratch(Successors(graph), starting, visited.elems, order);
    unreached := graph.Keys - visited.elems;
  }
}
