/**
 The graphs `Build` searches, in arena form: every vertex or airport object
 is a `Node` id, so Java's reference identity is id equality, and a possibly
 null reference is an `Option<Node>`.
 */
module Graphs {

  datatype Option<T> = None | Some(value: T)

  type Node = nat

  /** The ordered neighbour list of every object of a graph; an entry may be null. */
  type Arena = map<Node, seq<Option<Node>>>

  /** Every non-null reference in a neighbour list points at an object of the arena. */
  ghost predicate WellFormed(adj: Arena)
  {
    forall u, i :: u in adj && 0 <= i < |adj[u]| && adj[u][i].Some? ==> adj[u][i].value in adj
  }

  /** The edges of an arena: `w` is one of the (non-null) neighbours of `u`. */
  ghost function Links(adj: Arena): (Node, Node) -> bool
  {
    (u: Node, w: Node) => u in adj && Some(w) in adj[u]
  }

  /** Once every entry of `u`'s neighbour list is null or marked, every edge out of `u` ends in a marked node. */
  lemma AllLinksMarked(adj: Arena, u: Node, marked: set<Node>)
    requires u in adj
    requires forall j :: 0 <= j < |adj[u]| && adj[u][j].Some? ==> adj[u][j].value in marked
    ensures forall w :: Links(adj)(u, w) ==> w in marked
  {
  }

  /** `Vertex<T>` objects: each one's `neighbors` list and its `data`. */
  datatype VertexGraph<T> = VertexGraph(neighbors: Arena, data: map<Node, T>)
  {
    ghost predicate Valid()
    {
      WellFormed(neighbors) && data.Keys == neighbors.Keys
    }

    /** `vertex` is null or one of the graph's vertices. */
    predicate Has(vertex: Option<Node>)
    {
      vertex.Some? ==> vertex.value in neighbors
    }
  }

  /** `Airport` objects: each one's `getOutboundFlights()` list. */
  datatype AirportGraph = AirportGraph(outbound: Arena)
  {
    ghost predicate Valid()
    {
      WellFormed(outbound)
    }

    predicate Has(airport: Option<Node>)
    {
      airport.Some? ==> airport.value in outbound
    }
  }

  /**
   The edges of a `Map<T, List<T>>` graph: `w` is listed under key `u`. A value
   that is not a key has no neighbours (the `getOrDefault(v, List.of())` lookup).
   */
  ghost function Successors<T(!new)>(graph: map<T, seq<T>>): (T, T) -> bool
  {
    (u: T, w: T) => u in graph && w in graph[u]
  }

  /** Once every value listed under `u` is marked, every edge out of `u` ends in a marked value. */
  lemma AllSuccessorsMarked<T(!new)>(graph: map<T, seq<T>>, u: T, marked: set<T>)
    requires u in graph
    requires forall j :: 0 <= j < |graph[u]| ==> graph[u][j] in marked
    ensures forall w :: Successors(graph)(u, w) ==> w in marked
  {
  }

  /** Every value the map graph mentions, as a key or in a neighbour list. */
  ghost function Mentioned<T>(graph: map<T, seq<T>>): (vs: set<T>)
    ensures forall u, w :: u in graph && w in graph[u] ==> w in vs
    ensures graph.Keys <= vs
  {
    graph.Keys + (set u, w | u in graph && w in graph[u] :: w)
  }

  /** The `HashSet` of visited objects or values, shared by a whole search and updated in place. */
  class Visited<T(==)> {
    var elems: set<T>

    constructor ()
      ensures elems == {}
    {
      elems := {};
    }

    predicate Contains(x: T)
      reads this
    {
      x in elems
    }

    method Add(x: T)
      modifies this
      ensures elems == old(elems) + {x}
    {
      elems := elems + {x};
    }
  }
}
