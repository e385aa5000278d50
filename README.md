# dfs-build in Dafny

This project models `Build`, a small library of depth-first searches over
directed graphs that may contain cycles and self-loops. Each search has a
public entry point and a recursive helper. The entry point creates a fresh
visited set. Every helper returns at once on an already visited node. The
vertex and airport helpers also return at once on a null node; the map-graph
helper has no null check, since null is an ordinary key there. Otherwise the
helper marks the node, does its work, and recurses into the node's neighbours
in list order. The `canReach` helper is the one exception to this order: it
returns true on the destination before marking it, and it stops at the first
neighbour that succeeds. The five searches are:

- `printShortWords`: prints the reachable words shorter than `k`.
- `longestWord`: returns the longest reachable word; on a tie, the first one
  met wins.
- `printSelfLoopers`: prints the reachable vertices that list themselves as a
  neighbour.
- `canReach`: point-to-point reachability between airports, stopping early.
- `unreachable`: the keys of an adjacency map that the search from a start
  key never reaches.

How the Java is represented:

- Objects become node ids in an arena (`Graphs.Arena`, a map from a node id to
  its ordered neighbour list). Java reference identity is id equality, and a
  reference that may be null is an `Option<Node>`.
- A `Vertex<T>` graph is `Graphs.VertexGraph` (`neighbors` plus `data`). An
  `Airport` graph is `Graphs.AirportGraph` (`getOutboundFlights()` becomes
  `outbound`). The map graph is a `map<T, seq<T>>`.
- The shared `HashSet` is the class `Graphs.Visited`, whose `elems` field every
  helper updates in place (`modifies visited`).
- What a search prints is returned as the sequence of printed lines.

Reachability is defined once, in `Reach.Reachable`, as the existence of a
path. `Reach.ReachableAvoiding` asks for a path that avoids a given set of
nodes. The public searches are stated against `Reachable`. The helpers can be
called with a visited set that is not empty, and each one is stated against a
reference search in `DepthFirst` that takes that set as an argument:

- `Dfs` for the three vertex helpers;
- `Seek` for the `canReach` helper;
- `MapDfs` for the `unreachable` helper, where a value with no entry has no
  neighbours.

The order of the vertex searches is fixed by `DepthFirst.Dfs`. It checks the visited set, marks the node, then searches the
neighbours in list order, each with the visited set the previous one left. It
returns the nodes it marked, in the order it marked them, and the final
visited set. Each vertex helper returns a ghost `order`, and its contract says
that `order` and the new visited set are exactly what `Dfs` gives for the old
visited set. The printed lines and the returned word are stated over `order`.

`Reach.Explores` describes a finished search with a visited set:

- it marked exactly the nodes of `order`, each one once;
- its start node comes first;
- all of them are reachable from the start;
- every edge out of them ends in a marked node.

`DepthFirst.DfsExplores` proves that `Dfs` is such a search.
`Reach.ExploredFromScratch` and `DepthFirst.DfsFromScratch` turn this into the
top-level guarantee: started with an empty visited set, the search marks
exactly the reachable nodes, once each, start first. The `unreachable` helper
returns nothing in Java. Its model returns the ghost `order` of `MapDfs`.
`DepthFirst.MapDfsExplores` proves that `MapDfs` is a finished search in the
sense of `Reach.Explores`, as `DfsExplores` does for `Dfs`.

The `canReach` helper returns true exactly when the destination can be
reached from the current airport along a path that avoids the airports
visited before the call. With an empty visited set this is plain
reachability (`Reach.AvoidingNothing`).

Java's `String.length()` counts UTF-16 code units. `Build.Utf16Length` models
it: a character outside the Basic Multilingual Plane counts twice.

Termination has a measure: the set of arena nodes (for the map graph, the
values it mentions) that are not yet visited. That set shrinks before every
recursive call, because the node is marked before its neighbours are walked.

## Model

| member | source | states |
|---|---|---|
| `Build.PrintShortWords` | src/Build.java:9-20 | null start prints nothing. Otherwise `order` is the order of `Dfs` from the start with nothing visited, and it lists every reachable vertex once, start first. The output is the data of the vertices of `order` shorter than `k` (in UTF-16 code units), in that order. Every printed word is shorter than `k` and is a reachable vertex's data. Every reachable word shorter than `k` is printed. |
| `Build.PrintShortWordsFrom` | src/Build.java:22-36 | `order` and the new visited set are exactly what `Dfs` gives from `vertex` with the old visited set: nothing for a null or visited vertex. It prints the short words of the vertices of `order`, in that order. |
| `Build.LongestWord` | src/Build.java:39-51 | null start gives "". Otherwise `order` is the order of `Dfs` from the start, and the result is the data of a reachable vertex. It is at least as long as every reachable vertex's data. It is the first such value in `order`: every vertex before it there has strictly shorter data. The start's own value wins a tie. |
| `Build.LongestWordFrom` | src/Build.java:54-69 | `order` and the new visited set are exactly what `Dfs` gives with the old visited set. The result is `FirstLongest` of the data of `order`: "" when `order` is empty. |
| `Build.FirstLongestConcat` | src/Build.java:59-66 | The strict `>` fold over the values of consecutive sub-searches gives the first longest value of the whole sequence. |
| `Build.FirstLongestAt` | src/Build.java:39-43 | `FirstLongest` of a non-empty sequence is the data at some position `i`. It is at least as long as every element and strictly longer than every element before `i`. |
| `Build.PrintSelfLoopers` | src/Build.java:72-82 | null start prints nothing. Otherwise `order` is the order of `Dfs` from the start. The output is the data of exactly those reachable vertices whose own neighbour list contains them by identity, in the order of `order`. |
| `Build.PrintSelfLoopersFrom` | src/Build.java:85-98 | `order` and the new visited set are exactly what `Dfs` gives with the old visited set. It prints the data of the self-looping vertices of `order`, in that order. |
| `Build.EmittedMembers` | src/Build.java:29-31 | A value is in the printed sequence iff it is the data of a vertex of the traversal that meets the print condition. |
| `Build.EmittedConcat` | src/Build.java:33-35 | The lines printed over two consecutive parts of the traversal are the lines of the first part followed by the lines of the second. |
| `Build.Utf16Length` | src/Build.java:29 | The UTF-16 length of a string is at least its number of characters and at most twice that. |
| `Build.TieGraphOrder` | src/Build.java:33-35 | On a vertex 0 listing 1 then 2, the search from 0 marks 0, 1, 2 in that order. |
| `Build.TieGraphLongest` | src/Build.java:59-66 | On that graph, with words "s", "aa", "bb", the first longest word in the order of `Dfs` from 0 is "aa" and not the equally long "bb". |
| `Build.TieGraphShortWords` | src/Build.java:26-35 | On that graph with `k == 3`, the lines printed in the order of `Dfs` from 0 are "s", "aa", "bb", in that order. |
| `DepthFirst.DfsExplores` | src/Build.java:22-36 | The reference search marks each node once, the start first, only nodes reachable from the start and not visited before. Every edge out of a node it marked ends in a visited node. A null or visited start changes nothing. |
| `DepthFirst.DfsNeighboursExploring` | src/Build.java:33-35 | Searching the remaining neighbours one after the other keeps the search from the current node well formed, and afterwards every neighbour is visited. |
| `DepthFirst.DfsFromScratch` | src/Build.java:17-18 | Started with nothing visited, the reference search lists every node reachable from the start once, start first, and leaves exactly those nodes visited. |
| `DepthFirst.MapDfsExplores` | src/Build.java:160-168 | The map-graph search marks each value once, the start first, only values reachable from the start and not visited before. Every value listed under a value it marked is visited afterwards; a value with no entry lists nothing. An already visited start changes nothing. |
| `DepthFirst.MapDfsNeighboursExploring` | src/Build.java:164-166 | Searching the remaining listed values one after the other keeps the search from the current value well formed, and afterwards every listed value is visited. |
| `Build.CanReach` | src/Build.java:99-114 | false if either airport is null; true if start and destination are the same airport. Otherwise true iff the destination is reachable from the start along outbound flights. |
| `Build.CanReachFrom` | src/Build.java:117-131 | The result and the new visited set are exactly those of `Seek` with the old visited set. The result is true iff the destination is reachable from the current airport by a path that avoids every airport visited before the call. A null or already visited airport gives false and leaves the visited set unchanged. The destination is never marked. On false, the current airport is marked, and every flight out of an airport marked by this call lands on a marked airport. |
| `Build.Unreachable` | src/Build.java:133-158 | A start that is not a key gives all the keys. Otherwise the result is exactly the keys not reachable from the start, where a missing entry means no neighbours. The result is always a subset of the keys and never holds the start. |
| `Build.UnreachableFrom` | src/Build.java:160-168 | `order` and the new visited set are exactly what `MapDfs` gives from `current` with the old visited set. An already visited value does nothing. Otherwise the helper marks the current value first, then only values not visited before, each once. Those values are reachable, and each one's listed neighbours (none for a missing key) are visited afterwards. |
| `Build.SeekThroughVisitedExample` | src/Build.java:117-129 | On flights 0 -> 1 -> 2 with airport 1 already visited, the search from 0 for 2 gives false and marks only 0. |
| `Build.MapDfsThroughVisitedExample` | src/Build.java:160-166 | On the map 0 -> 1 -> 2 with 1 already visited, the search from 0 marks only 0. |
| `Reach.AvoidingNothing` | src/Build.java:112-113 | Reaching while avoiding the empty set is plain reachability. |
| `Reach.AvoidingRefl` | src/Build.java:120 | A node outside the avoided set reaches itself. |
| `Reach.AvoidingPrepend` | src/Build.java:124-127 | An edge from a node outside the avoided set, followed by a path that avoids a larger set, is a path that avoids the smaller set. |
| `Reach.AvoidingStaysIn` | src/Build.java:118-129 | A set that holds the start, and that no edge leaves from a node outside the avoided set, holds every node reachable while avoiding that set. |
| `Reach.ExploringStep` | src/Build.java:33-35 | Recursing into a neighbour of the current node keeps the current search well formed. Each node is still marked once, and the neighbour's nodes are reachable from the current node. |
| `Reach.ExploredFromScratch` | src/Build.java:151-155 | A search started with an empty visited set marks exactly the nodes reachable from its start, each once, start first. |
| `Reach.ClosedContainsReachable` | src/Build.java:161-166 | A set that holds the start and that no edge leaves holds every node reachable from the start. |
| `Reach.ReachablePrepend` | src/Build.java:124-127 | If a neighbour of `v` reaches the destination, then so does `v`. |

## Left out

- `System.out.println` is not modelled as I/O. The printing searches return the printed lines in order.
- The `Vertex` and `Airport` classes are not part of this model. Their objects are the ids of an arena. Each search requires the arena to be closed (every non-null neighbour is an object of the arena) and the start to be null or in the arena. This is the arena form of "every reference points at an object".
- A null `data` string, or a null list stored under a key of the map graph, would make the Java throw `NullPointerException`. The model has no null strings and no null lists.
- `HashSet` and `HashMap` hashing and `equals` are not modelled. Vertex and airport identity is id equality. The map graph's values are compared with Dafny equality.
- `Build.CanReach`: skipping the visited set when start and destination are the same airport is not observable, so only the returned value is stated.
- Recursion depth and stack overflow are not modelled.
- The idempotence of `unreachable` is not stated as a separate lemma. The result is a function of the map and the start, and `Build.Unreachable`'s postconditions determine it exactly.
- A Java string is modelled as a Dafny `string`, a sequence of Unicode scalar values. A Java string holding an unpaired surrogate cannot be represented. `Build.Utf16Length` gives `String.length()` for every string that can be.
