/**
 Reachability in a directed graph given by an edge relation, and the facts
 about a depth-first search with a visited set that every search of the
 `Build` module shares.

 A search started at `s` with visited set `before` that ends with visited set
 `after` is described by the sequence `order` of the nodes it newly marked, in
 the order it marked them (`Explores`). While a search is still walking the
 neighbours of `s`, the weaker `Exploring` holds.
 */
module Reach {

  /** Every consecutive pair of `p` is an edge. */
  ghost predicate IsPath<T(!new)>(E: (T, T) -> bool, p: seq<T>)
  {
    forall i :: 0 <= i < |p| - 1 ==> E(p[i], p[i + 1])
  }

  /** `t` can be reached from `s` along zero or more edges. */
  ghost predicate Reachable<T(!new)>(E: (T, T) -> bool, s: T, t: T)
  {
    exists p: seq<T> :: |p| > 0 && p[0] == s && p[|p| - 1] == t && IsPath(E, p)
  }

  /** `t` can be reached from `s` along a path none of whose nodes is in `X`. */
  ghost predicate ReachableAvoiding<T(!new)>(E: (T, T) -> bool, s: T, t: T, X: set<T>)
  {
    exists p: seq<T> :: |p| > 0 && p[0] == s && p[|p| - 1] == t && IsPath(E, p) && (forall i :: 0 <= i < |p| ==> p[i] !in X)
  }

  /** No edge leaves `S`. */
  ghost predicate Closed<T(!new)>(E: (T, T) -> bool, S: set<T>)
  {
    forall u, w :: u in S && E(u, w) ==> w in S
  }

  ghost predicate Distinct<T(!new)>(s: seq<T>)
  {
    forall i, j :: 0 <= i < j < |s| ==> s[i] != s[j]
  }

  /** `order` lists every node reachable from `s` exactly once, `s` first. */
  ghost predicate Enumerates<T(!new)>(E: (T, T) -> bool, s: T, order: seq<T>)
  {
    && |order| > 0
    && order[0] == s
    && Distinct(order)
    && (forall u :: u in order <==> Reachable(E, s, u))
  }

  /**
   A finished search from `s`: it marked exactly the nodes of `order`, each
   once, `s` first (nothing at all if `s` was already marked); every one of
   them is reachable from `s`, and every edge out of them ends in a marked node.
   */
  ghost predicate Explores<T(!new)>(E: (T, T) -> bool, s: T, before: set<T>, after: set<T>, order: seq<T>)
  {
    && before <= after
    && (forall u :: u in order <==> u in after && u !in before)
    && Distinct(order)
    && (s in before ==> order == [])
    && (s !in before ==> |order| > 0 && order[0] == s)
    && (forall u :: u in order ==> Reachable(E, s, u))
    && (forall u, w :: u in order && E(u, w) ==> w in after)
  }

  /** A search from `s` that has marked `s` and is still walking its neighbours. */
  ghost predicate Exploring<T(!new)>(E: (T, T) -> bool, s: T, before: set<T>, current: set<T>, order: seq<T>)
  {
    && s !in before
    && before <= current
    && (forall u :: u in order <==> u in current && u !in before)
    && Distinct(order)
    && |order| > 0
    && order[0] == s
    && (forall u :: u in order ==> Reachable(E, s, u))
    && (forall u, w :: u in order && u != s && E(u, w) ==> w in current)
  }

  lemma ReachableRefl<T(!new)>(E: (T, T) -> bool, s: T)
    ensures Reachable(E, s, s)
  {
    assert IsPath(E, [s]);
  }

  /** A path from a neighbour `n` of `v` extends to a path from `v`. */
  lemma ReachablePrepend<T(!new)>(E: (T, T) -> bool, v: T, n: T, t: T)
    requires E(v, n) && Reachable(E, n, t)
    ensures Reachable(E, v, t)
  {
    var p :| |p| > 0 && p[0] == n && p[|p| - 1] == t && IsPath(E, p);
    var q := [v] + p;
    forall i | 0 <= i < |q| - 1
      ensures E(q[i], q[i + 1])
    {
      if i > 0 {
        assert q[i] == p[i - 1] && q[i + 1] == p[i];
      }
    }
    assert q[|q| - 1] == t;
    assert IsPath(E, q);
  }

  /** A closed set holding `s` holds everything reachable from `s`. */
  lemma ClosedContainsReachable<T(!new)>(E: (T, T) -> bool, S: set<T>, s: T, t: T)
    requires s in S && Closed(E, S) && Reachable(E, s, t)
    ensures t in S
  {
    var p :| |p| > 0 && p[0] == s && p[|p| - 1] == t && IsPath(E, p);
    var i := 0;
    while i < |p| - 1
      invariant 0 <= i < |p|
      invariant p[i] in S
    {
      assert E(p[i], p[i + 1]);
      i := i + 1;
    }
  }

  /** Marking an unmarked `s` starts a search from it. */
  lemma ExploringStart<T(!new)>(E: (T, T) -> bool, s: T, before: set<T>)
    requires s !in before
    ensures Exploring(E, s, before, before + {s}, [s])
  {
  }

  /** Exploring a neighbour `n` of `s` keeps the search from `s` going. */
  lemma ExploringStep<T(!new)>(E: (T, T) -> bool, s: T, n: T, before: set<T>, current: set<T>,
                         order: seq<T>, after: set<T>, sub: seq<T>)
    requires Exploring(E, s, before, current, order)
    requires E(s, n) && Explores(E, n, current, after, sub)
    ensures Exploring(E, s, before, after, order + sub)
  {
    var all := order + sub;
    forall i, j | 0 <= i < j < |all|
      ensures all[i] != all[j]
    {
      if j < |order| {
        assert all[i] == order[i] && all[j] == order[j];
      } else if i >= |order| {
        assert all[i] == sub[i - |order|] && all[j] == sub[j - |order|];
      } else {
        assert all[i] == order[i] && all[i] in current;
        assert all[j] == sub[j - |order|] && all[j] in sub;
      }
    }
    forall u | u in sub
      ensures Reachable(E, s, u)
    {
      ReachablePrepend(E, s, n, u);
    }
  }

  /** Once every neighbour of `s` is marked, the search from `s` is finished. */
  lemma ExploringDone<T(!new)>(E: (T, T) -> bool, s: T, before: set<T>, current: set<T>, order: seq<T>)
    requires Exploring(E, s, before, current, order)
    requires forall w :: E(s, w) ==> w in current
    ensures Explores(E, s, before, current, order)
  {
  }

  /**
   A search started with nothing marked marks exactly the nodes reachable
   from its start, each once, its start first.
   */
  lemma ExploredFromScratch<T(!new)>(E: (T, T) -> bool, s: T, after: set<T>, order: seq<T>)
    requires Explores(E, s, {}, after, order)
    ensures Enumerates(E, s, order)
    ensures forall u :: u in after <==> Reachable(E, s, u)
  {
    assert Closed(E, after);
    forall u | Reachable(E, s, u)
      ensures u in after
    {
      ClosedContainsReachable(E, after, s, u);
    }
  }

  /** With nothing to avoid, reaching while avoiding is plain reaching. */
  lemma AvoidingNothing<T(!new)>(E: (T, T) -> bool, s: T, t: T)
    ensures ReachableAvoiding(E, s, t, {}) <==> Reachable(E, s, t)
  {
  }

  /** A node outside `X` reaches itself without touching `X`. */
  lemma AvoidingRefl<T(!new)>(E: (T, T) -> bool, s: T, X: set<T>)
    requires s !in X
    ensures ReachableAvoiding(E, s, s, X)
  {
    assert IsPath(E, [s]);
  }

  /** A path from the start always passes through the start, so a start in `X` reaches nothing while avoiding `X`. */
  lemma AvoidingFromInside<T(!new)>(E: (T, T) -> bool, s: T, t: T, X: set<T>)
    requires s in X
    ensures !ReachableAvoiding(E, s, t, X)
  {
  }

  /**
   An edge from `v`, which is outside `X`, to `n`, followed by a path from `n`
   that avoids a larger set `Y`, is a path from `v` that avoids `X`.
   */
  lemma AvoidingPrepend<T(!new)>(E: (T, T) -> bool, v: T, n: T, t: T, X: set<T>, Y: set<T>)
    requires v !in X && X <= Y
    requires E(v, n) && ReachableAvoiding(E, n, t, Y)
    ensures ReachableAvoiding(E, v, t, X)
  {
    var p :| |p| > 0 && p[0] == n && p[|p| - 1] == t && IsPath(E, p) && (forall i :: 0 <= i < |p| ==> p[i] !in Y);
    var q := [v] + p;
    forall i | 0 <= i < |q| - 1
      ensures E(q[i], q[i + 1])
    {
      if i > 0 {
        assert q[i] == p[i - 1] && q[i + 1] == p[i];
      }
    }
    forall i | 0 <= i < |q|
      ensures q[i] !in X
    {
      if i > 0 {
        assert q[i] == p[i - 1];
      }
    }
    assert q[|q| - 1] == t;
    assert IsPath(E, q);
  }

  /**
   If `S` holds `s` and every edge out of a node of `S` outside `X` stays in
   `S`, then every node reachable from `s` while avoiding `X` is in `S`.
   */
  lemma AvoidingStaysIn<T(!new)>(E: (T, T) -> bool, S: set<T>, X: set<T>, s: T, t: T)
    requires s in S && ReachableAvoiding(E, s, t, X)
    requires forall u, w :: u in S && u !in X && E(u, w) ==> w in S
    ensures t in S
  {
    var p :| |p| > 0 && p[0] == s && p[|p| - 1] == t && IsPath(E, p) && (forall i :: 0 <= i < |p| ==> p[i] !in X);
    var i := 0;
    while i < |p| - 1
      invariant 0 <= i < |p|
      invariant p[i] in S
    {
      assert E(p[i], p[i + 1]) && p[i] !in X;
      i := i + 1;
    }
  }
}
