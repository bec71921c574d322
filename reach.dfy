/**
 * Reachability in an adjacency-list graph `map<T, set<T>>`, the shape of
 * both graph classes of the dungeon generator. A set of blocked nodes that a
 * path may not enter covers the searches that pre-mark a node as discovered
 * (IsConnectedWhenRemoving, CanBeRemovedWithoutConnectionsSeparation).
 * Every breadth-first and depth-first search of the model is proved against
 * ReachSet with the lemmas below.
 */
module Reach {
  import opened Collections

  /** The closure invariant: every node that appears in a neighbour set is a key. */
  ghost predicate Closed<T>(adj: map<T, set<T>>) {
    forall k, n :: k in adj && n in adj[k] ==> n in adj
  }

  /** A walk along the adjacency lists: each step goes from a key to one of its neighbours. */
  ghost predicate IsPath<T>(adj: map<T, set<T>>, p: seq<T>) {
    |p| > 0 && forall i :: 0 <= i < |p| - 1 ==> p[i] in adj && p[i + 1] in adj[p[i]]
  }

  ghost predicate Avoids<T>(p: seq<T>, blocked: set<T>) {
    forall i :: 0 <= i < |p| ==> p[i] !in blocked
  }

  ghost predicate IsPathAvoiding<T>(adj: map<T, set<T>>, p: seq<T>, s: T, t: T, blocked: set<T>) {
    IsPath(adj, p) && p[0] == s && p[|p| - 1] == t && Avoids(p, blocked)
  }

  ghost predicate ReachableAvoiding<T(!new)>(adj: map<T, set<T>>, s: T, t: T, blocked: set<T>) {
    exists p :: IsPathAvoiding(adj, p, s, t, blocked)
  }

  /** All nodes mentioned by the graph, plus the start node. */
  ghost function Nodes<T>(adj: map<T, set<T>>, s: T): set<T> {
    {s} + adj.Keys + (set k, n | k in adj && n in adj[k] :: n)
  }

  /** The nodes reachable from `s` by a walk that never enters `blocked`. */
  ghost function ReachSet<T(!new)>(adj: map<T, set<T>>, s: T, blocked: set<T>): set<T> {
    set t | t in Nodes(adj, s) && ReachableAvoiding(adj, s, t, blocked)
  }

  lemma ReachStart<T(!new)>(adj: map<T, set<T>>, s: T, blocked: set<T>)
    requires s !in blocked
    ensures s in ReachSet(adj, s, blocked)
  {
    assert IsPathAvoiding(adj, [s], s, s, blocked);
  }

  /** One more step from a reachable key to a neighbour that is not blocked stays reachable. */
  lemma ReachStep<T(!new)>(adj: map<T, set<T>>, s: T, u: T, w: T, blocked: set<T>)
    requires u in ReachSet(adj, s, blocked)
    requires u in adj && w in adj[u] && w !in blocked
    ensures w in ReachSet(adj, s, blocked)
  {
    var p :| IsPathAvoiding(adj, p, s, u, blocked);
    var q := p + [w];
    assert forall i :: 0 <= i < |p| ==> q[i] == p[i];
    assert IsPathAvoiding(adj, q, s, w, blocked);
  }

  /** Every node of a walk that starts in `S` stays in `S` when `S` is closed under unblocked steps. */
  lemma {:induction false} PathStaysIn<T>(adj: map<T, set<T>>, p: seq<T>, blocked: set<T>, S: set<T>)
    requires IsPath(adj, p) && Avoids(p, blocked) && p[0] in S
    requires forall u :: u in S && u in adj ==> adj[u] - blocked <= S
    ensures p[|p| - 1] in S
  {
    if |p| > 1 {
      var q := p[..|p| - 1];
      assert forall i :: 0 <= i < |q| ==> q[i] == p[i];
      assert IsPath(adj, q) && Avoids(q, blocked);
      PathStaysIn(adj, q, blocked, S);
      assert p[|p| - 2] in S && p[|p| - 1] in adj[p[|p| - 2]];
    }
  }

  /**
   * The completeness half of every search proof: a set that holds the start
   * and is closed under unblocked steps holds everything reachable.
   */
  lemma ReachWithinClosed<T(!new)>(adj: map<T, set<T>>, s: T, blocked: set<T>, S: set<T>)
    requires s in S
    requires forall u :: u in S && u in adj ==> adj[u] - blocked <= S
    ensures ReachSet(adj, s, blocked) <= S
  {
    forall t | t in ReachSet(adj, s, blocked)
      ensures t in S
    {
      var p :| IsPathAvoiding(adj, p, s, t, blocked);
      PathStaysIn(adj, p, blocked, S);
    }
  }

  /** Under the closure invariant, a search from a key never leaves the keys. */
  lemma ReachWithinKeys<T(!new)>(adj: map<T, set<T>>, s: T, blocked: set<T>)
    requires Closed(adj) && s in adj
    ensures ReachSet(adj, s, blocked) <= adj.Keys
  {
    ReachWithinClosed(adj, s, blocked, adj.Keys);
  }

  /** A blocked node is never reached. */
  lemma BlockedUnreached<T(!new)>(adj: map<T, set<T>>, s: T, blocked: set<T>)
    ensures ReachSet(adj, s, blocked) * blocked == {}
  {
    forall t | t in ReachSet(adj, s, blocked)
      ensures t !in blocked
    {
      var p :| IsPathAvoiding(adj, p, s, t, blocked);
      assert p[|p| - 1] !in blocked;
    }
  }

  /**
   * The counting test of IsConnectedWhenRemoving and of
   * CanBeRemovedWithoutConnectionsSeparation: when the discovered nodes plus
   * the removed node `v` lie within `K`, their count equals |K| exactly when
   * every other node of `K` was discovered.
   */
  lemma CountMeansAll<T>(R: set<T>, v: T, K: set<T>)
    requires R + {v} <= K
    ensures |R + {v}| == |K| <==> K - {v} <= R
  {
    if K - {v} <= R {
      assert R + {v} == K;
    }
    if |R + {v}| == |K| && R + {v} != K {
      assert exists y :: y in K && y !in R + {v};
      var x :| x in K && x !in R + {v};
      SubsetCard(R + {v}, K - {x});
    }
  }
}
