/**
 * The two traversal loops that all graph classes of the dungeon generator
 * share: a breadth-first search that marks a node discovered when it is
 * enqueued, and a depth-first search that marks a node when it is popped.
 * The breadth-first loop also takes a set of nodes that are marked
 * discovered before the search starts, which is how
 * IsConnectedWhenRemoving keeps the search away from the removed node.
 */
module Search {
  import opened Collections
  import opened Reach

  /**
   * What the breadth-first search keeps about `order`, the nodes ever
   * enqueued (the visited ones followed by the queue): no repeats, `s`
   * first, all of them reachable keys, none blocked, and with the blocked
   * nodes exactly the discovered set.
   */
  ghost predicate Frontier<T(!new)>(adj: map<T, set<T>>, s: T, blocked: set<T>,
                                   order: seq<T>, discovered: set<T>)
  {
    && Distinct(order) && |order| > 0 && order[0] == s
    && Elems(order) + blocked == discovered
    && Elems(order) * blocked == {}
    && Elems(order) <= adj.Keys
    && Elems(order) <= ReachSet(adj, s, blocked)
  }

  /** Every neighbour of a node of `done` is discovered. */
  ghost predicate Expanded<T>(adj: map<T, set<T>>, done: seq<T>, discovered: set<T>) {
    forall x :: x in done && x in adj ==> adj[x] <= discovered
  }

  lemma ExpandedAppend<T>(adj: map<T, set<T>>, done: seq<T>, u: T, d: set<T>, d': set<T>)
    requires Expanded(adj, done, d) && d <= d' && u in adj && adj[u] <= d'
    ensures Expanded(adj, done + [u], d')
  {
    forall x | x in done + [u] && x in adj
      ensures adj[x] <= d'
    {
      if x != u {
        assert x in done;
      }
    }
  }

  /** Discovering a neighbour `w` of a reachable key `u` keeps the frontier facts. */
  lemma Discover<T(!new)>(adj: map<T, set<T>>, s: T, blocked: set<T>, done: seq<T>, Q: seq<T>,
                          discovered: set<T>, u: T, w: T)
    requires Closed(adj) && Frontier(adj, s, blocked, done + Q, discovered)
    requires u in adj && u in ReachSet(adj, s, blocked) && w in adj[u] && w !in discovered
    ensures Frontier(adj, s, blocked, done + (Q + [w]), discovered + {w})
    ensures |adj.Keys - Elems(done + (Q + [w]))| == |adj.Keys - Elems(done + Q)| - 1
  {
    ReachStep(adj, s, u, w, blocked);
    AppendFresh(done + Q, w);
    assert done + (Q + [w]) == done + Q + [w];
    assert adj.Keys - Elems(done + Q + [w]) == (adj.Keys - Elems(done + Q)) - {w};
    CardRemove(adj.Keys - Elems(done + Q), w);
  }

  /**
   * One round of the breadth-first loop: dequeue `u`, then mark and enqueue
   * every neighbour of `u` that is not yet discovered, in the loop's order.
   */
  method Dequeue<T(!new)>(adj: map<T, set<T>>, s: T, blocked: set<T>,
                          visited: seq<T>, Q: seq<T>, discovered: set<T>)
    returns (Q': seq<T>, discovered': set<T>)
    requires Closed(adj) && Frontier(adj, s, blocked, visited + Q, discovered)
    requires Expanded(adj, visited, discovered) && |Q| > 0
    ensures Frontier(adj, s, blocked, visited + [Q[0]] + Q', discovered')
    ensures Expanded(adj, visited + [Q[0]], discovered')
    ensures |adj.Keys - Elems(visited + [Q[0]] + Q')| + |Q'| < |adj.Keys - Elems(visited + Q)| + |Q|
  {
    var u := Q[0];
    ghost var done := visited + [u];
    assert visited + Q == done + Q[1..];
    assert u in Elems(visited + Q);
    Q', discovered' := Q[1..], discovered;
    var rest := adj[u];
    while rest != {}
      invariant rest <= adj[u]
      invariant Frontier(adj, s, blocked, done + Q', discovered')
      invariant discovered <= discovered' && adj[u] - rest <= discovered'
      invariant |adj.Keys - Elems(done + Q')| + |Q'| == |adj.Keys - Elems(visited + Q)| + |Q| - 1
      decreases rest
    {
      var w :| w in rest;
      rest := rest - {w};
      if w !in discovered' {
        Discover(adj, s, blocked, done, Q', discovered', u, w);
        Q' := Q' + [w];
        discovered' := discovered' + {w};
      }
    }
    ExpandedAppend(adj, visited, u, discovered, discovered');
  }

  /**
   * Breadth-first search from `s` with the nodes of `blocked` pre-marked as
   * discovered. Every node is enqueued at most once; the visit order starts
   * at `s` and covers exactly the nodes reachable from `s` without entering
   * `blocked`; `discovered` is that set together with `blocked`.
   */
  method BreadthFirst<T(!new)>(adj: map<T, set<T>>, s: T, blocked: set<T>)
    returns (visited: seq<T>, discovered: set<T>)
    requires Closed(adj) && s in adj && s !in blocked
    ensures Distinct(visited) && |visited| > 0 && visited[0] == s
    ensures Elems(visited) == ReachSet(adj, s, blocked)
    ensures discovered == Elems(visited) + blocked && Elems(visited) * blocked == {}
  {
    discovered := {s} + blocked;
    var Q: seq<T> := [s];
    visited := [];
    ReachStart(adj, s, blocked);
    assert visited + Q == [s];
    while |Q| > 0
      invariant Frontier(adj, s, blocked, visited + Q, discovered)
      invariant Expanded(adj, visited, discovered)
      decreases |adj.Keys - Elems(visited + Q)| + |Q|
    {
      var u := Q[0];
      Q, discovered := Dequeue(adj, s, blocked, visited, Q, discovered);
      visited := visited + [u];
    }
    assert visited + Q == visited;
    ReachWithinClosed(adj, s, blocked, Elems(visited));
  }

  /** The visited nodes of the depth-first search: no repeats, all reachable keys. */
  ghost predicate Marked<T(!new)>(adj: map<T, set<T>>, s: T, visited: seq<T>) {
    Distinct(visited) && Elems(visited) <= adj.Keys && Elems(visited) <= ReachSet(adj, s, {})
  }

  /** The stacked nodes of the depth-first search: all reachable keys. */
  ghost predicate Pending<T(!new)>(adj: map<T, set<T>>, s: T, S: seq<T>) {
    Elems(S) <= adj.Keys && Elems(S) <= ReachSet(adj, s, {})
  }

  /** Every neighbour of a node of `done` is visited or on the stack. */
  ghost predicate Covered<T>(adj: map<T, set<T>>, done: seq<T>, visited: seq<T>, S: seq<T>) {
    forall x :: x in done && x in adj ==> adj[x] <= Elems(visited) + Elems(S)
  }

  ghost predicate Started<T>(s: T, visited: seq<T>, S: seq<T>) {
    if visited == [] then S == [s] else visited[0] == s
  }

  ghost predicate DfsInv<T(!new)>(adj: map<T, set<T>>, s: T, visited: seq<T>, S: seq<T>) {
    Marked(adj, s, visited) && Pending(adj, s, S) && Covered(adj, visited, visited, S) && Started(s, visited, S)
  }

  lemma ElemsSplit<T>(S: seq<T>)
    requires |S| > 0
    ensures Elems(S) == Elems(S[..|S| - 1]) + {S[|S| - 1]}
  {
    assert S == S[..|S| - 1] + [S[|S| - 1]];
  }

  /** Popping a node that is already visited keeps the invariant. */
  lemma PopSeen<T(!new)>(adj: map<T, set<T>>, s: T, visited: seq<T>, S: seq<T>)
    requires DfsInv(adj, s, visited, S) && |S| > 0 && S[|S| - 1] in Elems(visited)
    ensures DfsInv(adj, s, visited, S[..|S| - 1])
  {
    ElemsSplit(S);
  }

  /** Popping a node that is not yet visited and marking it. */
  lemma PopFresh<T(!new)>(adj: map<T, set<T>>, s: T, visited: seq<T>, S: seq<T>)
    requires DfsInv(adj, s, visited, S) && |S| > 0 && S[|S| - 1] !in Elems(visited)
    ensures Marked(adj, s, visited + [S[|S| - 1]]) && Pending(adj, s, S[..|S| - 1])
    ensures Covered(adj, visited, visited + [S[|S| - 1]], S[..|S| - 1])
    ensures Started(s, visited + [S[|S| - 1]], S[..|S| - 1])
    ensures |adj.Keys - Elems(visited + [S[|S| - 1]])| < |adj.Keys - Elems(visited)|
    ensures Elems(visited + [S[|S| - 1]]) == Elems(visited) + {S[|S| - 1]} && S[|S| - 1] in adj
  {
    var u := S[|S| - 1];
    ElemsSplit(S);
    AppendFresh(visited, u);
    assert adj.Keys - Elems(visited + [u]) == (adj.Keys - Elems(visited)) - {u};
    CardRemove(adj.Keys - Elems(visited), u);
  }

  /** Pushing a neighbour `w` of the node `u` just visited. */
  lemma Push<T(!new)>(adj: map<T, set<T>>, s: T, visited: seq<T>, u: T, S: seq<T>, w: T)
    requires Closed(adj) && Marked(adj, s, visited + [u]) && Pending(adj, s, S)
    requires Covered(adj, visited, visited + [u], S)
    requires u in adj && w in adj[u]
    ensures Pending(adj, s, S + [w]) && Covered(adj, visited, visited + [u], S + [w])
    ensures Elems(S + [w]) == Elems(S) + {w}
  {
    assert u in Elems(visited + [u]);
    ReachStep(adj, s, u, w, {});
    assert Elems(S + [w]) == Elems(S) + {w};
  }

  lemma PushedAll<T(!new)>(adj: map<T, set<T>>, s: T, visited: seq<T>, u: T, S: seq<T>)
    requires Marked(adj, s, visited + [u]) && Pending(adj, s, S)
    requires Covered(adj, visited, visited + [u], S)
    requires u in adj && adj[u] <= Elems(S) && Started(s, visited + [u], S)
    ensures DfsInv(adj, s, visited + [u], S)
  {
    forall x | x in visited + [u] && x in adj
      ensures adj[x] <= Elems(visited + [u]) + Elems(S)
    {
      if x != u {
        assert x in visited;
      }
    }
  }

  /** Pushes every neighbour of the node `u` just visited onto the stack. */
  method PushNeighbours<T(!new)>(adj: map<T, set<T>>, s: T, visited: seq<T>, u: T, S: seq<T>)
    returns (S': seq<T>)
    requires Closed(adj) && u in adj && Marked(adj, s, visited + [u]) && Pending(adj, s, S)
    requires Covered(adj, visited, visited + [u], S) && Started(s, visited + [u], S)
    ensures DfsInv(adj, s, visited + [u], S')
  {
    S' := S;
    var rest := adj[u];
    while rest != {}
      invariant rest <= adj[u]
      invariant Pending(adj, s, S')
      invariant Covered(adj, visited, visited + [u], S') && Started(s, visited + [u], S')
      invariant adj[u] - rest <= Elems(S')
      decreases rest
    {
      var w :| w in rest;
      rest := rest - {w};
      Push(adj, s, visited, u, S', w);
      S' := S' + [w];
    }
    PushedAll(adj, s, visited, u, S');
  }

  /**
   * One round of the depth-first loop: pop the top of the stack; if it is
   * not yet discovered, mark and visit it and push all its neighbours.
   */
  method Pop<T(!new)>(adj: map<T, set<T>>, s: T, visited: seq<T>, S: seq<T>, discovered: set<T>)
    returns (visited': seq<T>, S': seq<T>, discovered': set<T>)
    requires Closed(adj) && DfsInv(adj, s, visited, S) && discovered == Elems(visited) && |S| > 0
    ensures DfsInv(adj, s, visited', S') && discovered' == Elems(visited')
    ensures |adj.Keys - Elems(visited')| < |adj.Keys - Elems(visited)|
            || (visited' == visited && |S'| < |S|)
  {
    var u := S[|S| - 1];
    S' := S[..|S| - 1];
    if u in discovered {
      PopSeen(adj, s, visited, S);
      visited', discovered' := visited, discovered;
    } else {
      PopFresh(adj, s, visited, S);
      discovered' := discovered + {u};
      visited' := visited + [u];
      S' := PushNeighbours(adj, s, visited, u, S');
    }
  }

  /**
   * Depth-first search from `s`: a node popped for the first time is marked,
   * visited, and all its neighbours are pushed. Each reachable node is
   * visited exactly once.
   */
  method DepthFirst<T(!new)>(adj: map<T, set<T>>, s: T) returns (visited: seq<T>)
    requires Closed(adj) && s in adj
    ensures Distinct(visited) && |visited| > 0 && visited[0] == s
    ensures Elems(visited) == ReachSet(adj, s, {})
  {
    var discovered: set<T> := {};
    var S: seq<T> := [s];
    visited := [];
    ReachStart(adj, s, {});
    assert Elems(S) == {s};
    while |S| > 0
      invariant DfsInv(adj, s, visited, S) && discovered == Elems(visited)
      decreases |adj.Keys - Elems(visited)|, |S|
    {
      visited, S, discovered := Pop(adj, s, visited, S, discovered);
    }
    assert visited != [];
    assert forall u :: u in Elems(visited) && u in adj ==> adj[u] <= Elems(visited);
    assert s in Elems(visited);
    ReachWithinClosed(adj, s, {}, Elems(visited));
  }
}
