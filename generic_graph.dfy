/**
 * Assets/Scripts/Graph.cs: the generic adjacency-list graph `Graph<T>`, a
 * dictionary from each node to the set of its neighbours. An edge is itself
 * a node: AddEdge(from, to, e) links `e` both ways with `from` and with `to`.
 *
 * Each mutator is a method on the class that updates `AdjacencyList` in
 * place as the C# code does; the pure function beside it gives the new
 * adjacency list and carries the properties the operation promises.
 * BFS and DFS return the order in which they visit nodes (the order the
 * C# code writes them to the log).
 */
module GenericGraph {
  import opened Collections
  import opened Reach
  import opened Search

  /** The neighbour set of `k`, or the empty set when `k` is not a key. */
  function NeighboursOf<T>(adj: map<T, set<T>>, k: T): set<T> {
    if k in adj then adj[k] else {}
  }

  /** The adjacency list after AddNode(n). */
  function WithNode<T>(adj: map<T, set<T>>, n: T): (r: map<T, set<T>>)
    ensures r.Keys == adj.Keys + {n}
    ensures n in adj ==> r == adj
    ensures n !in adj ==> r[n] == {} && forall k :: k in adj ==> r[k] == adj[k]
    ensures Closed(adj) ==> Closed(r)
  {
    if n in adj then adj else adj[n := {}]
  }

  /**
   * The adjacency list after AddEdge(from, to, e): the missing nodes are
   * added with empty sets, then `e` is put in the sets of `from` and `to`
   * and both are put in the set of `e`.
   */
  function WithEdge<T>(adj: map<T, set<T>>, from: T, to: T, e: T): map<T, set<T>> {
    var a := WithNode(WithNode(WithNode(adj, from), to), e);
    var a1 := a[from := a[from] + {e}];
    var a2 := a1[e := a1[e] + {from}];
    var a3 := a2[e := a2[e] + {to}];
    a3[to := a3[to] + {e}]
  }

  /** Padding the three nodes of AddEdge adds the missing ones with empty sets. */
  lemma PaddedSets<T>(adj: map<T, set<T>>, from: T, to: T, e: T)
    ensures var a := WithNode(WithNode(WithNode(adj, from), to), e);
      && a.Keys == adj.Keys + {from, to, e}
      && forall k :: k in a ==> a[k] == NeighboursOf(adj, k)
  {
  }

  /** The four set insertions of AddEdge, on a map that already has the three keys. */
  lemma LinkSets<T>(a: map<T, set<T>>, from: T, to: T, e: T)
    requires from in a && to in a && e in a
    ensures var a1 := a[from := a[from] + {e}];
      var a2 := a1[e := a1[e] + {from}];
      var a3 := a2[e := a2[e] + {to}];
      var r := a3[to := a3[to] + {e}];
      && r.Keys == a.Keys
      && forall k, n :: k in r ==>
           (n in r[k] <==> n in a[k] || ((k == from || k == to) && n == e)
                           || (k == e && (n == from || n == to)))
  {
  }

  /** A node is in a neighbour set of WithEdge iff it was before or it is one of the new links. */
  lemma WithEdgeSets<T>(adj: map<T, set<T>>, from: T, to: T, e: T)
    ensures var r := WithEdge(adj, from, to, e);
      && r.Keys == adj.Keys + {from, to, e}
      && forall k, n :: k in r ==>
           (n in r[k] <==> n in NeighboursOf(adj, k) || ((k == from || k == to) && n == e)
                           || (k == e && (n == from || n == to)))
  {
    PaddedSets(adj, from, to, e);
    LinkSets(WithNode(WithNode(WithNode(adj, from), to), e), from, to, e);
  }

  /**
   * AddEdge's promise: all three nodes become keys, `e` is linked both ways
   * with `from` and with `to`, no link is lost, no other link appears, and
   * every other neighbour set is unchanged.
   */
  lemma WithEdgeLinks<T>(adj: map<T, set<T>>, from: T, to: T, e: T)
    ensures var r := WithEdge(adj, from, to, e);
      && r.Keys == adj.Keys + {from, to, e}
      && e in r[from] && e in r[to] && from in r[e] && to in r[e]
      && (forall k :: k in r ==> NeighboursOf(adj, k) <= r[k])
      && (forall k, n :: k in r && n in r[k] && n !in NeighboursOf(adj, k) ==>
            (k == from && n == e) || (k == e && (n == from || n == to)) || (k == to && n == e))
      && (forall k :: k in adj && k != from && k != to && k != e ==> r[k] == adj[k])
  {
    var r := WithEdge(adj, from, to, e);
    WithEdgeSets(adj, from, to, e);
    forall k | k in adj && k != from && k != to && k != e
      ensures r[k] == adj[k]
    {
      assert forall n :: n in r[k] <==> n in adj[k];
    }
  }

  /** AddEdge keeps the closure invariant. */
  lemma WithEdgeClosed<T>(adj: map<T, set<T>>, from: T, to: T, e: T)
    requires Closed(adj)
    ensures Closed(WithEdge(adj, from, to, e))
  {
    WithEdgeSets(adj, from, to, e);
  }

  /** The adjacency list after RemoveNode(n). */
  function WithoutNode<T>(adj: map<T, set<T>>, n: T): (r: map<T, set<T>>)
    ensures r.Keys == adj.Keys - {n}
    ensures forall k :: k in r ==> n !in r[k] && r[k] == adj[k] - {n}
    ensures Closed(adj) ==> Closed(r)
  {
    map k | k in adj && k != n :: adj[k] - {n}
  }

  /** The adjacency list after RemoveEdge(a, b). */
  function WithoutEdge<T>(adj: map<T, set<T>>, a: T, b: T): (r: map<T, set<T>>)
    ensures r.Keys == adj.Keys
    ensures a in r ==> r[a] == adj[a] - {b}
    ensures b in r ==> r[b] == adj[b] - {a}
    ensures forall k :: k in r && k != a && k != b ==> r[k] == adj[k]
    ensures Closed(adj) ==> Closed(r)
  {
    map k | k in adj :: if k == a then adj[k] - {b} else if k == b then adj[k] - {a} else adj[k]
  }

  /** The four in-place updates of RemoveEdge give WithoutEdge. */
  lemma RemoveEdgeSteps<T>(adj: map<T, set<T>>, a: T, b: T)
    ensures
      var a1 := if a in adj then adj[a := adj[a] - {b}] else adj;
      var a2 := if b in a1 then a1[b := a1[b] - {a}] else a1;
      a2 == WithoutEdge(adj, a, b)
  {
    var a1 := if a in adj then adj[a := adj[a] - {b}] else adj;
    var a2 := if b in a1 then a1[b := a1[b] - {a}] else a1;
    var r := WithoutEdge(adj, a, b);
    assert a2.Keys == r.Keys;
    forall k | k in r
      ensures a2[k] == r[k]
    {
      if k == a && k == b {
        assert a2[k] == adj[k] - {b} - {a};
      }
    }
  }

  class Graph<T(==,!new)> {
    var AdjacencyList: map<T, set<T>>

    /** Every node that appears in a neighbour set is a key. */
    ghost predicate Valid()
      reads this
    {
      Closed(AdjacencyList)
    }

    constructor ()
      ensures Valid() && AdjacencyList == map[]
    {
      AdjacencyList := map[];
    }

    method Clear()
      modifies this
      ensures Valid() && AdjacencyList == map[]
    {
      AdjacencyList := map[];
    }

    method RemoveNode(node: T)
      requires Valid()
      modifies this
      ensures Valid()
      ensures AdjacencyList == WithoutNode(old(AdjacencyList), node)
    {
      if node in AdjacencyList {
        AdjacencyList := AdjacencyList - {node};
      }
      ghost var before := AdjacencyList;
      var keys := AdjacencyList.Keys;
      while keys != {}
        invariant keys <= AdjacencyList.Keys == before.Keys
        invariant forall k :: k in AdjacencyList ==>
                    AdjacencyList[k] == if k in keys then before[k] else before[k] - {node}
        decreases keys
      {
        var key :| key in keys;
        AdjacencyList := AdjacencyList[key := AdjacencyList[key] - {node}];
        keys := keys - {key};
      }
    }

    method AddNode(node: T)
      requires Valid()
      modifies this
      ensures Valid()
      ensures AdjacencyList == WithNode(old(AdjacencyList), node)
    {
      if node !in AdjacencyList {
        AdjacencyList := AdjacencyList[node := {}];
      }
    }

    method RemoveEdge(fromNode: T, toNode: T)
      requires Valid()
      modifies this
      ensures Valid()
      ensures AdjacencyList == WithoutEdge(old(AdjacencyList), fromNode, toNode)
    {
      ghost var before := AdjacencyList;
      if fromNode in AdjacencyList {
        AdjacencyList := AdjacencyList[fromNode := AdjacencyList[fromNode] - {toNode}];
      }
      if toNode in AdjacencyList {
        AdjacencyList := AdjacencyList[toNode := AdjacencyList[toNode] - {fromNode}];
      }
      RemoveEdgeSteps(before, fromNode, toNode);
    }

    method AddEdge(fromNode: T, toNode: T, edgeNode: T)
      requires Valid()
      modifies this
      ensures Valid()
      ensures AdjacencyList == WithEdge(old(AdjacencyList), fromNode, toNode, edgeNode)
    {
      ghost var before := AdjacencyList;
      ghost var padded := WithNode(WithNode(WithNode(before, fromNode), toNode), edgeNode);
      WithEdgeClosed(before, fromNode, toNode, edgeNode);
      if fromNode !in AdjacencyList {
        AddNode(fromNode);
      }
      if toNode !in AdjacencyList {
        AddNode(toNode);
      }
      if edgeNode !in AdjacencyList {
        AddNode(edgeNode);
      }
      assert AdjacencyList == padded;
      AdjacencyList := AdjacencyList[fromNode := AdjacencyList[fromNode] + {edgeNode}];
      AdjacencyList := AdjacencyList[edgeNode := AdjacencyList[edgeNode] + {fromNode}];
      AdjacencyList := AdjacencyList[edgeNode := AdjacencyList[edgeNode] + {toNode}];
      AdjacencyList := AdjacencyList[toNode := AdjacencyList[toNode] + {edgeNode}];
    }

    /** The keys as a list, each once, in the dictionary's (unspecified) order. */
    method GetNodes() returns (nodes: seq<T>)
      ensures Distinct(nodes) && Elems(nodes) == AdjacencyList.Keys
    {
      nodes := SetToSeq(AdjacencyList.Keys);
    }

    /** The neighbours of a key as a list; the dictionary lookup fails for a node that is not a key. */
    method GetNeighbors(node: T) returns (neighbours: seq<T>)
      requires node in AdjacencyList
      ensures Distinct(neighbours) && Elems(neighbours) == AdjacencyList[node]
    {
      neighbours := SetToSeq(AdjacencyList[node]);
    }

    function GetNodeCount(): (n: nat)
      reads this
      ensures n == |AdjacencyList.Keys|
    {
      |AdjacencyList|
    }

    /**
     * Breadth-first search from `v`: the visit order has no repeats, starts
     * at `v` and holds exactly the nodes reachable from `v`.
     */
    method BFS(v: T) returns (visited: seq<T>)
      requires Valid() && v in AdjacencyList
      ensures Distinct(visited) && |visited| > 0 && visited[0] == v
      ensures Elems(visited) == ReachSet(AdjacencyList, v, {})
    {
      var discovered;
      visited, discovered := BreadthFirst(AdjacencyList, v, {});
    }

    /** Depth-first search from `v`: each reachable node is visited exactly once. */
    method DFS(v: T) returns (visited: seq<T>)
      requires Valid() && v in AdjacencyList
      ensures Distinct(visited) && |visited| > 0 && visited[0] == v
      ensures Elems(visited) == ReachSet(AdjacencyList, v, {})
    {
      visited := DepthFirst(AdjacencyList, v);
    }
  }
}
