/**
 * DungeonGeneration/Graph/Graph.cs: the room-and-door graph of the dungeon.
 * Rooms and doors are both nodes; a door node is linked to the two rooms it
 * joins. Beside the adjacency list the class keeps `Keys`, the order in which
 * the dictionary enumerates its keys: insertion order, with removed keys
 * taken out (which is what GetNodeByIndex and IsConnectedWhenRemoving see).
 */
module DoorGraph {
  import opened Geometry
  import opened Collections
  import opened Reach
  import opened Search
  import opened GenericGraph

  /**
   * GraphNode with its two subclasses. Nodes are C# objects compared by
   * reference, so each carries an identity `id` beside its rectangle.
   */
  datatype GraphNode = RoomGraphNode(id: nat, size: RectInt) | DoorGraphNode(id: nat, size: RectInt)

  /** The doors other than `n` whose neighbour set holds `n`: RemoveNode deletes them too. */
  function DoorsOf(adj: map<GraphNode, set<GraphNode>>, n: GraphNode): set<GraphNode> {
    set k | k in adj && k != n && k.DoorGraphNode? && n in adj[k]
  }

  /** The adjacency list after RemoveNode(n): `n` and its doors gone as keys and from every set. */
  function WithoutNodeAndDoors(adj: map<GraphNode, set<GraphNode>>, n: GraphNode): map<GraphNode, set<GraphNode>> {
    var D := DoorsOf(adj, n);
    map k | k in adj && k != n && k !in D :: adj[k] - ({n} + D)
  }

  /** RemoveNode's promise about the nodes it deletes and the ones it keeps. */
  lemma WithoutNodeAndDoorsMeaning(adj: map<GraphNode, set<GraphNode>>, n: GraphNode)
    ensures var r := WithoutNodeAndDoors(adj, n);
      && r.Keys == adj.Keys - {n} - DoorsOf(adj, n)
      && (forall k :: k in r ==> n !in r[k] && r[k] * DoorsOf(adj, n) == {})
      && (forall k :: k in r ==> r[k] == adj[k] - {n} - DoorsOf(adj, n))
      && (forall d :: d in adj && d.DoorGraphNode? && d != n && n in adj[d] ==> d !in r)
      && (forall k :: k in adj && !(k.DoorGraphNode? && n in adj[k]) && k != n ==> k in r)
  {
  }

  /** RemoveNode keeps the closure invariant. */
  lemma WithoutNodeAndDoorsClosed(adj: map<GraphNode, set<GraphNode>>, n: GraphNode)
    requires Closed(adj)
    ensures Closed(WithoutNodeAndDoors(adj, n))
  {
  }

  /** The first loop of RemoveNode: every set loses `n` except those of the doors it collects. */
  function Strip(adj: map<GraphNode, set<GraphNode>>, n: GraphNode): map<GraphNode, set<GraphNode>> {
    map k | k in adj :: if k.DoorGraphNode? && n in adj[k] then adj[k] else adj[k] - {n}
  }

  /** A map that lost `n` from every set the first loop of RemoveNode visits is the stripped map. */
  lemma StripComplete(before: map<GraphNode, set<GraphNode>>, adj: map<GraphNode, set<GraphNode>>,
                      keys: seq<GraphNode>, n: GraphNode)
    requires Elems(keys) == before.Keys && adj.Keys == before.Keys
    requires forall k :: k in adj ==>
               adj[k] == if k in keys && !(k.DoorGraphNode? && n in before[k]) then before[k] - {n} else before[k]
    ensures adj == Strip(before, n)
  {
    forall k | k in adj
      ensures adj[k] == Strip(before, n)[k]
    {
      assert k in Elems(keys);
    }
  }

  /** The second loop of RemoveNode after the doors of `D`: gone as keys and from every set. */
  function Pruned(A: map<GraphNode, set<GraphNode>>, D: set<GraphNode>): map<GraphNode, set<GraphNode>> {
    map k | k in A && k !in D :: A[k] - D
  }

  lemma PrunedStep(A: map<GraphNode, set<GraphNode>>, D: set<GraphNode>, x: GraphNode)
    ensures var P := Pruned(A, D) - {x};
      (map k | k in P :: P[k] - {x}) == Pruned(A, D + {x})
  {
    var P := Pruned(A, D) - {x};
    var L := map k | k in P :: P[k] - {x};
    var R := Pruned(A, D + {x});
    assert L.Keys == R.Keys;
    forall k | k in L
      ensures L[k] == R[k]
    {
    }
  }

  lemma PrunedNone(A: map<GraphNode, set<GraphNode>>)
    ensures Pruned(A, {}) == A
  {
    assert forall k :: k in A ==> A[k] - {} == A[k];
  }

  /** One more element of a duplicate-free sequence: the prefix set grows by a new element. */
  lemma PrefixStep(s: seq<GraphNode>, j: int)
    requires Distinct(s) && 0 <= j < |s|
    ensures Elems(s[..j + 1]) == Elems(s[..j]) + {s[j]} && s[j] !in Elems(s[..j])
  {
    assert s[..j + 1] == s[..j] + [s[j]];
  }

  /** Both loops of RemoveNode together give WithoutNodeAndDoors. */
  lemma RemoveNodeSteps(adj: map<GraphNode, set<GraphNode>>, n: GraphNode)
    ensures Pruned(Strip(adj - {n}, n), DoorsOf(adj, n)) == WithoutNodeAndDoors(adj, n)
  {
    var L := Pruned(Strip(adj - {n}, n), DoorsOf(adj, n));
    var R := WithoutNodeAndDoors(adj, n);
    assert L.Keys == R.Keys;
    forall k | k in L
      ensures L[k] == R[k]
    {
      assert !(k.DoorGraphNode? && n in adj[k]);
    }
  }

  /** The keys and the enumeration order after RemoveNode still agree, and the graph stays closed. */
  lemma RemoveNodeValid(adj: map<GraphNode, set<GraphNode>>, keys: seq<GraphNode>, n: GraphNode)
    requires Closed(adj) && Distinct(keys) && Elems(keys) == adj.Keys
    ensures FilterOut(FilterOut(keys, {n}), DoorsOf(adj, n)) == FilterOut(keys, {n} + DoorsOf(adj, n))
    ensures var r := WithoutNodeAndDoors(adj, n);
      var ks := FilterOut(keys, {n} + DoorsOf(adj, n));
      Closed(r) && Distinct(ks) && Elems(ks) == r.Keys
  {
    var D := DoorsOf(adj, n);
    FilterOutTwice(keys, {n}, D);
    FilterOutElems(keys, {n} + D);
    FilterOutDistinct(keys, {n} + D);
    WithoutNodeAndDoorsMeaning(adj, n);
    WithoutNodeAndDoorsClosed(adj, n);
  }

  /** AddEdge keeps the closure invariant and the agreement of the keys with their enumeration order. */
  lemma AddEdgeValid(adj: map<GraphNode, set<GraphNode>>, keys: seq<GraphNode>, from: GraphNode, to: GraphNode, e: GraphNode)
    requires Closed(adj) && Distinct(keys) && Elems(keys) == adj.Keys
    ensures var ks := AppendNew(AppendNew(AppendNew(keys, from), to), e);
      var r := WithEdge(adj, from, to, e);
      Closed(r) && Distinct(ks) && Elems(ks) == r.Keys
  {
    WithEdgeClosed(adj, from, to, e);
    WithEdgeSets(adj, from, to, e);
  }

  /** The node IsConnectedWhenRemoving(v) starts from: the first key, or the second when the first is `v`. */
  function IsolationStart(keys: seq<GraphNode>, v: GraphNode): (r: GraphNode)
    requires |keys| >= 1 && (keys[0] == v ==> |keys| >= 2)
    ensures r in keys && (Distinct(keys) ==> r != v)
  {
    if keys[0] == v then keys[1] else keys[0]
  }

  class Graph {
    var AdjacencyList: map<GraphNode, set<GraphNode>>
    /** The dictionary's enumeration order of the keys. */
    var Keys: seq<GraphNode>

    ghost predicate Valid()
      reads this
    {
      Closed(AdjacencyList) && Distinct(Keys) && Elems(Keys) == AdjacencyList.Keys
    }

    constructor ()
      ensures Valid() && AdjacencyList == map[] && Keys == []
    {
      AdjacencyList := map[];
      Keys := [];
    }

    method Clear()
      modifies this
      ensures Valid() && AdjacencyList == map[] && Keys == []
    {
      AdjacencyList := map[];
      Keys := [];
    }

    /**
     * The first loop of RemoveNode: walks the keys in order, collecting the
     * doors whose set holds `node` and removing `node` from every other set.
     */
    method CollectDoors(node: GraphNode) returns (nodesToRemove: seq<GraphNode>)
      requires Distinct(Keys) && Elems(Keys) == AdjacencyList.Keys
      modifies this
      ensures AdjacencyList == Strip(old(AdjacencyList), node) && Keys == old(Keys)
      ensures Distinct(nodesToRemove)
      ensures forall k :: k in nodesToRemove <==>
                k in old(AdjacencyList) && k.DoorGraphNode? && node in old(AdjacencyList)[k]
    {
      ghost var before := AdjacencyList;
      var keys, adj := Keys, AdjacencyList;
      nodesToRemove := [];
      var i := 0;
      while i < |keys|
        modifies {}
        invariant 0 <= i <= |keys| && adj.Keys == before.Keys
        invariant Distinct(nodesToRemove)
        invariant forall k :: k in nodesToRemove <==>
                    k in keys[..i] && k.DoorGraphNode? && node in before[k]
        invariant forall k :: k in adj ==>
                    adj[k] == if k in keys[..i] && !(k.DoorGraphNode? && node in before[k])
                              then before[k] - {node} else before[k]
      {
        var key := keys[i];
        assert key !in keys[..i];
        ElemsTakeOneMore(keys, i);
        if key.DoorGraphNode? && node in adj[key] {
          AppendFresh(nodesToRemove, key);
          nodesToRemove := nodesToRemove + [key];
        } else {
          adj := adj[key := adj[key] - {node}];
        }
        i := i + 1;
      }
      assert keys[..i] == keys;
      StripComplete(before, adj, keys, node);
      AdjacencyList := adj;
    }

    /** The inner loop of RemoveNode: removes `x` from the set of every key. */
    method RemoveFromAllSets(x: GraphNode)
      modifies this
      ensures AdjacencyList == (map k | k in old(AdjacencyList) :: old(AdjacencyList)[k] - {x})
      ensures Keys == old(Keys)
    {
      ghost var before := AdjacencyList;
      var keys := AdjacencyList.Keys;
      while keys != {}
        invariant keys <= AdjacencyList.Keys == before.Keys && Keys == old(Keys)
        invariant forall k :: k in AdjacencyList ==>
                    AdjacencyList[k] == if k in keys then before[k] else before[k] - {x}
        decreases keys
      {
        var key :| key in keys;
        AdjacencyList := AdjacencyList[key := AdjacencyList[key] - {x}];
        keys := keys - {key};
      }
    }

    /**
     * The second loop of RemoveNode: each collected door stops being a key
     * and is removed from the set of every remaining key.
     */
    method RemoveCollected(nodesToRemove: seq<GraphNode>)
      requires Distinct(Keys) && Elems(Keys) == AdjacencyList.Keys
      requires Distinct(nodesToRemove) && Elems(nodesToRemove) <= AdjacencyList.Keys
      modifies this
      ensures AdjacencyList == Pruned(old(AdjacencyList), Elems(nodesToRemove))
      ensures Keys == FilterOut(old(Keys), Elems(nodesToRemove))
    {
      ghost var A1 := AdjacencyList;
      ghost var K1 := Keys;
      ghost var removed: set<GraphNode> := {};
      FilterOutNone(K1, {});
      PrunedNone(A1);
      var j := 0;
      while j < |nodesToRemove|
        invariant 0 <= j <= |nodesToRemove| && removed == Elems(nodesToRemove[..j])
        invariant AdjacencyList == Pruned(A1, removed) && Keys == FilterOut(K1, removed)
      {
        var ntr := nodesToRemove[j];
        PrefixStep(nodesToRemove, j);
        ghost var P := AdjacencyList - {ntr};
        if ntr in AdjacencyList {
          AdjacencyList := AdjacencyList - {ntr};
          Keys := FilterOut(Keys, {ntr});
        }
        assert AdjacencyList == P;
        RemoveFromAllSets(ntr);
        PrunedStep(A1, removed, ntr);
        FilterOutTwice(K1, removed, {ntr});
        removed := removed + {ntr};
        j := j + 1;
      }
      assert nodesToRemove[..j] == nodesToRemove;
    }

    /**
     * Removes `node` and, with it, every door whose set holds `node`; both
     * disappear as keys and from every neighbour set.
     */
    method RemoveNode(node: GraphNode)
      requires Valid()
      modifies this
      ensures Valid()
      ensures AdjacencyList == WithoutNodeAndDoors(old(AdjacencyList), node)
      ensures Keys == FilterOut(old(Keys), {node} + DoorsOf(old(AdjacencyList), node))
    {
      ghost var adj := AdjacencyList;
      FilterOutElems(Keys, {node});
      FilterOutDistinct(Keys, {node});
      if node in AdjacencyList {
        AdjacencyList := AdjacencyList - {node};
        Keys := FilterOut(Keys, {node});
      } else {
        FilterOutNone(Keys, {node});
      }
      assert AdjacencyList == adj - {node};
      var nodesToRemove := CollectDoors(node);
      assert Elems(nodesToRemove) == DoorsOf(adj, node);
      ghost var stripped := AdjacencyList;
      assert stripped == Strip(adj - {node}, node);
      RemoveCollected(nodesToRemove);
      assert AdjacencyList == Pruned(stripped, DoorsOf(adj, node));
      RemoveNodeSteps(adj, node);
      RemoveNodeValid(adj, old(Keys), node);
    }

    /** A copy of the keys, in enumeration order. */
    method GetNodes() returns (nodes: seq<GraphNode>)
      requires Valid()
      ensures Distinct(nodes) && Elems(nodes) == AdjacencyList.Keys && nodes == Keys
    {
      nodes := Keys;
    }

    method GetNodeByIndex(index: int) returns (node: GraphNode)
      requires Valid() && 0 <= index < |Keys|
      ensures node in AdjacencyList && node == Keys[index]
    {
      var nodes := GetNodes();
      node := nodes[index];
    }

    method AddNode(node: GraphNode)
      requires Valid()
      modifies this
      ensures Valid()
      ensures AdjacencyList == WithNode(old(AdjacencyList), node)
      ensures Keys == AppendNew(old(Keys), node)
    {
      if node !in AdjacencyList {
        AdjacencyList := AdjacencyList[node := {}];
        Keys := Keys + [node];
      }
    }

    method RemoveEdge(fromNode: GraphNode, toNode: GraphNode)
      requires Valid()
      modifies this
      ensures Valid()
      ensures AdjacencyList == WithoutEdge(old(AdjacencyList), fromNode, toNode) && Keys == old(Keys)
    {
      ghost var before := AdjacencyList;
      if fromNode in AdjacencyList {
        AdjacencyList := AdjacencyList[fromNode := AdjacencyList[fromNode] - {toNode}];
      }
      if toNode in AdjacencyList {
        AdjacencyList := AdjacencyList[toNode := AdjacencyList[toNode] - {fromNode}];
      }
      RemoveEdgeSteps(before, fromNode, toNode);
    }

    method AddEdge(fromNode: GraphNode, toNode: GraphNode, edgeNode: GraphNode)
      requires Valid()
      modifies this
      ensures Valid()
      ensures AdjacencyList == WithEdge(old(AdjacencyList), fromNode, toNode, edgeNode)
      ensures Keys == AppendNew(AppendNew(AppendNew(old(Keys), fromNode), toNode), edgeNode)
    {
      ghost var before := AdjacencyList;
      ghost var padded := WithNode(WithNode(WithNode(before, fromNode), toNode), edgeNode);
      ghost var paddedKeys := AppendNew(AppendNew(AppendNew(Keys, fromNode), toNode), edgeNode);
      AddEdgeValid(before, Keys, fromNode, toNode, edgeNode);
      if fromNode !in AdjacencyList {
        AddNode(fromNode);
      }
      if toNode !in AdjacencyList {
        AddNode(toNode);
      }
      if edgeNode !in AdjacencyList {
        AddNode(edgeNode);
      }
      assert AdjacencyList == padded && Keys == paddedKeys;
      AdjacencyList := AdjacencyList[fromNode := AdjacencyList[fromNode] + {edgeNode}];
      AdjacencyList := AdjacencyList[edgeNode := AdjacencyList[edgeNode] + {fromNode}];
      AdjacencyList := AdjacencyList[edgeNode := AdjacencyList[edgeNode] + {toNode}];
      AdjacencyList := AdjacencyList[toNode := AdjacencyList[toNode] + {edgeNode}];
    }

    /** The neighbours of a key as a list; the dictionary lookup fails for a node that is not a key. */
    method GetNeighbors(node: GraphNode) returns (neighbours: seq<GraphNode>)
      requires node in AdjacencyList
      ensures Distinct(neighbours) && Elems(neighbours) == AdjacencyList[node]
    {
      neighbours := SetToSeq(AdjacencyList[node]);
    }

    function GetNodeCount(): (n: nat)
      reads this
      ensures n == |AdjacencyList.Keys|
    {
      |AdjacencyList|
    }

    /** Breadth-first search from `v`: visits exactly the nodes reachable from `v`, each once. */
    method BFS(v: GraphNode) returns (visited: seq<GraphNode>)
      requires Valid() && v in AdjacencyList
      ensures Distinct(visited) && |visited| > 0 && visited[0] == v
      ensures Elems(visited) == ReachSet(AdjacencyList, v, {})
    {
      var discovered;
      visited, discovered := BreadthFirst(AdjacencyList, v, {});
    }

    /** Depth-first search from `v`: visits exactly the nodes reachable from `v`, each once. */
    method DFS(v: GraphNode) returns (visited: seq<GraphNode>)
      requires Valid() && v in AdjacencyList
      ensures Distinct(visited) && |visited| > 0 && visited[0] == v
      ensures Elems(visited) == ReachSet(AdjacencyList, v, {})
    {
      visited := DepthFirst(AdjacencyList, v);
    }

    /**
     * A breadth-first search from the first key other than `v`, with `v`
     * marked as discovered from the start; true iff the discovered count
     * is the node count. For a key `v` that is exactly: every other node is
     * reachable from the start without passing through `v`.
     */
    method IsConnectedWhenRemoving(v: GraphNode) returns (connected: bool)
      requires Valid() && |Keys| >= 1 && (Keys[0] == v ==> |Keys| >= 2)
      ensures connected <==> |ReachSet(AdjacencyList, IsolationStart(Keys, v), {v}) + {v}| == |AdjacencyList|
      ensures v in AdjacencyList ==>
                (connected <==> forall k :: k in AdjacencyList && k != v ==>
                                  ReachableAvoiding(AdjacencyList, IsolationStart(Keys, v), k, {v}))
    {
      var first := GetNodeByIndex(0);
      var startNode;
      if first == v {
        startNode := GetNodeByIndex(1);
      } else {
        startNode := first;
      }
      var visited, discovered := BreadthFirst(AdjacencyList, startNode, {v});
      connected := |discovered| == GetNodeCount();
      IsolationMeaning(AdjacencyList, startNode, v);
    }
  }

  /**
   * The count test of IsConnectedWhenRemoving: for a key `v`, the nodes
   * reached avoiding `v`, plus `v`, number as many as the keys exactly when
   * every other key is reachable avoiding `v`.
   */
  lemma IsolationMeaning(adj: map<GraphNode, set<GraphNode>>, s: GraphNode, v: GraphNode)
    requires Closed(adj) && s in adj && s != v
    ensures v in adj ==>
              (|ReachSet(adj, s, {v}) + {v}| == |adj| <==>
               forall k :: k in adj && k != v ==> ReachableAvoiding(adj, s, k, {v}))
  {
    if v in adj {
      var R := ReachSet(adj, s, {v});
      ReachWithinKeys(adj, s, {v});
      CountMeansAll(R, v, adj.Keys);
      assert |adj| == |adj.Keys|;
      if forall k :: k in adj && k != v ==> ReachableAvoiding(adj, s, k, {v}) {
        forall k | k in adj.Keys - {v}
          ensures k in R
        {
          assert k in Nodes(adj, s);
        }
      }
      if adj.Keys - {v} <= R {
        forall k | k in adj && k != v
          ensures ReachableAvoiding(adj, s, k, {v})
        {
          assert k in R;
        }
      }
    }
  }
}
