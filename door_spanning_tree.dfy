/**
 * DungeonGeneration/MinimumSpanningTree.cs: Prim's selection over the door
 * nodes of the room-and-door graph. A door's endpoints are its graph
 * neighbours; the closed set starts with the first key of the graph. Each
 * round picks, among the doors with exactly one neighbour outside the closed
 * set, the first one of least DoorEdgeDistance, and closes all its
 * neighbours. A node stands for its own vertex, and DoorEdgeDistance is an
 * abstract real weight. The two list index errors of the source are
 * modelled: GetNodeByIndex(0) on an empty graph, and DoorEdgeDistance on a
 * qualifying door with fewer than two neighbours.
 */
module DoorSpanningTree {
  import opened Collections
  import opened Selection
  import opened GenericGraph
  import opened DoorGraph

  /** How GetMinimumSpanningTree ends: the chosen doors, or a list index out of range. */
  datatype Outcome = Returned(doors: seq<GraphNode>) | IndexOutOfRange

  /** `graph.GetNodes().Where(node => node is DoorGraphNode)`: the doors, in key order. */
  function DoorNodes(keys: seq<GraphNode>): (r: seq<GraphNode>)
    ensures forall d :: d in r <==> d in keys && d.DoorGraphNode?
  {
    if |keys| == 0 then []
    else (if keys[0].DoorGraphNode? then [keys[0]] else []) + DoorNodes(keys[1..])
  }

  /** The neighbours of a door that are not yet closed: the `closedVertices` count. */
  function OpenCount(adj: map<GraphNode, set<GraphNode>>, d: GraphNode, closed: set<GraphNode>): nat {
    |NeighboursOf(adj, d) - closed|
  }

  /** Every neighbour of the given doors. */
  function Endpoints(adj: map<GraphNode, set<GraphNode>>, ds: seq<GraphNode>): set<GraphNode> {
    if |ds| == 0 then {} else NeighboursOf(adj, ds[0]) + Endpoints(adj, ds[1..])
  }

  lemma {:induction false} EndpointsConcat(adj: map<GraphNode, set<GraphNode>>, s: seq<GraphNode>, t: seq<GraphNode>)
    ensures Endpoints(adj, s + t) == Endpoints(adj, s) + Endpoints(adj, t)
  {
    if |s| == 0 {
      assert s + t == t;
    } else {
      assert (s + t)[1..] == s[1..] + t;
      EndpointsConcat(adj, s[1..], t);
    }
  }

  lemma {:induction false} EndpointsMember(adj: map<GraphNode, set<GraphNode>>, ds: seq<GraphNode>, d: GraphNode)
    requires d in ds
    ensures NeighboursOf(adj, d) <= Endpoints(adj, ds)
  {
    if ds[0] != d {
      EndpointsMember(adj, ds[1..], d);
    }
  }

  /** What the inner loop looks at for each door: one open neighbour, and DoorEdgeDistance. */
  function Scores(adj: map<GraphNode, set<GraphNode>>, doors: seq<GraphNode>, weight: GraphNode -> real,
                  closed: set<GraphNode>): (s: seq<Score>)
    ensures |s| == |doors|
    ensures forall j :: 0 <= j < |doors| ==> s[j] == Score(OpenCount(adj, doors[j], closed) == 1, weight(doors[j]))
  {
    seq(|doors|, j requires 0 <= j < |doors| => Score(OpenCount(adj, doors[j], closed) == 1, weight(doors[j])))
  }

  /** The inner loop: the index of the first cheapest door of `doors[..n]` with exactly one open neighbour. */
  function CheapestDoor(adj: map<GraphNode, set<GraphNode>>, doors: seq<GraphNode>, weight: GraphNode -> real,
                        closed: set<GraphNode>, n: nat): (r: Option<nat>)
    requires n <= |doors|
    ensures r.Some? ==> r.value < n && OpenCount(adj, doors[r.value], closed) == 1
  {
    FirstMin(Scores(adj, doors, weight, closed), n)
  }

  /**
   * CheapestDoor finds a qualifying door iff there is one; it weighs least
   * among them, and every qualifying door before it weighs more.
   */
  lemma CheapestDoorIsFirstMinimum(adj: map<GraphNode, set<GraphNode>>, doors: seq<GraphNode>,
                                   weight: GraphNode -> real, closed: set<GraphNode>, n: nat)
    requires n <= |doors|
    ensures var r := CheapestDoor(adj, doors, weight, closed, n);
      && (r.None? <==> forall j :: 0 <= j < n ==> OpenCount(adj, doors[j], closed) != 1)
      && (r.Some? ==> forall j :: 0 <= j < n && OpenCount(adj, doors[j], closed) == 1 ==>
                        weight(doors[r.value]) <= weight(doors[j]))
      && (r.Some? ==> forall j :: 0 <= j < r.value && OpenCount(adj, doors[j], closed) == 1 ==>
                        weight(doors[r.value]) < weight(doors[j]))
  {
    FirstMinIsFirstLeast(Scores(adj, doors, weight, closed), n);
  }

  /**
   * DoorEdgeDistance reads the second neighbour of the door it weighs, so
   * the inner loop throws when one of `doors[..n]` with exactly one open
   * neighbour has fewer than two neighbours.
   */
  predicate Stranded(adj: map<GraphNode, set<GraphNode>>, doors: seq<GraphNode>, closed: set<GraphNode>, n: nat)
    requires n <= |doors|
  {
    exists j :: 0 <= j < n && OpenCount(adj, doors[j], closed) == 1 && |NeighboursOf(adj, doors[j])| < 2
  }

  /** Closing the neighbours of a qualifying door takes its one open neighbour out of the open set. */
  lemma DoorShrinks(adj: map<GraphNode, set<GraphNode>>, doors: seq<GraphNode>, open: set<GraphNode>,
                    closed: set<GraphNode>, d: GraphNode)
    requires Endpoints(adj, doors) - closed <= open && d in doors && OpenCount(adj, d, closed) == 1
    ensures |open - NeighboursOf(adj, d)| < |open|
    ensures Endpoints(adj, doors) - (closed + NeighboursOf(adj, d)) <= open - NeighboursOf(adj, d)
  {
    var x :| x in NeighboursOf(adj, d) - closed;
    EndpointsMember(adj, doors, d);
    SubsetCard(open - NeighboursOf(adj, d), open - {x});
    CardRemove(open, x);
  }

  /** The outer loop: the doors chosen from the given open and closed sets on. */
  ghost function DoorPrim(adj: map<GraphNode, set<GraphNode>>, doors: seq<GraphNode>, weight: GraphNode -> real,
                          open: set<GraphNode>, closed: set<GraphNode>): seq<GraphNode>
    requires Endpoints(adj, doors) - closed <= open
    decreases |open|
  {
    if |open| == 0 then []
    else match CheapestDoor(adj, doors, weight, closed, |doors|)
      case None => []
      case Some(i) =>
        var d := doors[i];
        DoorShrinks(adj, doors, open, closed, d);
        [d] + DoorPrim(adj, doors, weight, open - NeighboursOf(adj, d), closed + NeighboursOf(adj, d))
  }

  lemma StrandedStep(adj: map<GraphNode, set<GraphNode>>, doors: seq<GraphNode>, closed: set<GraphNode>, n: nat)
    requires n < |doors|
    ensures Stranded(adj, doors, closed, n + 1)
            == (Stranded(adj, doors, closed, n) || (OpenCount(adj, doors[n], closed) == 1 && |NeighboursOf(adj, doors[n])| < 2))
  {
  }

  lemma StrandedLater(adj: map<GraphNode, set<GraphNode>>, doors: seq<GraphNode>, closed: set<GraphNode>, n: nat, m: nat)
    requires n <= m <= |doors| && Stranded(adj, doors, closed, n)
    ensures Stranded(adj, doors, closed, m)
  {
  }

  /** Some round of the outer loop, from the given open and closed sets on, throws in DoorEdgeDistance. */
  ghost predicate DoorPrimThrows(adj: map<GraphNode, set<GraphNode>>, doors: seq<GraphNode>, weight: GraphNode -> real,
                                 open: set<GraphNode>, closed: set<GraphNode>)
    requires Endpoints(adj, doors) - closed <= open
    decreases |open|
  {
    if |open| == 0 then false
    else if Stranded(adj, doors, closed, |doors|) then true
    else match CheapestDoor(adj, doors, weight, closed, |doors|)
      case None => false
      case Some(i) =>
        var d := doors[i];
        DoorShrinks(adj, doors, open, closed, d);
        DoorPrimThrows(adj, doors, weight, open - NeighboursOf(adj, d), closed + NeighboursOf(adj, d))
  }

  /** When every door joins at least two nodes, as every door of the dungeon does, no round throws. */
  lemma {:induction false} TwoEndedDoorsNeverThrow(adj: map<GraphNode, set<GraphNode>>, doors: seq<GraphNode>,
                                                   weight: GraphNode -> real, open: set<GraphNode>, closed: set<GraphNode>)
    requires Endpoints(adj, doors) - closed <= open
    requires forall j :: 0 <= j < |doors| ==> |NeighboursOf(adj, doors[j])| >= 2
    ensures !DoorPrimThrows(adj, doors, weight, open, closed)
    decreases |open|
  {
    var c := CheapestDoor(adj, doors, weight, closed, |doors|);
    if |open| > 0 && c.Some? {
      var N := NeighboursOf(adj, doors[c.value]);
      DoorShrinks(adj, doors, open, closed, doors[c.value]);
      TwoEndedDoorsNeverThrow(adj, doors, weight, open - N, closed + N);
    }
  }

  /** A qualifying door with a single neighbour throws in the first round. */
  lemma LoneNeighbourThrows(adj: map<GraphNode, set<GraphNode>>, doors: seq<GraphNode>, weight: GraphNode -> real,
                            open: set<GraphNode>, closed: set<GraphNode>, j: nat)
    requires Endpoints(adj, doors) - closed <= open && |open| > 0
    requires j < |doors| && OpenCount(adj, doors[j], closed) == 1 && |NeighboursOf(adj, doors[j])| == 1
    ensures DoorPrimThrows(adj, doors, weight, open, closed)
  {
    assert Stranded(adj, doors, closed, |doors|);
  }

  /** One round of DoorPrimThrows: it throws now, or stops, or goes on from the chosen door. */
  lemma DoorPrimThrowsUnfold(adj: map<GraphNode, set<GraphNode>>, doors: seq<GraphNode>, weight: GraphNode -> real,
                             open: set<GraphNode>, closed: set<GraphNode>)
    requires Endpoints(adj, doors) - closed <= open && |open| > 0 && !Stranded(adj, doors, closed, |doors|)
    ensures var c := CheapestDoor(adj, doors, weight, closed, |doors|);
      && (c.None? ==> !DoorPrimThrows(adj, doors, weight, open, closed))
      && (c.Some? ==>
            var N := NeighboursOf(adj, doors[c.value]);
            && Endpoints(adj, doors) - (closed + N) <= open - N
            && DoorPrimThrows(adj, doors, weight, open, closed) == DoorPrimThrows(adj, doors, weight, open - N, closed + N))
  {
    var c := CheapestDoor(adj, doors, weight, closed, |doors|);
    if c.Some? {
      DoorShrinks(adj, doors, open, closed, doors[c.value]);
    }
  }

  lemma DoorPrimUnfold(adj: map<GraphNode, set<GraphNode>>, doors: seq<GraphNode>, weight: GraphNode -> real,
                       open: set<GraphNode>, closed: set<GraphNode>)
    requires Endpoints(adj, doors) - closed <= open
    ensures var r := DoorPrim(adj, doors, weight, open, closed);
      var c := CheapestDoor(adj, doors, weight, closed, |doors|);
      && (|r| == 0 <==> |open| == 0 || c.None?)
      && (|r| > 0 ==>
            var N := NeighboursOf(adj, r[0]);
            && c.Some? && r[0] == doors[c.value] && OpenCount(adj, r[0], closed) == 1
            && Endpoints(adj, doors) - (closed + N) <= open - N
            && |open - N| < |open|
            && r == [r[0]] + DoorPrim(adj, doors, weight, open - N, closed + N))
  {
    var c := CheapestDoor(adj, doors, weight, closed, |doors|);
    if |open| > 0 && c.Some? {
      DoorShrinks(adj, doors, open, closed, doors[c.value]);
    }
  }

  /** The greedy rule, door by door, from the vertices closed before each choice. */
  ghost predicate GreedyDoors(adj: map<GraphNode, set<GraphNode>>, doors: seq<GraphNode>, weight: GraphNode -> real,
                              closed: set<GraphNode>, r: seq<GraphNode>)
    decreases |r|
  {
    |r| == 0 ||
    (var c := CheapestDoor(adj, doors, weight, closed, |doors|);
     c.Some? && r[0] == doors[c.value] && GreedyDoors(adj, doors, weight, closed + NeighboursOf(adj, r[0]), r[1..]))
  }

  lemma {:induction false} DoorPrimIsGreedy(adj: map<GraphNode, set<GraphNode>>, doors: seq<GraphNode>,
                                            weight: GraphNode -> real, open: set<GraphNode>, closed: set<GraphNode>)
    requires Endpoints(adj, doors) - closed <= open
    ensures GreedyDoors(adj, doors, weight, closed, DoorPrim(adj, doors, weight, open, closed))
    decreases |open|
  {
    var r := DoorPrim(adj, doors, weight, open, closed);
    DoorPrimUnfold(adj, doors, weight, open, closed);
    if |r| > 0 {
      var N := NeighboursOf(adj, r[0]);
      DoorPrimIsGreedy(adj, doors, weight, open - N, closed + N);
      assert r[1..] == DoorPrim(adj, doors, weight, open - N, closed + N);
    }
  }

  /** A door all of whose neighbours are closed is never chosen again. */
  lemma {:induction false} ClosedDoorNotChosen(adj: map<GraphNode, set<GraphNode>>, doors: seq<GraphNode>,
                                               weight: GraphNode -> real, closed: set<GraphNode>,
                                               r: seq<GraphNode>, d: GraphNode)
    requires GreedyDoors(adj, doors, weight, closed, r) && NeighboursOf(adj, d) <= closed
    ensures d !in r
    decreases |r|
  {
    if |r| > 0 {
      assert OpenCount(adj, r[0], closed) == 1;
      assert NeighboursOf(adj, d) - closed == {};
      ClosedDoorNotChosen(adj, doors, weight, closed + NeighboursOf(adj, r[0]), r[1..], d);
      assert r == [r[0]] + r[1..];
    }
  }

  /**
   * Each greedy choice closes exactly one new vertex: no door repeats, and
   * the closed set grows by one per chosen door.
   */
  lemma {:induction false} GreedyDoorsGrowByOne(adj: map<GraphNode, set<GraphNode>>, doors: seq<GraphNode>,
                                                weight: GraphNode -> real, closed: set<GraphNode>, r: seq<GraphNode>)
    requires GreedyDoors(adj, doors, weight, closed, r)
    ensures |closed + Endpoints(adj, r)| == |closed| + |r| && Distinct(r)
    ensures forall i :: 0 <= i < |r| ==> r[i] in doors
    decreases |r|
  {
    if |r| > 0 {
      var d := r[0];
      var N := NeighboursOf(adj, d);
      var closed' := closed + N;
      var r' := r[1..];
      assert r == [d] + r';
      GreedyDoorsGrowByOne(adj, doors, weight, closed', r');
      ClosedDoorNotChosen(adj, doors, weight, closed', r', d);
      assert closed + Endpoints(adj, r) == closed' + Endpoints(adj, r');
      assert OpenCount(adj, d, closed) == 1;
      OneDoorCloses(adj, d, closed);
      DistinctCons(d, r');
      assert forall i :: 0 < i < |r| ==> r[i] == r'[i - 1];
    }
  }

  /** Closing the neighbours of a door with one open neighbour closes one vertex more. */
  lemma OneDoorCloses(adj: map<GraphNode, set<GraphNode>>, d: GraphNode, closed: set<GraphNode>)
    requires OpenCount(adj, d, closed) == 1
    ensures |closed + NeighboursOf(adj, d)| == |closed| + 1
  {
    var N := NeighboursOf(adj, d);
    var x :| x in N - closed;
    SingletonCard(N - closed, x);
    assert closed + N == closed + {x} && x !in closed;
  }

  /**
   * The kept doors never outnumber the distinct vertices they join: the
   * closed set, one start vertex plus those vertices, has one more element
   * than there are doors.
   */
  lemma DoorCountBound(adj: map<GraphNode, set<GraphNode>>, doors: seq<GraphNode>, weight: GraphNode -> real,
                       start: GraphNode)
    ensures var r := DoorPrim(adj, doors, weight, Endpoints(adj, doors), {start});
      && Distinct(r) && (forall i :: 0 <= i < |r| ==> r[i] in doors)
      && |{start} + Endpoints(adj, r)| == |r| + 1
      && |r| <= |Endpoints(adj, r)|
  {
    var r := DoorPrim(adj, doors, weight, Endpoints(adj, doors), {start});
    DoorPrimIsGreedy(adj, doors, weight, Endpoints(adj, doors), {start});
    GreedyDoorsGrowByOne(adj, doors, weight, {start}, r);
    SubsetCard({start} + Endpoints(adj, r), {start} + Endpoints(adj, r));
    assert |{start} + Endpoints(adj, r)| <= 1 + |Endpoints(adj, r)|;
  }

  /** Every neighbour of a door is closed, or no door has exactly one neighbour outside `C`. */
  ghost predicate StopsAt(adj: map<GraphNode, set<GraphNode>>, doors: seq<GraphNode>, C: set<GraphNode>) {
    Endpoints(adj, doors) <= C || forall j :: 0 <= j < |doors| ==> OpenCount(adj, doors[j], C) != 1
  }

  /**
   * When the outer loop stops, either every neighbour of a door is closed
   * or no door has exactly one neighbour outside the closed set.
   */
  lemma {:induction false} DoorPrimStops(adj: map<GraphNode, set<GraphNode>>, doors: seq<GraphNode>,
                                         weight: GraphNode -> real, open: set<GraphNode>, closed: set<GraphNode>)
    requires Endpoints(adj, doors) - closed <= open
    ensures StopsAt(adj, doors, closed + Endpoints(adj, DoorPrim(adj, doors, weight, open, closed)))
    decreases |open|
  {
    var r := DoorPrim(adj, doors, weight, open, closed);
    if |r| == 0 {
      DoorPrimEmpty(adj, doors, weight, open, closed);
    } else {
      var N := NeighboursOf(adj, r[0]);
      DoorPrimStep(adj, doors, weight, open, closed);
      DoorPrimStops(adj, doors, weight, open - N, closed + N);
    }
  }

  lemma DoorPrimEmpty(adj: map<GraphNode, set<GraphNode>>, doors: seq<GraphNode>, weight: GraphNode -> real,
                      open: set<GraphNode>, closed: set<GraphNode>)
    requires Endpoints(adj, doors) - closed <= open && |DoorPrim(adj, doors, weight, open, closed)| == 0
    ensures StopsAt(adj, doors, closed + Endpoints(adj, DoorPrim(adj, doors, weight, open, closed)))
  {
    DoorPrimUnfold(adj, doors, weight, open, closed);
    NoDoorLeft(adj, doors, weight, open, closed);
    assert closed + Endpoints(adj, DoorPrim(adj, doors, weight, open, closed)) == closed;
  }

  /** The closed set after DoorPrim, unfolded by its first door. */
  lemma DoorPrimStep(adj: map<GraphNode, set<GraphNode>>, doors: seq<GraphNode>, weight: GraphNode -> real,
                     open: set<GraphNode>, closed: set<GraphNode>)
    requires Endpoints(adj, doors) - closed <= open && |DoorPrim(adj, doors, weight, open, closed)| > 0
    ensures var N := NeighboursOf(adj, DoorPrim(adj, doors, weight, open, closed)[0]);
      && Endpoints(adj, doors) - (closed + N) <= open - N && |open - N| < |open|
      && closed + Endpoints(adj, DoorPrim(adj, doors, weight, open, closed))
         == (closed + N) + Endpoints(adj, DoorPrim(adj, doors, weight, open - N, closed + N))
  {
    var r := DoorPrim(adj, doors, weight, open, closed);
    DoorPrimUnfold(adj, doors, weight, open, closed);
    var N := NeighboursOf(adj, r[0]);
    EndpointsCons(adj, r, DoorPrim(adj, doors, weight, open - N, closed + N));
  }

  lemma EndpointsCons(adj: map<GraphNode, set<GraphNode>>, r: seq<GraphNode>, r': seq<GraphNode>)
    requires |r| > 0 && r == [r[0]] + r'
    ensures Endpoints(adj, r) == NeighboursOf(adj, r[0]) + Endpoints(adj, r')
  {
    assert r[1..] == r';
  }

  /** With no door chosen, no endpoint is left open or no door has exactly one open neighbour. */
  lemma NoDoorLeft(adj: map<GraphNode, set<GraphNode>>, doors: seq<GraphNode>, weight: GraphNode -> real,
                   open: set<GraphNode>, closed: set<GraphNode>)
    requires Endpoints(adj, doors) - closed <= open
    requires |open| == 0 || CheapestDoor(adj, doors, weight, closed, |doors|).None?
    ensures StopsAt(adj, doors, closed)
  {
    if |open| == 0 {
      forall x | x in Endpoints(adj, doors)
        ensures x in closed
      {
        assert x !in open;
      }
    } else {
      CheapestDoorIsFirstMinimum(adj, doors, weight, closed, |doors|);
    }
  }

  lemma CountStep(ns: seq<GraphNode>, k: int, closed: set<GraphNode>)
    requires Distinct(ns) && 0 <= k < |ns|
    ensures |Elems(ns[..k + 1]) - closed| == |Elems(ns[..k]) - closed| + (if ns[k] in closed then 0 else 1)
  {
    assert ns[..k + 1] == ns[..k] + [ns[k]];
    assert ns[k] !in Elems(ns[..k]);
    assert Elems(ns[..k + 1]) - closed == (Elems(ns[..k]) - closed) + ({ns[k]} - closed);
  }

  /** The `closedVertices` loop: counts the neighbours of `edge` that are not closed. */
  method CountOpen(graph: DoorGraph.Graph, edge: GraphNode, closedSet: set<GraphNode>) returns (closedVertices: nat)
    requires edge in graph.AdjacencyList
    ensures closedVertices == OpenCount(graph.AdjacencyList, edge, closedSet)
  {
    var ns := graph.GetNeighbors(edge);
    closedVertices := 0;
    var k := 0;
    while k < |ns|
      invariant 0 <= k <= |ns| && closedVertices == |Elems(ns[..k]) - closedSet|
    {
      CountStep(ns, k, closedSet);
      if ns[k] !in closedSet {
        closedVertices := closedVertices + 1;
      }
      k := k + 1;
    }
    assert ns[..k] == ns;
  }

  /**
   * The inner loop over the doors: the first cheapest door with exactly one
   * open neighbour, if any; `threw` when DoorEdgeDistance indexes past the
   * neighbours of a qualifying door.
   */
  method ChooseDoor(graph: DoorGraph.Graph, doorNodes: seq<GraphNode>, weight: GraphNode -> real, closedSet: set<GraphNode>)
    returns (threw: bool, chosen: bool, chosenEdge: Option<GraphNode>)
    requires forall d :: d in doorNodes ==> d in graph.AdjacencyList
    ensures threw <==> Stranded(graph.AdjacencyList, doorNodes, closedSet, |doorNodes|)
    ensures !threw ==> (chosen <==> CheapestDoor(graph.AdjacencyList, doorNodes, weight, closedSet, |doorNodes|).Some?)
    ensures !threw ==>
              chosenEdge == if chosen
                            then Some(doorNodes[CheapestDoor(graph.AdjacencyList, doorNodes, weight, closedSet, |doorNodes|).value])
                            else None
  {
    threw := false;
    chosen := false;
    chosenEdge := None;
    var minWeight: real := 0.0;
    var k := 0;
    while k < |doorNodes|
      invariant 0 <= k <= |doorNodes|
      invariant !Stranded(graph.AdjacencyList, doorNodes, closedSet, k)
      invariant chosen <==> CheapestDoor(graph.AdjacencyList, doorNodes, weight, closedSet, k).Some?
      invariant chosen ==>
                  var c := CheapestDoor(graph.AdjacencyList, doorNodes, weight, closedSet, k).value;
                  chosenEdge == Some(doorNodes[c]) && minWeight == weight(doorNodes[c])
      invariant !chosen ==> chosenEdge == None
    {
      var edge := doorNodes[k];
      var closedVertices := CountOpen(graph, edge, closedSet);
      StrandedStep(graph.AdjacencyList, doorNodes, closedSet, k);
      if closedVertices == 1 {
        var ns := graph.GetNeighbors(edge);
        DistinctCard(ns);
        if |ns| < 2 {
          StrandedLater(graph.AdjacencyList, doorNodes, closedSet, k + 1, |doorNodes|);
          return true, chosen, chosenEdge;
        }
        if !chosen || weight(edge) < minWeight {
          chosenEdge := Some(edge);
          chosen := true;
          minWeight := weight(edge);
        }
      }
      k := k + 1;
    }
  }

  /** The `openSet` loop: every neighbour of every door. */
  method AllEndpoints(graph: DoorGraph.Graph, doorNodes: seq<GraphNode>) returns (openSet: set<GraphNode>)
    requires forall d :: d in doorNodes ==> d in graph.AdjacencyList
    ensures openSet == Endpoints(graph.AdjacencyList, doorNodes)
  {
    openSet := {};
    var i := 0;
    while i < |doorNodes|
      invariant 0 <= i <= |doorNodes| && openSet == Endpoints(graph.AdjacencyList, doorNodes[..i])
    {
      var ns := graph.GetNeighbors(doorNodes[i]);
      ghost var before := openSet;
      var k := 0;
      while k < |ns|
        invariant 0 <= k <= |ns| && openSet == before + Elems(ns[..k])
      {
        ElemsTakeOneMore(ns, k);
        openSet := openSet + {ns[k]};
        openSet := openSet + {ns[k]};
        k := k + 1;
      }
      assert ns[..k] == ns;
      ElemsTakeOneMore(doorNodes, i);
      EndpointsConcat(graph.AdjacencyList, doorNodes[..i], [doorNodes[i]]);
      i := i + 1;
    }
    assert doorNodes[..i] == doorNodes;
  }

  /** The `foreach` that closes a chosen door's neighbours. */
  method CloseDoor(graph: DoorGraph.Graph, door: GraphNode, openSet: set<GraphNode>, closedSet: set<GraphNode>)
    returns (openSet': set<GraphNode>, closedSet': set<GraphNode>)
    requires door in graph.AdjacencyList
    ensures openSet' == openSet - graph.AdjacencyList[door]
    ensures closedSet' == closedSet + graph.AdjacencyList[door]
  {
    var ns := graph.GetNeighbors(door);
    openSet', closedSet' := openSet, closedSet;
    var k := 0;
    while k < |ns|
      invariant 0 <= k <= |ns|
      invariant openSet' == openSet - Elems(ns[..k]) && closedSet' == closedSet + Elems(ns[..k])
    {
      assert ns[..k + 1] == ns[..k] + [ns[k]];
      openSet' := openSet' - {ns[k]};
      closedSet' := closedSet' + {ns[k]};
      k := k + 1;
    }
    assert ns[..k] == ns;
  }

  /**
   * The spanning tree of the door graph: what DoorPrim computes from the
   * doors in key order, all door neighbours open and the first key closed.
   * The method has no modifies clause: the graph is only read.
   */
  method GetMinimumSpanningTree(graph: DoorGraph.Graph, weight: GraphNode -> real) returns (outcome: Outcome)
    requires graph.Valid()
    ensures |graph.Keys| == 0 ==> outcome == IndexOutOfRange
    ensures |graph.Keys| > 0 ==>
      var doors := DoorNodes(graph.Keys);
      var open := Endpoints(graph.AdjacencyList, doors);
      && (outcome == IndexOutOfRange <==> DoorPrimThrows(graph.AdjacencyList, doors, weight, open, {graph.Keys[0]}))
      && (outcome.Returned? ==> outcome.doors == DoorPrim(graph.AdjacencyList, doors, weight, open, {graph.Keys[0]}))
  {
    var nodes := graph.GetNodes();
    var doorNodes := DoorNodes(nodes);
    ghost var adj := graph.AdjacencyList;
    var openSet := AllEndpoints(graph, doorNodes);
    if |nodes| == 0 {
      // GetNodeByIndex(0) on an empty graph
      return IndexOutOfRange;
    }
    var first := graph.GetNodeByIndex(0);
    var closedSet := {first};
    var results := [];
    var done := false;
    assert [] + DoorPrim(adj, doorNodes, weight, openSet, closedSet) == DoorPrim(adj, doorNodes, weight, openSet, closedSet);
    while |openSet| > 0 && !done
      invariant Endpoints(adj, doorNodes) - closedSet <= openSet
      invariant done ==> results == DoorPrim(adj, doorNodes, weight, Endpoints(adj, doorNodes), {first})
      invariant done ==> !DoorPrimThrows(adj, doorNodes, weight, Endpoints(adj, doorNodes), {first})
      invariant !done ==> results + DoorPrim(adj, doorNodes, weight, openSet, closedSet)
                          == DoorPrim(adj, doorNodes, weight, Endpoints(adj, doorNodes), {first})
      invariant !done ==> DoorPrimThrows(adj, doorNodes, weight, openSet, closedSet)
                          == DoorPrimThrows(adj, doorNodes, weight, Endpoints(adj, doorNodes), {first})
      decreases |openSet|, !done
    {
      var threw;
      threw, done, openSet, closedSet, results := Round(graph, doorNodes, weight, openSet, closedSet, results);
      if threw {
        return IndexOutOfRange;
      }
    }
    if !done {
      DoorPrimUnfold(adj, doorNodes, weight, openSet, closedSet);
    }
    outcome := Returned(results);
  }

  /**
   * One round of the outer loop: pick the cheapest qualifying door and close
   * its neighbours, or report that none qualifies (the `break`).
   */
  method Round(graph: DoorGraph.Graph, doorNodes: seq<GraphNode>, weight: GraphNode -> real,
               openSet: set<GraphNode>, closedSet: set<GraphNode>, results: seq<GraphNode>)
    returns (threw: bool, done: bool, openSet': set<GraphNode>, closedSet': set<GraphNode>, results': seq<GraphNode>)
    requires forall d :: d in doorNodes ==> d in graph.AdjacencyList
    requires Endpoints(graph.AdjacencyList, doorNodes) - closedSet <= openSet && |openSet| > 0
    ensures threw <==> DoorPrimThrows(graph.AdjacencyList, doorNodes, weight, openSet, closedSet)
                       && Stranded(graph.AdjacencyList, doorNodes, closedSet, |doorNodes|)
    ensures Endpoints(graph.AdjacencyList, doorNodes) - closedSet' <= openSet'
    ensures !threw && done ==> openSet' == openSet && closedSet' == closedSet
    ensures !threw && done ==> !DoorPrimThrows(graph.AdjacencyList, doorNodes, weight, openSet, closedSet)
    ensures !threw && done ==> results' == results + DoorPrim(graph.AdjacencyList, doorNodes, weight, openSet, closedSet)
    ensures !threw && !done ==> (|openSet'| < |openSet| &&
      results' + DoorPrim(graph.AdjacencyList, doorNodes, weight, openSet', closedSet')
      == results + DoorPrim(graph.AdjacencyList, doorNodes, weight, openSet, closedSet))
    ensures !threw && !done ==>
      DoorPrimThrows(graph.AdjacencyList, doorNodes, weight, openSet', closedSet')
      == DoorPrimThrows(graph.AdjacencyList, doorNodes, weight, openSet, closedSet)
  {
    ghost var adj := graph.AdjacencyList;
    var chosen, chosenEdge;
    threw, chosen, chosenEdge := ChooseDoor(graph, doorNodes, weight, closedSet);
    if threw {
      return true, false, openSet, closedSet, results;
    }
    DoorPrimThrowsUnfold(adj, doorNodes, weight, openSet, closedSet);
    if !chosen {
      DoorPrimUnfold(adj, doorNodes, weight, openSet, closedSet);
      return false, true, openSet, closedSet, results;
    }
    var d := chosenEdge.value;
    DoorPrimAdvance(adj, doorNodes, weight, openSet, closedSet, results);
    results' := results + [d];
    openSet', closedSet' := CloseDoor(graph, d, openSet, closedSet);
    done := false;
  }

  /** One round of the outer loop moves the first of DoorPrim's doors to the result. */
  lemma DoorPrimAdvance(adj: map<GraphNode, set<GraphNode>>, doors: seq<GraphNode>, weight: GraphNode -> real,
                        open: set<GraphNode>, closed: set<GraphNode>, results: seq<GraphNode>)
    requires Endpoints(adj, doors) - closed <= open && |open| > 0
    requires CheapestDoor(adj, doors, weight, closed, |doors|).Some?
    ensures var d := doors[CheapestDoor(adj, doors, weight, closed, |doors|).value];
      var N := NeighboursOf(adj, d);
      && Endpoints(adj, doors) - (closed + N) <= open - N
      && |open - N| < |open|
      && (results + [d]) + DoorPrim(adj, doors, weight, open - N, closed + N)
         == results + DoorPrim(adj, doors, weight, open, closed)
  {
    var d := doors[CheapestDoor(adj, doors, weight, closed, |doors|).value];
    var N := NeighboursOf(adj, d);
    DoorPrimUnfold(adj, doors, weight, open, closed);
    var r := DoorPrim(adj, doors, weight, open, closed);
    assert |r| > 0 && r[0] == d;
    var rest := DoorPrim(adj, doors, weight, open - N, closed + N);
    assert r == [d] + rest;
    assert results + ([d] + rest) == (results + [d]) + rest;
  }
}
