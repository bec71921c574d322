/**
 * DungeonGenerator.MinimumSpanningTree (DungeonGenerator.cs): Prim's
 * selection over a plain edge list. Starting from `start`, it repeatedly
 * picks, among the edges with exactly one endpoint outside the closed set,
 * the first one of least distance, and closes both its endpoints; it stops
 * when no endpoint is left open or no edge qualifies.
 *
 * Vertices are compared by identity (a type parameter), and an edge's float
 * distance is an abstract real weight carried by the edge.
 */
module EdgeSpanningTree {
  import opened Collections
  import opened Reach
  import opened Selection

  /** A triangulation edge as the spanning tree sees it: two endpoint vertices and a distance. */
  datatype Edge<V> = Edge(a: V, b: V, distance: real)

  /** The `closedVertices` count of the inner loop: how many endpoints are not closed. */
  function OpenEnds<V(==)>(e: Edge<V>, closed: set<V>): nat {
    (if e.a in closed then 0 else 1) + (if e.b in closed then 0 else 1)
  }

  /** Every endpoint of the edges. */
  ghost function Ends<V>(es: seq<Edge<V>>): set<V> {
    if |es| == 0 then {} else {es[0].a, es[0].b} + Ends(es[1..])
  }

  lemma {:induction false} EndsMember<V>(es: seq<Edge<V>>, v: V)
    ensures v in Ends(es) <==> exists i :: 0 <= i < |es| && (es[i].a == v || es[i].b == v)
  {
    if |es| > 0 {
      EndsMember(es[1..], v);
      if v in Ends(es[1..]) {
        var i :| 0 <= i < |es[1..]| && (es[1..][i].a == v || es[1..][i].b == v);
        assert es[i + 1] == es[1..][i];
      }
      if exists i :: 0 <= i < |es| && (es[i].a == v || es[i].b == v) {
        var i :| 0 <= i < |es| && (es[i].a == v || es[i].b == v);
        if i > 0 {
          assert es[1..][i - 1] == es[i];
        }
      }
    }
  }

  lemma {:induction false} EndsConcat<V>(s: seq<Edge<V>>, t: seq<Edge<V>>)
    ensures Ends(s + t) == Ends(s) + Ends(t)
  {
    if |s| == 0 {
      assert s + t == t;
    } else {
      assert (s + t)[1..] == s[1..] + t;
      EndsConcat(s[1..], t);
    }
  }

  /** What the inner loop looks at for each edge: one open endpoint, and the distance. */
  function Scores<V(==)>(edges: seq<Edge<V>>, closed: set<V>): (s: seq<Score>)
    ensures |s| == |edges|
    ensures forall j :: 0 <= j < |edges| ==> s[j] == Score(OpenEnds(edges[j], closed) == 1, edges[j].distance)
  {
    seq(|edges|, j requires 0 <= j < |edges| => Score(OpenEnds(edges[j], closed) == 1, edges[j].distance))
  }

  /**
   * The inner loop over the edge list: the index of the first edge of least
   * distance among the edges of `edges[..n]` with exactly one open endpoint.
   */
  function Cheapest<V(==)>(edges: seq<Edge<V>>, closed: set<V>, n: nat): (r: Option<nat>)
    requires n <= |edges|
    ensures r.Some? ==> r.value < n && OpenEnds(edges[r.value], closed) == 1
  {
    FirstMin(Scores(edges, closed), n)
  }

  /**
   * Cheapest finds a qualifying edge iff there is one; it has the least
   * distance among them, and every qualifying edge before it is dearer.
   */
  lemma CheapestIsFirstMinimum<V>(edges: seq<Edge<V>>, closed: set<V>, n: nat)
    requires n <= |edges|
    ensures var r := Cheapest(edges, closed, n);
      && (r.None? <==> forall j :: 0 <= j < n ==> OpenEnds(edges[j], closed) != 1)
      && (r.Some? ==> forall j :: 0 <= j < n && OpenEnds(edges[j], closed) == 1 ==>
                        edges[r.value].distance <= edges[j].distance)
      && (r.Some? ==> forall j :: 0 <= j < r.value && OpenEnds(edges[j], closed) == 1 ==>
                        edges[r.value].distance < edges[j].distance)
  {
    FirstMinIsFirstLeast(Scores(edges, closed), n);
  }

  /** Closing the endpoints of a qualifying edge takes its one open endpoint out of the open set. */
  lemma ChosenShrinks<V>(edges: seq<Edge<V>>, open: set<V>, closed: set<V>, e: Edge<V>)
    requires Ends(edges) - closed <= open && e in edges && OpenEnds(e, closed) == 1
    ensures |open - {e.a, e.b}| < |open|
    ensures Ends(edges) - (closed + {e.a, e.b}) <= open - {e.a, e.b}
  {
    var x := if e.a in closed then e.b else e.a;
    var j :| 0 <= j < |edges| && edges[j] == e;
    EndsMember(edges, x);
    assert x in Ends(edges) - closed;
    SubsetCard(open - {e.a, e.b}, open - {x});
    CardRemove(open, x);
  }

  /** The outer loop: the edges chosen from the given open and closed sets on. */
  ghost function Prim<V>(edges: seq<Edge<V>>, open: set<V>, closed: set<V>): seq<Edge<V>>
    requires Ends(edges) - closed <= open
    decreases |open|
  {
    if |open| == 0 then []
    else match Cheapest(edges, closed, |edges|)
      case None => []
      case Some(i) =>
        var e := edges[i];
        ChosenShrinks(edges, open, closed, e);
        [e] + Prim(edges, open - {e.a, e.b}, closed + {e.a, e.b})
  }

  /** One step of Prim: the first edge chosen and the sets the rest is chosen from. */
  lemma PrimUnfold<V>(edges: seq<Edge<V>>, open: set<V>, closed: set<V>)
    requires Ends(edges) - closed <= open
    ensures var r := Prim(edges, open, closed);
      var c := Cheapest(edges, closed, |edges|);
      && (|r| == 0 <==> |open| == 0 || c.None?)
      && (|r| > 0 ==>
            && c.Some? && r[0] == edges[c.value] && r[0] in edges && OpenEnds(r[0], closed) == 1
            && Ends(edges) - (closed + {r[0].a, r[0].b}) <= open - {r[0].a, r[0].b}
            && |open - {r[0].a, r[0].b}| < |open|
            && r == [r[0]] + Prim(edges, open - {r[0].a, r[0].b}, closed + {r[0].a, r[0].b}))
  {
    var c := Cheapest(edges, closed, |edges|);
    if |open| > 0 && c.Some? {
      ChosenShrinks(edges, open, closed, edges[c.value]);
    }
  }

  /**
   * The greedy rule, edge by edge: each edge of `r` is the first cheapest
   * edge with exactly one endpoint outside the vertices closed before it.
   */
  ghost predicate GreedyChoices<V>(edges: seq<Edge<V>>, closed: set<V>, r: seq<Edge<V>>)
    decreases |r|
  {
    |r| == 0 ||
    (var c := Cheapest(edges, closed, |edges|);
     c.Some? && r[0] == edges[c.value] && GreedyChoices(edges, closed + {r[0].a, r[0].b}, r[1..]))
  }

  /** Prim's edges follow the greedy rule. */
  lemma {:induction false} PrimIsGreedy<V>(edges: seq<Edge<V>>, open: set<V>, closed: set<V>)
    requires Ends(edges) - closed <= open
    ensures GreedyChoices(edges, closed, Prim(edges, open, closed))
    decreases |open|
  {
    var r := Prim(edges, open, closed);
    PrimUnfold(edges, open, closed);
    if |r| > 0 {
      PrimIsGreedy(edges, open - {r[0].a, r[0].b}, closed + {r[0].a, r[0].b});
      assert r[1..] == Prim(edges, open - {r[0].a, r[0].b}, closed + {r[0].a, r[0].b});
    }
  }

  /** An edge both of whose endpoints are closed is never chosen again. */
  lemma {:induction false} ClosedNotChosen<V>(edges: seq<Edge<V>>, closed: set<V>, r: seq<Edge<V>>, e: Edge<V>)
    requires GreedyChoices(edges, closed, r) && e.a in closed && e.b in closed
    ensures e !in r
    decreases |r|
  {
    if |r| > 0 {
      assert OpenEnds(r[0], closed) == 1;
      ClosedNotChosen(edges, closed + {r[0].a, r[0].b}, r[1..], e);
      assert r == [r[0]] + r[1..];
    }
  }

  /**
   * Each greedy choice closes exactly one new vertex, so no edge repeats
   * and the chosen edges stay within the edge list.
   */
  lemma {:induction false} GreedyGrowsByOne<V>(edges: seq<Edge<V>>, closed: set<V>, r: seq<Edge<V>>)
    requires GreedyChoices(edges, closed, r)
    ensures |closed + Ends(r)| == |closed| + |r| && Distinct(r)
    ensures forall i :: 0 <= i < |r| ==> r[i] in edges
    decreases |r|
  {
    if |r| > 0 {
      var e := r[0];
      var closed' := closed + {e.a, e.b};
      var r' := r[1..];
      assert r == [e] + r';
      GreedyGrowsByOne(edges, closed', r');
      ClosedNotChosen(edges, closed', r', e);
      EndsConcat([e], r');
      assert closed + Ends(r) == closed' + Ends(r');
      OneEndCloses(closed, e);
      DistinctCons(e, r');
      assert forall i :: 0 < i < |r| ==> r[i] == r'[i - 1];
    }
  }

  /** Closing both endpoints of an edge with one open endpoint closes one vertex more. */
  lemma OneEndCloses<V>(closed: set<V>, e: Edge<V>)
    requires OpenEnds(e, closed) == 1
    ensures |closed + {e.a, e.b}| == |closed| + 1
  {
    var x := if e.a in closed then e.b else e.a;
    assert closed + {e.a, e.b} == closed + {x} && x !in closed;
  }

  lemma EndsWithin<V>(edges: seq<Edge<V>>, r: seq<Edge<V>>)
    requires forall i :: 0 <= i < |r| ==> r[i] in edges
    ensures Ends(r) <= Ends(edges)
  {
    forall v | v in Ends(r)
      ensures v in Ends(edges)
    {
      EndsMember(r, v);
      var i :| 0 <= i < |r| && (r[i].a == v || r[i].b == v);
      var j :| 0 <= j < |edges| && edges[j] == r[i];
      EndsMember(edges, v);
    }
  }

  /**
   * When the outer loop stops, either no endpoint is left open or no edge
   * has exactly one endpoint outside the closed set.
   */
  lemma {:induction false} PrimStops<V>(edges: seq<Edge<V>>, open: set<V>, closed: set<V>)
    requires Ends(edges) - closed <= open
    ensures var C := closed + Ends(Prim(edges, open, closed));
      Ends(edges) <= C || forall j :: 0 <= j < |edges| ==> OpenEnds(edges[j], C) != 1
    decreases |open|
  {
    var r := Prim(edges, open, closed);
    PrimUnfold(edges, open, closed);
    if |r| == 0 {
      assert Ends(r) == {};
      CheapestIsFirstMinimum(edges, closed, |edges|);
    } else {
      var e := r[0];
      var open' := open - {e.a, e.b};
      var closed' := closed + {e.a, e.b};
      var r' := Prim(edges, open', closed');
      PrimStops(edges, open', closed');
      EndsConcat([e], r');
      assert closed + Ends(r) == closed' + Ends(r');
    }
  }

  /** The edges as an undirected adjacency list over their endpoints. */
  ghost function Adjacency<V>(edges: seq<Edge<V>>): map<V, set<V>> {
    map v | v in Ends(edges) :: (set e | e in edges && e.a == v :: e.b) + (set e | e in edges && e.b == v :: e.a)
  }

  /** Every endpoint can be reached from `start` along the edges. */
  ghost predicate Connected<V(!new)>(edges: seq<Edge<V>>, start: V) {
    Ends(edges) <= ReachSet(Adjacency(edges), start, {})
  }

  /**
   * For a connected edge list that contains `start`, the chosen edges close
   * every vertex and there are exactly one fewer of them than vertices.
   */
  lemma SpanningWhenConnected<V(!new)>(edges: seq<Edge<V>>, start: V)
    requires start in Ends(edges) && Connected(edges, start)
    ensures var r := Prim(edges, Ends(edges), {start});
      {start} + Ends(r) == Ends(edges) && |r| == |Ends(edges)| - 1
  {
    var r := Prim(edges, Ends(edges), {start});
    var C := {start} + Ends(r);
    PrimStops(edges, Ends(edges), {start});
    PrimIsGreedy(edges, Ends(edges), {start});
    GreedyGrowsByOne(edges, {start}, r);
    EndsWithin(edges, r);
    if !(Ends(edges) <= C) {
      NoCandidateClosed(edges, C);
      ReachWithinClosed(Adjacency(edges), start, {}, C);
    }
  }

  /** With no edge leaving `C` by exactly one endpoint, `C` is closed under the adjacency of the edges. */
  lemma NoCandidateClosed<V>(edges: seq<Edge<V>>, C: set<V>)
    requires forall j :: 0 <= j < |edges| ==> OpenEnds(edges[j], C) != 1
    ensures var adj := Adjacency(edges);
      forall u :: u in C && u in adj ==> adj[u] - {} <= C
  {
    var adj := Adjacency(edges);
    forall u, w | u in C && u in adj && w in adj[u]
      ensures w in C
    {
      var e :| e in edges && ((e.a == u && e.b == w) || (e.b == u && e.a == w));
      var j :| 0 <= j < |edges| && edges[j] == e;
      assert OpenEnds(edges[j], C) != 1;
    }
  }

  /** One round of the outer loop moves the first of Prim's edges to the result. */
  lemma PrimAdvance<V>(edges: seq<Edge<V>>, open: set<V>, closed: set<V>, results: seq<Edge<V>>)
    requires Ends(edges) - closed <= open && |open| > 0 && Cheapest(edges, closed, |edges|).Some?
    ensures var e := edges[Cheapest(edges, closed, |edges|).value];
      && Ends(edges) - (closed + {e.a} + {e.b}) <= open - {e.a} - {e.b}
      && |open - {e.a} - {e.b}| < |open|
      && (results + [e]) + Prim(edges, open - {e.a} - {e.b}, closed + {e.a} + {e.b})
         == results + Prim(edges, open, closed)
  {
    var e := edges[Cheapest(edges, closed, |edges|).value];
    PrimUnfold(edges, open, closed);
    var r := Prim(edges, open, closed);
    assert |r| > 0 && r[0] == e;
    assert open - {e.a} - {e.b} == open - {e.a, e.b};
    assert closed + {e.a} + {e.b} == closed + {e.a, e.b};
    var rest := Prim(edges, open - {e.a, e.b}, closed + {e.a, e.b});
    assert r == [e] + rest;
    assert results + ([e] + rest) == (results + [e]) + rest;
  }

  /** The `openSet` loop: every endpoint of the first `i` edges. */
  lemma EndsStep<V>(edges: seq<Edge<V>>, i: int)
    requires 0 <= i < |edges|
    ensures Ends(edges[..i + 1]) == Ends(edges[..i]) + {edges[i].a, edges[i].b}
  {
    assert edges[..i + 1] == edges[..i] + [edges[i]];
    EndsConcat(edges[..i], [edges[i]]);
  }

  /** The inner loop: the first cheapest edge with exactly one open endpoint, if any. */
  method ChooseEdge<V(==)>(edges: seq<Edge<V>>, closedSet: set<V>) returns (chosen: bool, chosenEdge: Option<Edge<V>>)
    ensures chosen <==> Cheapest(edges, closedSet, |edges|).Some?
    ensures chosenEdge == if chosen then Some(edges[Cheapest(edges, closedSet, |edges|).value]) else None
  {
    chosen := false;
    chosenEdge := None;
    var minWeight: real := 0.0;
    var k := 0;
    while k < |edges|
      invariant 0 <= k <= |edges|
      invariant chosen <==> Cheapest(edges, closedSet, k).Some?
      invariant chosen ==> chosenEdge == Some(edges[Cheapest(edges, closedSet, k).value])
                           && minWeight == edges[Cheapest(edges, closedSet, k).value].distance
      invariant !chosen ==> chosenEdge == None
    {
      var edge := edges[k];
      var closedVertices := 0;
      if edge.a !in closedSet {
        closedVertices := closedVertices + 1;
      }
      if edge.b !in closedSet {
        closedVertices := closedVertices + 1;
      }
      if closedVertices == 1 && (!chosen || edge.distance < minWeight) {
        chosenEdge := Some(edge);
        chosen := true;
        minWeight := edge.distance;
      }
      k := k + 1;
    }
  }

  /**
   * The spanning tree of `edges` grown from `start`: what Prim computes, so
   * that PrimChoices, PrimGrowsByOne and SpanningWhenConnected apply to it.
   */
  method MinimumSpanningTree<V(==)>(edges: seq<Edge<V>>, start: V) returns (results: seq<Edge<V>>)
    ensures results == Prim(edges, Ends(edges), {start})
  {
    var openSet: set<V> := {};
    var i := 0;
    while i < |edges|
      invariant 0 <= i <= |edges| && openSet == Ends(edges[..i])
    {
      EndsStep(edges, i);
      openSet := openSet + {edges[i].a};
      openSet := openSet + {edges[i].b};
      i := i + 1;
    }
    assert edges[..i] == edges;
    var closedSet := {start};
    results := [];
    while |openSet| > 0
      invariant Ends(edges) - closedSet <= openSet
      invariant results + Prim(edges, openSet, closedSet) == Prim(edges, Ends(edges), {start})
      decreases |openSet|
    {
      var chosen, chosenEdge := ChooseEdge(edges, closedSet);
      if !chosen {
        PrimUnfold(edges, openSet, closedSet);
        break;
      }
      var e := chosenEdge.value;
      PrimAdvance(edges, openSet, closedSet, results);
      results := results + [e];
      openSet := openSet - {e.a};
      openSet := openSet - {e.b};
      closedSet := closedSet + {e.a};
      closedSet := closedSet + {e.b};
    }
  }
}
