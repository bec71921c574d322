/**
 * The best-first search loop that Assets/Scripts/Pathfinding/PathFinder.cs
 * writes twice, once over groups (FindGroupPath) and once over tiles
 * (FindPath). The frontier is a list of (node, priority) entries that is
 * re-sorted descending after every insertion, and the last entry, the one
 * of lowest priority, is popped. A node enters `discovered` when it is first
 * met as a neighbour and receives its cost and parent at that moment only.
 * A popped node that may not be expanded (a tile that is not walkable) is
 * skipped, but can still be the goal.
 *
 * Nodes are any type `N`; the graph is an adjacency list whose neighbour
 * lists keep their order, because the order in which neighbours are pushed
 * decides ties on the frontier.
 */
module BestFirst {
  import opened Collections
  import opened Reach

  /** One frontier entry: a node and its priority (cost so far plus heuristic). */
  datatype Entry<N> = Entry(node: N, priority: real)

  ghost predicate SortedDesc<N>(q: seq<Entry<N>>) {
    forall i, j :: 0 <= i < j < |q| ==> q[i].priority >= q[j].priority
  }

  function NodesOf<N>(q: seq<Entry<N>>): set<N> {
    set e | e in q :: e.node
  }

  /**
   * One step of a stable descending insertion sort: `e` is placed after
   * every entry of `q` that it does not outrank.
   */
  function InsertDesc<N>(q: seq<Entry<N>>, e: Entry<N>): (r: seq<Entry<N>>)
    ensures multiset(r) == multiset(q) + multiset{e} && |r| == |q| + 1
  {
    if |q| == 0 then [e]
    else if q[|q| - 1].priority >= e.priority then q + [e]
    else
      assert q == q[..|q| - 1] + [q[|q| - 1]];
      InsertDesc(q[..|q| - 1], e) + [q[|q| - 1]]
  }

  /**
   * LINQ's OrderByDescending on priorities. It is a stable sort, and a
   * stable sort is what insertion sort with InsertDesc computes.
   */
  function SortDesc<N>(s: seq<Entry<N>>): (r: seq<Entry<N>>)
    ensures multiset(r) == multiset(s) && |r| == |s|
  {
    if |s| == 0 then []
    else
      assert s == s[..|s| - 1] + [s[|s| - 1]];
      InsertDesc(SortDesc(s[..|s| - 1]), s[|s| - 1])
  }

  /** Inserting into a descending list keeps it descending. */
  lemma {:induction false} InsertDescSorted<N>(q: seq<Entry<N>>, e: Entry<N>)
    requires SortedDesc(q)
    ensures SortedDesc(InsertDesc(q, e))
  {
    if |q| > 0 && q[|q| - 1].priority < e.priority {
      var init := q[..|q| - 1];
      InsertDescSorted(init, e);
      var r := InsertDesc(init, e);
      assert multiset(r) == multiset(init) + multiset{e};
      forall i | 0 <= i < |r|
        ensures r[i].priority >= q[|q| - 1].priority
      {
        assert r[i] in multiset(r);
        if r[i] != e {
          assert r[i] in multiset(init);
          var k :| 0 <= k < |init| && init[k] == r[i];
          assert init[k] == q[k];
        }
      }
    }
  }

  /** The index at which InsertDesc places the new entry. */
  function InsertIndex<N>(q: seq<Entry<N>>, e: Entry<N>): (k: nat)
    ensures k <= |q|
  {
    if |q| == 0 then 0
    else if q[|q| - 1].priority >= e.priority then |q|
    else InsertIndex(q[..|q| - 1], e)
  }

  /** The new entry is spliced in at InsertIndex, the others keep their order. */
  lemma {:induction false} InsertDescSplice<N>(q: seq<Entry<N>>, e: Entry<N>)
    ensures var k := InsertIndex(q, e); InsertDesc(q, e) == q[..k] + [e] + q[k..]
  {
    if |q| > 0 && q[|q| - 1].priority < e.priority {
      var init := q[..|q| - 1];
      InsertDescSplice(init, e);
      var k := InsertIndex(init, e);
      assert q[..k] == init[..k];
      assert q[k..] == init[k..] + [q[|q| - 1]];
    }
  }

  /**
   * Where the new entry lands in a descending list: after every entry of
   * at least its priority and before every entry of lower priority.
   */
  lemma {:induction false} InsertIndexBetween<N>(q: seq<Entry<N>>, e: Entry<N>)
    requires SortedDesc(q)
    ensures var k := InsertIndex(q, e);
      && (forall i :: 0 <= i < k ==> q[i].priority >= e.priority)
      && (forall i :: k <= i < |q| ==> q[i].priority < e.priority)
  {
    if |q| > 0 && q[|q| - 1].priority < e.priority {
      var init := q[..|q| - 1];
      assert SortedDesc(init);
      InsertIndexBetween(init, e);
    }
  }

  /** Sorting a list that is already descending leaves it as it is. */
  lemma {:induction false} SortDescOfSorted<N>(s: seq<Entry<N>>)
    requires SortedDesc(s)
    ensures SortDesc(s) == s
  {
    if |s| > 0 {
      var init := s[..|s| - 1];
      assert SortedDesc(init);
      SortDescOfSorted(init);
      assert s == init + [s[|s| - 1]];
    }
  }

  /**
   * What the frontier update computes: appending an entry to a descending
   * list and re-sorting it is the stable insertion of that entry, and the
   * list stays descending.
   */
  lemma AppendThenSort<N>(q: seq<Entry<N>>, e: Entry<N>)
    requires SortedDesc(q)
    ensures SortDesc(q + [e]) == InsertDesc(q, e)
    ensures SortedDesc(SortDesc(q + [e]))
  {
    assert (q + [e])[..|q|] == q;
    SortDescOfSorted(q);
    InsertDescSorted(q, e);
  }

  /** The entry popped from the back of a descending list has the lowest priority. */
  lemma PoppedIsLowest<N>(q: seq<Entry<N>>)
    requires SortedDesc(q) && |q| > 0
    ensures forall i :: 0 <= i < |q| ==> q[|q| - 1].priority <= q[i].priority
  {
  }

  /**
   * Ties go to the most recent entry: every entry that ends up behind a
   * newly inserted one has a strictly lower priority, so among entries of
   * equal priority the newest is popped first.
   */
  lemma NewestWinsTies<N>(q: seq<Entry<N>>, e: Entry<N>)
    requires SortedDesc(q)
    ensures exists k :: 0 <= k < |InsertDesc(q, e)| && InsertDesc(q, e)[k] == e
                        && forall j :: k < j < |InsertDesc(q, e)| ==> InsertDesc(q, e)[j].priority < e.priority
  {
    InsertDescSplice(q, e);
    InsertIndexBetween(q, e);
    var k := InsertIndex(q, e);
    var r := InsertDesc(q, e);
    assert r[k] == e;
    forall j | k < j < |r|
      ensures r[j].priority < e.priority
    {
      assert r[j] == q[j - 1];
    }
  }

  /** Every neighbour in an adjacency list is itself a key. */
  ghost predicate ClosedLists<N>(adj: map<N, seq<N>>) {
    forall k, i :: k in adj && 0 <= i < |adj[k]| ==> adj[k][i] in adj
  }

  /**
   * The steps the search can take: from a node that may be expanded to
   * any of its neighbours; a node that may not be expanded has none.
   */
  ghost function Steps<N>(adj: map<N, seq<N>>, expandable: N -> bool): map<N, set<N>> {
    map n | n in adj :: if expandable(n) then Elems(adj[n]) else {}
  }

  /**
   * The parent map as the search leaves it: each node's parent is an
   * expandable node that lists it as a neighbour, and following parents
   * from any node other than `start` reaches `start` (the rank, the order
   * of discovery, falls at each step).
   */
  ghost predicate Tree<N>(adj: map<N, seq<N>>, expandable: N -> bool, start: N, p: map<N, N>, rank: map<N, nat>) {
    && p.Keys <= rank.Keys
    && (forall w :: w in p ==> p[w] in adj && expandable(p[w]) && w in adj[p[w]])
    && (forall w :: w in p && w != start ==> p[w] == start || (p[w] in p && rank[p[w]] < rank[w]))
  }

  /** The parent chain from `n` back to `start`: `n`, its parent, its grandparent, ..., `start`. */
  ghost function ParentChain<N>(adj: map<N, seq<N>>, expandable: N -> bool, start: N, p: map<N, N>,
                         rank: map<N, nat>, n: N): (b: seq<N>)
    requires Tree(adj, expandable, start, p, rank) && (n == start || n in p)
    ensures |b| > 0 && b[0] == n && b[|b| - 1] == start
    decreases if n == start then 0 else rank[n] + 1
  {
    if n == start then [n] else [n] + ParentChain(adj, expandable, start, p, rank, p[n])
  }

  /** A walk the search can take: every node but the last may be expanded and lists the next one. */
  ghost predicate Walk<N>(adj: map<N, seq<N>>, expandable: N -> bool, w: seq<N>) {
    forall i :: 0 <= i < |w| - 1 ==> w[i] in adj && expandable(w[i]) && w[i + 1] in adj[w[i]]
  }

  /** `r` is `s` back to front (List.Reverse). */
  function Reverse<T>(s: seq<T>): (r: seq<T>)
    ensures |r| == |s| && forall i :: 0 <= i < |s| ==> r[i] == s[|s| - 1 - i]
  {
    if |s| == 0 then [] else Reverse(s[1..]) + [s[0]]
  }

  /** The parent chain, read from `start` forwards, is a walk of the search from `start` to `n`. */
  lemma {:induction false} BackIsWalk<N>(adj: map<N, seq<N>>, expandable: N -> bool, start: N, p: map<N, N>,
                                         rank: map<N, nat>, n: N)
    requires Tree(adj, expandable, start, p, rank) && (n == start || n in p)
    ensures Walk(adj, expandable, Reverse(ParentChain(adj, expandable, start, p, rank, n)))
    decreases if n == start then 0 else rank[n] + 1
  {
    if n != start {
      var rest := ParentChain(adj, expandable, start, p, rank, p[n]);
      BackIsWalk(adj, expandable, start, p, rank, p[n]);
      var b := ParentChain(adj, expandable, start, p, rank, n);
      assert b == [n] + rest;
      var r, r' := Reverse(b), Reverse(rest);
      assert |r| == |r'| + 1;
      forall i | 0 <= i < |r| - 1
        ensures r[i] in adj && expandable(r[i]) && r[i + 1] in adj[r[i]]
      {
        assert r[i] == b[|b| - 1 - i];
        if i < |r| - 2 {
          assert r[i] == r'[i] && r[i + 1] == r'[i + 1];
        } else {
          assert r[i] == p[n] && r[i + 1] == n;
        }
      }
    }
  }

  /** A walk from `s` in the search's steps reaches its last node. */
  lemma WalkReaches<N(!new)>(adj: map<N, seq<N>>, expandable: N -> bool, w: seq<N>)
    requires |w| > 0 && Walk(adj, expandable, w)
    ensures w[|w| - 1] in ReachSet(Steps(adj, expandable), w[0], {})
  {
    var st := Steps(adj, expandable);
    assert IsPathAvoiding(st, w, w[0], w[|w| - 1], {});
    if |w| > 1 {
      assert w[|w| - 1] in st[w[|w| - 2]];
    }
  }

  /** The state of the search between two pops. */
  ghost predicate Searching<N>(adj: map<N, seq<N>>, expandable: N -> bool, start: N, end: N,
                               discovered: set<N>, popped: set<N>, q: seq<Entry<N>>,
                               p: map<N, N>, c: map<N, real>, rank: map<N, nat>, next: nat)
  {
    && Bookkeeping(adj, discovered, p, c, rank, next)
    && Tree(adj, expandable, start, p, rank)
    && (forall w :: w in p ==> p[w] in popped)
    && Queued(start, end, discovered, popped, q)
  }

  /** The maps have the discovered nodes as keys, and every rank is below `next`. */
  ghost predicate Bookkeeping<N>(adj: map<N, seq<N>>, discovered: set<N>, p: map<N, N>, c: map<N, real>,
                                 rank: map<N, nat>, next: nat)
  {
    && p.Keys == discovered && c.Keys == discovered && rank.Keys == discovered
    && discovered <= adj.Keys
    && (forall w :: w in rank ==> rank[w] < next)
  }

  /**
   * Every node pushed so far (the discovered ones and `start`) is popped or
   * still queued, the goal has not been popped, and the frontier is descending.
   */
  ghost predicate Queued<N>(start: N, end: N, discovered: set<N>, popped: set<N>, q: seq<Entry<N>>) {
    && popped <= discovered + {start}
    && discovered + {start} <= popped + NodesOf(q)
    && NodesOf(q) <= discovered + {start}
    && end !in popped
    && SortedDesc(q)
  }

  /** Every popped node that may be expanded has had all its neighbours discovered. */
  ghost predicate ExpandedAll<N>(adj: map<N, seq<N>>, expandable: N -> bool, popped: set<N>, discovered: set<N>) {
    forall x :: x in popped && x in adj && expandable(x) ==> Elems(adj[x]) <= discovered
  }

  lemma NodesOfPop<N>(q: seq<Entry<N>>)
    requires |q| > 0
    ensures NodesOf(q) == NodesOf(q[..|q| - 1]) + {q[|q| - 1].node}
  {
    assert q == q[..|q| - 1] + [q[|q| - 1]];
  }

  lemma NodesOfPush<N>(q: seq<Entry<N>>, e: Entry<N>)
    ensures NodesOf(SortDesc(q + [e])) == NodesOf(q) + {e.node}
  {
    var r := SortDesc(q + [e]);
    assert multiset(r) == multiset(q) + multiset{e};
    forall x | x in r
      ensures x in q || x == e
    {
      assert x in multiset(r);
    }
    forall x | x in q + [e]
      ensures x in r
    {
      assert x in multiset(q + [e]);
    }
  }

  /** Discovering `w`, a neighbour of the node `u` being expanded, keeps the state of the search. */
  lemma Discover<N>(adj: map<N, seq<N>>, expandable: N -> bool, start: N, end: N, u: N, w: N, e: Entry<N>,
                    discovered: set<N>, popped: set<N>, q: seq<Entry<N>>,
                    p: map<N, N>, c: map<N, real>, cw: real, rank: map<N, nat>, next: nat)
    requires ClosedLists(adj) && u in adj && expandable(u) && u in popped && w in adj[u] && w !in discovered
    requires e.node == w
    requires Searching(adj, expandable, start, end, discovered, popped, q, p, c, rank, next)
    ensures Searching(adj, expandable, start, end, discovered + {w}, popped, SortDesc(q + [e]),
                      p[w := u], c[w := cw], rank[w := next], next + 1)
  {
    TreeGrows(adj, expandable, start, p, rank, next, u, w);
    BookkeepingGrows(adj, discovered, p, c, cw, rank, next, u, w);
    QueuedGrows(start, end, discovered, popped, q, e);
    var p' := p[w := u];
    forall x | x in p'
      ensures p'[x] in popped
    {
      if x != w {
        assert p'[x] == p[x];
      }
    }
  }

  lemma BookkeepingGrows<N>(adj: map<N, seq<N>>, discovered: set<N>, p: map<N, N>, c: map<N, real>, cw: real,
                            rank: map<N, nat>, next: nat, u: N, w: N)
    requires Bookkeeping(adj, discovered, p, c, rank, next) && w in adj
    ensures Bookkeeping(adj, discovered + {w}, p[w := u], c[w := cw], rank[w := next], next + 1)
  {
  }

  lemma QueuedGrows<N>(start: N, end: N, discovered: set<N>, popped: set<N>, q: seq<Entry<N>>, e: Entry<N>)
    requires Queued(start, end, discovered, popped, q)
    ensures Queued(start, end, discovered + {e.node}, popped, SortDesc(q + [e]))
  {
    NodesOfPush(q, e);
    AppendThenSort(q, e);
  }

  lemma TreeGrows<N>(adj: map<N, seq<N>>, expandable: N -> bool, start: N, p: map<N, N>, rank: map<N, nat>,
                     next: nat, u: N, w: N)
    requires Tree(adj, expandable, start, p, rank) && w !in p && (forall x :: x in rank ==> rank[x] < next)
    requires u in adj && expandable(u) && w in adj[u] && (u == start || u in p)
    ensures Tree(adj, expandable, start, p[w := u], rank[w := next])
  {
    var p', rank' := p[w := u], rank[w := next];
    forall x | x in p' && x != start
      ensures p'[x] == start || (p'[x] in p' && rank'[p'[x]] < rank'[x])
    {
      if x != w {
        assert x in p && p'[x] == p[x];
        if p[x] != start {
          assert p[x] in p && p[x] != w;
        }
      }
    }
  }

  /** Popping the last entry, which is not the goal, and marking its node popped. */
  lemma PopStep<N>(adj: map<N, seq<N>>, expandable: N -> bool, start: N, end: N,
                   discovered: set<N>, popped: set<N>, q: seq<Entry<N>>,
                   p: map<N, N>, c: map<N, real>, rank: map<N, nat>, next: nat)
    requires Searching(adj, expandable, start, end, discovered, popped, q, p, c, rank, next)
    requires ExpandedAll(adj, expandable, popped, discovered)
    requires |q| > 0 && q[|q| - 1].node != end
    ensures var v := q[|q| - 1].node;
      && Searching(adj, expandable, start, end, discovered, popped + {v}, q[..|q| - 1], p, c, rank, next)
      && ExpandedAll(adj, expandable, (popped + {v}) - {v}, discovered)
      && (!(v in adj && expandable(v)) ==> ExpandedAll(adj, expandable, popped + {v}, discovered))
  {
    NodesOfPop(q);
    assert SortedDesc(q[..|q| - 1]);
  }

  /**
   * The inner loop of the search, for a popped node `v` that may be
   * expanded: each neighbour not yet discovered is discovered, given its
   * cost and `v` as parent, and pushed with priority cost plus heuristic;
   * the frontier is re-sorted after every push.
   */
  method Expand<N(!new)>(adj: map<N, seq<N>>, expandable: N -> bool, cost: (N, N) -> real, h: N -> real,
                         start: N, end: N, v: Entry<N>,
                         discovered: set<N>, ghost popped: set<N>, q: seq<Entry<N>>,
                         p: map<N, N>, c: map<N, real>, ghost rank: map<N, nat>, ghost next: nat)
    returns (discovered': set<N>, q': seq<Entry<N>>, p': map<N, N>, c': map<N, real>,
             ghost rank': map<N, nat>, ghost next': nat)
    requires ClosedLists(adj) && v.node in adj && expandable(v.node) && v.node in popped
    requires Searching(adj, expandable, start, end, discovered, popped, q, p, c, rank, next)
    requires ExpandedAll(adj, expandable, popped - {v.node}, discovered)
    ensures Searching(adj, expandable, start, end, discovered', popped, q', p', c', rank', next')
    ensures ExpandedAll(adj, expandable, popped, discovered')
    ensures discovered <= discovered' && |q'| + |discovered| == |q| + |discovered'|
  {
    var u := v.node;
    var ws := adj[u];
    discovered', q', p', c', rank', next' := discovered, q, p, c, rank, next;
    var i := 0;
    while i < |ws|
      invariant 0 <= i <= |ws|
      invariant Searching(adj, expandable, start, end, discovered', popped, q', p', c', rank', next')
      invariant ExpandedAll(adj, expandable, popped - {u}, discovered')
      invariant discovered <= discovered' && |q'| + |discovered| == |q| + |discovered'|
      invariant Elems(ws[..i]) <= discovered'
    {
      var w := ws[i];
      ElemsTakeOneMore(ws, i);
      ghost var before := discovered';
      discovered', q', p', c', rank', next' := Visit(adj, expandable, cost, h, start, end, v, w,
                                                     discovered', popped, q', p', c', rank', next');
      ExpandedAllGrows(adj, expandable, popped - {u}, before, discovered');
      i := i + 1;
    }
    assert ws[..i] == ws;
    ExpandedAllAdd(adj, expandable, popped, u, discovered');
  }

  lemma SearchingKeys<N>(adj: map<N, seq<N>>, expandable: N -> bool, start: N, end: N,
                         discovered: set<N>, popped: set<N>, q: seq<Entry<N>>,
                         p: map<N, N>, c: map<N, real>, rank: map<N, nat>, next: nat)
    requires Searching(adj, expandable, start, end, discovered, popped, q, p, c, rank, next)
    ensures c.Keys == discovered && p.Keys == discovered
  {
  }

  lemma CardAdd<T>(S: set<T>, x: T)
    requires x !in S
    ensures |S + {x}| == |S| + 1
  {
  }

  lemma ExpandedAllGrows<N>(adj: map<N, seq<N>>, expandable: N -> bool, popped: set<N>, D: set<N>, D': set<N>)
    requires ExpandedAll(adj, expandable, popped, D) && D <= D'
    ensures ExpandedAll(adj, expandable, popped, D')
  {
  }

  lemma ExpandedAllAdd<N>(adj: map<N, seq<N>>, expandable: N -> bool, popped: set<N>, u: N, D: set<N>)
    requires ExpandedAll(adj, expandable, popped - {u}, D) && u in adj && Elems(adj[u]) <= D
    ensures ExpandedAll(adj, expandable, popped, D)
  {
  }

  /**
   * The body of the inner loop for one neighbour `w` of the popped entry
   * `v`: if `w` is not yet discovered, it is discovered, given the cost
   * `v.priority + cost(v, w)` and `v` as parent (the branch that would
   * lower the cost of a node already costed can never run, since costs are
   * given on discovery only), and pushed with that cost plus its heuristic.
   */
  method Visit<N(!new)>(adj: map<N, seq<N>>, expandable: N -> bool, cost: (N, N) -> real, h: N -> real,
                        start: N, end: N, v: Entry<N>, w: N,
                        discovered: set<N>, ghost popped: set<N>, q: seq<Entry<N>>,
                        p: map<N, N>, c: map<N, real>, ghost rank: map<N, nat>, ghost next: nat)
    returns (discovered': set<N>, q': seq<Entry<N>>, p': map<N, N>, c': map<N, real>,
             ghost rank': map<N, nat>, ghost next': nat)
    requires ClosedLists(adj) && v.node in adj && expandable(v.node) && v.node in popped && w in adj[v.node]
    requires Searching(adj, expandable, start, end, discovered, popped, q, p, c, rank, next)
    ensures Searching(adj, expandable, start, end, discovered', popped, q', p', c', rank', next')
    ensures discovered' == discovered + {w} && |q'| + |discovered| == |q| + |discovered'|
  {
    var u := v.node;
    discovered', q', p', c', rank', next' := discovered, q, p, c, rank, next;
    if w !in discovered {
      SearchingKeys(adj, expandable, start, end, discovered, popped, q, p, c, rank, next);
      CardAdd(discovered, w);
      var newCost := v.priority + cost(u, w);
      if w !in c {
        c' := c[w := newCost];
        p' := p[w := u];
      } else {
        assert false;
      }
      var e := Entry(w, c'[w] + h(w));
      Discover(adj, expandable, start, end, u, w, e, discovered, popped, q, p, c, newCost, rank, next);
      discovered', q', rank', next' := discovered + {w}, SortDesc(q + [e]), rank[w := next], next + 1;
    }
  }

  /**
   * The search from `start` for `end`. It finds `end` exactly when a walk
   * of the search's steps leads there: from expandable nodes only, though
   * the goal itself need not be expandable. When it finds it, the parent
   * map leads back from `end` to `start`. The loop pops at most one entry
   * more than there are nodes.
   */
  method Explore<N(!new)>(adj: map<N, seq<N>>, expandable: N -> bool, cost: (N, N) -> real, h: N -> real,
                          start: N, end: N)
    returns (found: bool, p: map<N, N>, ghost rank: map<N, nat>, ghost pops: nat)
    requires ClosedLists(adj) && start in adj
    ensures found <==> end in ReachSet(Steps(adj, expandable), start, {})
    ensures found ==> Tree(adj, expandable, start, p, rank) && (end == start || end in p)
    ensures p.Keys <= adj.Keys && pops <= |adj.Keys| + 1
  {
    var discovered: set<N> := {};
    var q: seq<Entry<N>> := [Entry(start, 0.0)];
    var c: map<N, real> := map[];
    p, rank := map[], map[];
    ghost var popped: set<N> := {};
    ghost var next: nat := 0;
    pops := 0;
    assert NodesOf(q) == {start};
    while |q| > 0
      invariant Searching(adj, expandable, start, end, discovered, popped, q, p, c, rank, next)
      invariant ExpandedAll(adj, expandable, popped, discovered)
      invariant pops + |q| == |discovered| + 1
      decreases |adj.Keys - discovered|, |q|
    {
      var v := q[|q| - 1];
      pops := pops + 1;
      if v.node == end {
        GoalPopped(adj, expandable, start, end, discovered, popped, q, p, c, rank, next);
        found := true;
        return;
      }
      discovered, popped, q, p, c, rank, next := Advance(adj, expandable, cost, h, start, end,
                                                         discovered, popped, q, p, c, rank, next);
    }
    found := false;
    assert NodesOf(q) == {};
    SubsetCard(discovered, adj.Keys);
    Exhausted(adj, expandable, start, end, popped, discovered);
  }

  /**
   * One round of the search's loop for a popped entry that is not the goal:
   * it is marked popped and, when it may be expanded, its neighbours are
   * visited.
   */
  method Advance<N(!new)>(adj: map<N, seq<N>>, expandable: N -> bool, cost: (N, N) -> real, h: N -> real,
                          start: N, end: N, discovered: set<N>, ghost popped: set<N>, q: seq<Entry<N>>,
                          p: map<N, N>, c: map<N, real>, ghost rank: map<N, nat>, ghost next: nat)
    returns (discovered': set<N>, ghost popped': set<N>, q': seq<Entry<N>>, p': map<N, N>, c': map<N, real>,
             ghost rank': map<N, nat>, ghost next': nat)
    requires ClosedLists(adj) && |q| > 0 && q[|q| - 1].node != end
    requires Searching(adj, expandable, start, end, discovered, popped, q, p, c, rank, next)
    requires ExpandedAll(adj, expandable, popped, discovered)
    ensures Searching(adj, expandable, start, end, discovered', popped', q', p', c', rank', next')
    ensures ExpandedAll(adj, expandable, popped', discovered')
    ensures discovered <= discovered' <= adj.Keys && |q'| + |discovered| + 1 == |q| + |discovered'|
    ensures |adj.Keys - discovered'| < |adj.Keys - discovered| ||
            (|adj.Keys - discovered'| == |adj.Keys - discovered| && |q'| < |q|)
  {
    var v := q[|q| - 1];
    PopStep(adj, expandable, start, end, discovered, popped, q, p, c, rank, next);
    q' := q[..|q| - 1];
    popped' := popped + {v.node};
    discovered', p', c', rank', next' := discovered, p, c, rank, next;
    if v.node in adj && expandable(v.node) {
      discovered', q', p', c', rank', next' := Expand(adj, expandable, cost, h, start, end, v,
                                                      discovered, popped', q', p, c, rank, next);
    }
    ShrinkOrEqual(adj.Keys, discovered, discovered');
  }

  /** Popping the goal: it was reached along the parent tree, within the count of pops. */
  lemma GoalPopped<N(!new)>(adj: map<N, seq<N>>, expandable: N -> bool, start: N, end: N,
                            discovered: set<N>, popped: set<N>, q: seq<Entry<N>>,
                            p: map<N, N>, c: map<N, real>, rank: map<N, nat>, next: nat)
    requires Searching(adj, expandable, start, end, discovered, popped, q, p, c, rank, next)
    requires |q| > 0 && q[|q| - 1].node == end
    ensures Tree(adj, expandable, start, p, rank) && (end == start || end in p)
    ensures end in ReachSet(Steps(adj, expandable), start, {})
    ensures p.Keys <= adj.Keys && |discovered| <= |adj.Keys|
  {
    NodesOfPop(q);
    SearchingKeys(adj, expandable, start, end, discovered, popped, q, p, c, rank, next);
    SubsetCard(discovered, adj.Keys);
    ReachedGoal(adj, expandable, start, end, p, rank);
  }

  lemma ShrinkOrEqual<N>(K: set<N>, D: set<N>, D': set<N>)
    requires D <= D' <= K
    ensures |K - D'| <= |K - D|
    ensures D' != D ==> |K - D'| < |K - D|
  {
    SubsetCard(K - D', K - D);
    if D' != D {
      assert !(D' <= D);
      var x :| x in D' && x !in D;
      SubsetCard(K - D', (K - D) - {x});
      CardRemove(K - D, x);
    }
  }

  lemma ReachedGoal<N(!new)>(adj: map<N, seq<N>>, expandable: N -> bool, start: N, end: N,
                             p: map<N, N>, rank: map<N, nat>)
    requires Tree(adj, expandable, start, p, rank) && (end == start || end in p)
    ensures end in ReachSet(Steps(adj, expandable), start, {})
  {
    BackIsWalk(adj, expandable, start, p, rank, end);
    WalkReaches(adj, expandable, Reverse(ParentChain(adj, expandable, start, p, rank, end)));
  }

  /** With the frontier empty, every node reachable from `start` has been popped, so `end` is unreachable. */
  lemma Exhausted<N(!new)>(adj: map<N, seq<N>>, expandable: N -> bool, start: N, end: N,
                           popped: set<N>, discovered: set<N>)
    requires start in popped && end !in popped && discovered <= popped
    requires forall x :: x in popped && x in adj && expandable(x) ==> Elems(adj[x]) <= discovered
    ensures end !in ReachSet(Steps(adj, expandable), start, {})
  {
    ReachWithinClosed(Steps(adj, expandable), start, {}, popped);
  }
}
