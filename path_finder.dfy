/**
 * The searches of Assets/Scripts/Pathfinding/PathFinder.cs over the map that
 * PathFinderInit builds: the tile search (FindPath on two tiles) with
 * ReconstructPathPart, the group search (FindGroupPath) with
 * ReconstructGroupPath, and the two strategies AStar and GroupedAStar behind
 * the public FindPath.
 *
 * Cost and Heuristic are both Vector3.Distance; here they are one function
 * `dist` given as a parameter. GetClosestNodeToPosition is a parameter
 * `closest`, and the position GetDoorTileConnectingGroups computes from the
 * door between two rooms is a parameter `doorAt`. The outcome of a search is
 * a list of waypoints, `null`, or an exception.
 */
module PathFinder {
  import opened Collections
  import opened Geometry
  import opened Reach
  import opened BestFirst
  import opened PathFinding
  import opened PathFinderInit

  /** PathFindingType. */
  datatype PathFindingType = UseAStar | UseGroupedAStar

  /** What a search hands back: `null`, a list of waypoints, or a thrown exception. */
  datatype Outcome = Null | Points(points: seq<Vec3>) | Throws

  /**
   * What `Groups[RoomTileMap[(int)(at.z - .5f), (int)(at.x - .5f)]].TryGetTileByPosition(target, out tile)`
   * gives: an index outside the room-index map throws, otherwise the tile is found or not.
   */
  datatype Lookup = OutOfRange | NotFound | Found(tile: Cell)

  /** Every entry of the room-index map names a group. */
  ghost predicate IndexesGroups(groups: seq<GroupData>, rtm: array2<int>)
    reads rtm
  {
    forall z, x :: 0 <= z < rtm.Length0 && 0 <= x < rtm.Length1 ==> 0 <= rtm[z, x] < |groups|
  }

  lemma WellFormedIndexes(groups: seq<GroupData>, tiles: map<Cell, TileData>, rtm: array2<int>)
    requires WellFormed(groups, tiles, rtm)
    ensures IndexesGroups(groups, rtm)
  {
    forall z, x | 0 <= z < rtm.Length0 && 0 <= x < rtm.Length1 ensures 0 <= rtm[z, x] < |groups| {
      assert Cell(z, x) in GridCells(rtm.Length0, rtm.Length1);
    }
  }

  /** The group the room-index map names for the cell that holds `at`, looked up for `target`. */
  function TileLookup(groups: seq<GroupData>, tiles: map<Cell, TileData>, rtm: array2<int>, at: Vec3, target: Vec3): (r: Lookup)
    reads rtm
    requires IndexesGroups(groups, rtm)
    ensures r.OutOfRange? <==> !InGrid(CellAt(at), rtm.Length0, rtm.Length1)
    ensures r.Found? ==> r.tile in tiles && tiles[r.tile].Position == target
                         && r.tile in groups[rtm[CellAt(at).z, CellAt(at).x]].Tiles
    ensures r.NotFound? ==> forall c :: c in groups[rtm[CellAt(at).z, CellAt(at).x]].Tiles && c in tiles ==> tiles[c].Position != target
  {
    var c := CellAt(at);
    if !InGrid(c, rtm.Length0, rtm.Length1) then OutOfRange
    else
      match TryGetTileByPosition(tiles, groups[rtm[c.z, c.x]].Tiles, target)
      case None => NotFound
      case Some(t) => Found(t)
  }

  /** The centre of a cell truncates back to the cell. */
  lemma CellAtCentre(c: Cell)
    ensures CellAt(CellPosition(c, 0.0)) == c
  {
  }

  /** Looking up a tile's own position finds that tile. */
  lemma LookupOwnPosition(groups: seq<GroupData>, tiles: map<Cell, TileData>, rtm: array2<int>, c: Cell)
    requires WellFormed(groups, tiles, rtm) && IndexesGroups(groups, rtm) && c in tiles
    ensures TileLookup(groups, tiles, rtm, tiles[c].Position, tiles[c].Position) == Found(c)
  {
    CellAtCentre(c);
    LookupFindsCell(groups, tiles, rtm, c);
  }

  // ---------------------------------------------------------------- tiles

  /** The tile graph: each tile's ConnectedTiles, in order. */
  function TileAdj(tiles: map<Cell, TileData>): (adj: map<Cell, seq<Cell>>)
    ensures adj.Keys == tiles.Keys
  {
    map c | c in tiles :: tiles[c].ConnectedTiles
  }

  /** Only walkable tiles are expanded. */
  function Walkable(tiles: map<Cell, TileData>): Cell -> bool {
    c => c in tiles && tiles[c].Walkable
  }

  /** The steps of the tile search: from a walkable tile to any tile it lists. */
  ghost function TileSteps(tiles: map<Cell, TileData>): map<Cell, set<Cell>> {
    Steps(TileAdj(tiles), Walkable(tiles))
  }

  lemma TileAdjClosed(groups: seq<GroupData>, tiles: map<Cell, TileData>, rtm: array2<int>)
    requires WellFormed(groups, tiles, rtm)
    ensures ClosedLists(TileAdj(tiles))
  {
    forall k, i | k in TileAdj(tiles) && 0 <= i < |TileAdj(tiles)[k]| ensures TileAdj(tiles)[k][i] in TileAdj(tiles) {
      assert TileAdj(tiles)[k][i] in tiles[k].ConnectedTiles;
    }
  }

  ghost predicate InTiles(tiles: map<Cell, TileData>, s: seq<Cell>) {
    forall i :: 0 <= i < |s| ==> s[i] in tiles
  }

  /** The positions of the tiles of `s`, in order. */
  function Positions(tiles: map<Cell, TileData>, s: seq<Cell>): (r: seq<Vec3>)
    requires forall i :: 0 <= i < |s| ==> s[i] in tiles
    ensures |r| == |s| && forall i :: 0 <= i < |s| ==> r[i] == tiles[s[i]].Position
  {
    seq(|s|, i requires 0 <= i < |s| => tiles[s[i]].Position)
  }

  /** A route the tile search may take from `a` to `b`: every tile but the last is walkable and lists the next. */
  ghost predicate IsRoute(tiles: map<Cell, TileData>, a: Cell, b: Cell, route: seq<Cell>) {
    && |route| > 0 && route[0] == a && route[|route| - 1] == b
    && InTiles(tiles, route) && Walk(TileAdj(tiles), Walkable(tiles), route)
  }

  /**
   * What the tile search promises for the path `seg` from `a` to `b`: it is
   * empty exactly when `b` cannot be reached, and otherwise the positions
   * of a route from `a` to `b`.
   */
  ghost predicate TileSegment(tiles: map<Cell, TileData>, a: Cell, b: Cell, seg: seq<Vec3>) {
    && (|seg| == 0 <==> b !in ReachSet(TileSteps(tiles), a, {}))
    && (|seg| > 0 ==> exists route :: IsRoute(tiles, a, b, route) && InTiles(tiles, route) && seg == Positions(tiles, route))
  }

  /** Every element of `b` is a node, and every element but the last is not `start` and has the next as its parent. */
  ghost predicate ChainShape<N>(adj: map<N, seq<N>>, start: N, p: map<N, N>, b: seq<N>) {
    && (forall i :: 0 <= i < |b| ==> b[i] in adj)
    && (forall i :: 0 <= i < |b| - 1 ==> b[i] != start && b[i] in p && b[i + 1] == p[b[i]])
  }

  /**
   * The parent chain from `n`: only its last node is `start`, each other
   * node has the next as its parent, and all of them are nodes of the graph.
   */
  lemma {:induction false} BackShape<N>(adj: map<N, seq<N>>, expandable: N -> bool, start: N, p: map<N, N>,
                                        rank: map<N, nat>, n: N)
    requires ClosedLists(adj) && start in adj
    requires Tree(adj, expandable, start, p, rank) && (n == start || n in p)
    ensures ChainShape(adj, start, p, ParentChain(adj, expandable, start, p, rank, n))
    decreases if n == start then 0 else rank[n] + 1
  {
    if n != start {
      BackShape(adj, expandable, start, p, rank, p[n]);
      var b := ParentChain(adj, expandable, start, p, rank, n);
      var rest := ParentChain(adj, expandable, start, p, rank, p[n]);
      assert b == [n] + rest;
      var idx :| 0 <= idx < |adj[p[n]]| && adj[p[n]][idx] == n;
      forall i | 0 <= i < |b| ensures b[i] in adj {
        if i > 0 { assert b[i] == rest[i - 1]; }
      }
      forall i | 0 <= i < |b| - 1 ensures b[i] != start && b[i] in p && b[i + 1] == p[b[i]] {
        if i > 0 { assert b[i] == rest[i - 1] && b[i + 1] == rest[i]; } else { assert b[1] == rest[0]; }
      }
    }
  }

  /**
   * The loop of ReconstructPathPart: follow the parents from `end` until
   * `start`, collecting positions, then add `start`'s position. Along a
   * parent chain `b` this collects the positions of `b`.
   */
  method ChainPositions(tiles: map<Cell, TileData>, p: map<Cell, Cell>, start: Cell, end: Cell, ghost b: seq<Cell>)
    returns (path: seq<Vec3>)
    requires |b| > 0 && b[0] == end && b[|b| - 1] == start && InTiles(tiles, b)
    requires forall i :: 0 <= i < |b| - 1 ==> b[i] != start && b[i] in p && b[i + 1] == p[b[i]]
    ensures path == Positions(tiles, b)
  {
    ghost var k := 0;
    var current := end;
    path := [];
    while current != start
      invariant 0 <= k < |b| && current == b[k]
      invariant path == Positions(tiles, b[..k])
      decreases |b| - k
    {
      assert b[..k + 1] == b[..k] + [current];
      path := path + [tiles[current].Position];
      current := p[current];
      k := k + 1;
    }
    assert b == b[..k] + [start];
    path := path + [tiles[start].Position];
  }

  /**
   * ReconstructPathPart: the positions of the parent chain from `end`,
   * read from `start`.
   */
  method ReconstructPathPart(tiles: map<Cell, TileData>, p: map<Cell, Cell>, ghost rank: map<Cell, nat>, start: Cell, end: Cell)
    returns (path: seq<Vec3>)
    requires ClosedLists(TileAdj(tiles)) && start in tiles
    requires Tree(TileAdj(tiles), Walkable(tiles), start, p, rank) && (end == start || end in p)
    ensures var b := ParentChain(TileAdj(tiles), Walkable(tiles), start, p, rank, end);
      InTiles(tiles, b) && path == Positions(tiles, Reverse(b))
  {
    ghost var b := ParentChain(TileAdj(tiles), Walkable(tiles), start, p, rank, end);
    BackShape(TileAdj(tiles), Walkable(tiles), start, p, rank, end);
    assert InTiles(tiles, b);
    var forward := ChainPositions(tiles, p, start, end, b);
    PositionsReverse(tiles, b);
    path := Reverse(forward);
  }

  /** Reading a chain backwards reads its positions backwards. */
  lemma PositionsReverse(tiles: map<Cell, TileData>, s: seq<Cell>)
    requires InTiles(tiles, s)
    ensures InTiles(tiles, Reverse(s)) && Reverse(Positions(tiles, s)) == Positions(tiles, Reverse(s))
  {
    var r := Reverse(s);
    assert forall i :: 0 <= i < |r| ==> r[i] == s[|s| - 1 - i];
  }

  /**
   * The tile search FindPath(start, end): the best-first search over the
   * tiles, then ReconstructPathPart, or an empty list when the frontier
   * runs out. Only walkable tiles are expanded. The search pops at most one
   * entry more than there are tiles.
   */
  method FindTilePath(m: PathFindingMap, dist: (Vec3, Vec3) -> real, start: Cell, end: Cell)
    returns (path: seq<Vec3>, ghost route: seq<Cell>, ghost pops: nat)
    requires ClosedLists(TileAdj(m.Tiles)) && start in m.Tiles && end in m.Tiles
    ensures |path| == 0 <==> end !in ReachSet(TileSteps(m.Tiles), start, {})
    ensures |path| > 0 ==> IsRoute(m.Tiles, start, end, route) && path == Positions(m.Tiles, route)
    ensures start == end ==> path == [m.Tiles[start].Position]
    ensures pops <= |m.Tiles| + 1
  {
    var tiles := m.Tiles;
    var cost := (a: Cell, b: Cell) => if a in tiles && b in tiles then dist(tiles[a].Position, tiles[b].Position) else 0.0;
    var goal := tiles[end].Position;
    var h := (a: Cell) => if a in tiles then dist(tiles[a].Position, goal) else 0.0;
    var found, p;
    ghost var rank;
    found, p, rank, pops := Explore(TileAdj(tiles), Walkable(tiles), cost, h, start, end);
    assert |TileAdj(tiles).Keys| == |tiles|;
    if found {
      path := ReconstructPathPart(tiles, p, rank, start, end);
      route := Reverse(ParentChain(TileAdj(tiles), Walkable(tiles), start, p, rank, end));
      BackIsWalk(TileAdj(tiles), Walkable(tiles), start, p, rank, end);
    } else {
      path := [];
      route := [];
      if start == end {
        ReachStart(TileSteps(tiles), start, {});
      }
    }
  }

  // --------------------------------------------------------------- groups

  /** The group graph: each group's ConnectedGroups, by group index. */
  function GroupAdj(groups: seq<GroupData>): (adj: map<nat, seq<nat>>)
    ensures forall g: nat :: g in adj <==> g < |groups|
  {
    map g: nat | g < |groups| :: groups[g].ConnectedGroups
  }

  /** The group search expands every group. */
  function AnyGroup(): nat -> bool {
    g => true
  }

  ghost function GroupSteps(groups: seq<GroupData>): map<nat, set<nat>> {
    Steps(GroupAdj(groups), AnyGroup())
  }

  lemma GroupAdjClosed(groups: seq<GroupData>, tiles: map<Cell, TileData>, rtm: array2<int>)
    requires WellFormed(groups, tiles, rtm)
    ensures ClosedLists(GroupAdj(groups))
  {
  }

  /** The group of a tile, as FindGroupPath reads it from the tile's position. */
  function GroupOf(groups: seq<GroupData>, tiles: map<Cell, TileData>, rtm: array2<int>, t: Cell): (g: nat)
    reads rtm
    requires WellFormed(groups, tiles, rtm) && t in tiles
    ensures g < |groups| && t in groups[g].Tiles
  {
    CellAtCentre(t);
    var c := CellAt(tiles[t].Position);
    rtm[c.z, c.x]
  }

  /**
   * The tiles GetDoorTileConnectingGroups looks up along the parent chain
   * `b` of groups: for each group and its parent, the tile at the position
   * of the door from the parent to the group.
   */
  ghost function DoorLookups(groups: seq<GroupData>, tiles: map<Cell, TileData>, rtm: array2<int>,
                             doorAt: (nat, nat) -> Vec3, b: seq<nat>): (r: seq<Lookup>)
    reads rtm
    requires IndexesGroups(groups, rtm) && |b| > 0
    ensures |r| == |b| - 1
    ensures forall i :: 0 <= i < |b| - 1 ==> r[i] == TileLookup(groups, tiles, rtm, doorAt(b[i + 1], b[i]), doorAt(b[i + 1], b[i]))
  {
    if |b| == 1 then []
    else
      var rest := DoorLookups(groups, tiles, rtm, doorAt, b[1..]);
      assert forall i :: 1 <= i < |b| ==> b[i] == b[1..][i - 1];
      [TileLookup(groups, tiles, rtm, doorAt(b[1], b[0]), doorAt(b[1], b[0]))] + rest
  }

  ghost predicate AllFound(ls: seq<Lookup>) {
    forall i :: 0 <= i < |ls| ==> ls[i].Found?
  }

  /** The tiles of lookups that all succeeded. */
  ghost function FoundTiles(ls: seq<Lookup>): (r: seq<Cell>)
    requires AllFound(ls)
    ensures |r| == |ls| && forall i :: 0 <= i < |ls| ==> r[i] == ls[i].tile
  {
    seq(|ls|, i requires 0 <= i < |ls| => ls[i].tile)
  }

  /** The last index at which `x` occurs in `c`. */
  function LastIdx<T(==)>(c: seq<T>, x: T): (r: nat)
    requires x in c
    ensures r < |c| && c[r] == x && forall i :: r < i < |c| ==> c[i] != x
  {
    if c[|c| - 1] == x then |c| - 1
    else
      assert x in c[..|c| - 1] by {
        var k :| 0 <= k < |c| && c[k] == x;
        assert c[..|c| - 1][k] == x;
      }
      LastIdx(c[..|c| - 1], x)
  }

  /**
   * The dictionary the first loop of ReconstructGroupPath fills: each
   * element of `c` but the last is mapped to its successor, later entries
   * overwriting earlier ones.
   */
  function ParentLinks<T(==)>(c: seq<T>): map<T, T>
  {
    if |c| < 2 then map[] else ParentLinks(c[..|c| - 1])[c[|c| - 2] := c[|c| - 1]]
  }

  /** An element other than the last is mapped to the successor of its last occurrence. */
  lemma {:induction false} ParentLinksAt<T>(c: seq<T>, x: T)
    requires x in c && x != c[|c| - 1]
    ensures LastIdx(c, x) < |c| - 1 && x in ParentLinks(c) && ParentLinks(c)[x] == c[LastIdx(c, x) + 1]
  {
    var c0 := c[..|c| - 1];
    assert x in c0 by {
      var k :| 0 <= k < |c| && c[k] == x;
      assert c0[k] == x;
    }
    if c0[|c0| - 1] != x {
      ParentLinksAt(c0, x);
    }
  }

  /** `b` comes right after `a` somewhere in `c`. */
  ghost predicate Follows<T>(c: seq<T>, a: T, b: T) {
    exists i :: 0 <= i < |c| - 1 && c[i] == a && c[i + 1] == b
  }

  /**
   * The walk the second loop of ReconstructGroupPath takes through the
   * dictionary, from index `j` of the chain `c` until `start`: from each
   * tile it jumps to the successor of the tile's last occurrence.
   */
  ghost function EraseFrom<T>(c: seq<T>, start: T, j: nat): seq<T>
    requires j < |c| && c[|c| - 1] == start
    decreases |c| - j
  {
    if c[j] == start then [start]
    else
      assert c[j] in c;
      [c[j]] + EraseFrom(c, start, LastIdx(c, c[j]) + 1)
  }

  /**
   * The walk starts at `c[j]`, ends at `start`, never repeats a tile, only
   * visits tiles of `c` from index `j` on, and each of its steps is a step
   * of `c`.
   */
  lemma {:induction false} EraseFromShape<T>(c: seq<T>, start: T, j: nat)
    requires j < |c| && c[|c| - 1] == start
    ensures var e := EraseFrom(c, start, j);
      && |e| > 0 && e[0] == c[j] && e[|e| - 1] == start && Distinct(e)
      && Elems(e) <= Elems(c[j..])
      && forall k :: 0 <= k < |e| - 1 ==> Follows(c, e[k], e[k + 1])
    decreases |c| - j
  {
    var e := EraseFrom(c, start, j);
    if c[j] != start {
      assert c[j] in c;
      var l := LastIdx(c, c[j]);
      var rest := EraseFrom(c, start, l + 1);
      EraseFromShape(c, start, l + 1);
      assert e == [c[j]] + rest;
      assert c[j] !in Elems(c[l + 1..]);
      forall x | x in Elems(e) ensures x in Elems(c[j..]) {
        if x != c[j] {
          assert x in Elems(c[l + 1..]);
          var i :| 0 <= i < |c[l + 1..]| && c[l + 1..][i] == x;
          assert c[j..][i + l + 1 - j] == x;
        } else {
          assert c[j..][0] == x;
        }
      }
      forall a, b | 0 <= a < b < |e| ensures e[a] != e[b] {
        if a == 0 {
          assert e[b] == rest[b - 1] && rest[b - 1] in Elems(rest);
        } else {
          assert e[a] == rest[a - 1] && e[b] == rest[b - 1];
        }
      }
      forall k | 0 <= k < |e| - 1 ensures Follows(c, e[k], e[k + 1]) {
        if k == 0 {
          assert c[l] == e[0] && c[l + 1] == e[1];
        } else {
          assert e[k] == rest[k - 1] && e[k + 1] == rest[k];
        }
      }
    }
  }

  /** Reading a walk back to front keeps it free of repeats. */
  lemma ReverseDistinct<T>(s: seq<T>)
    requires Distinct(s)
    ensures Distinct(Reverse(s)) && Elems(Reverse(s)) == Elems(s)
  {
    var r := Reverse(s);
    forall x | x in Elems(s) ensures x in Elems(r) {
      var i :| 0 <= i < |s| && s[i] == x;
      assert r[|s| - 1 - i] == x;
    }
  }

  /**
   * The tile path ReconstructGroupPath returns for the chain `c`: it starts
   * at `start`, ends at `c[0]`, never repeats a tile, holds only tiles of
   * `c`, and each of its steps is a step of `c` taken backwards.
   */
  lemma GroupPathShape<T>(c: seq<T>, start: T)
    requires |c| > 0 && c[|c| - 1] == start
    ensures var path := Reverse(EraseFrom(c, start, 0));
      && |path| > 0 && path[0] == start && path[|path| - 1] == c[0] && Distinct(path)
      && Elems(path) <= Elems(c)
      && forall k :: 0 <= k < |path| - 1 ==> Follows(c, path[k + 1], path[k])
  {
    var e := EraseFrom(c, start, 0);
    EraseFromShape(c, start, 0);
    ReverseDistinct(e);
    assert c[0..] == c;
    var path := Reverse(e);
    forall k | 0 <= k < |path| - 1 ensures Follows(c, path[k + 1], path[k]) {
      var i := |e| - 2 - k;
      assert path[k + 1] == e[i] && path[k] == e[i + 1];
    }
  }

  /**
   * The first loop of ReconstructGroupPath: it follows the parents from
   * `endGroup` to `startGroup` and maps each tile, starting from `end`, to
   * the door tile towards the parent; the last door tile is mapped to
   * `start`. A door tile that cannot be found ends in an exception (the
   * dictionary rejects the null key), as does a door position outside the
   * room-index map: both give None. Otherwise the dictionary holds the
   * links of the chain `end`, door tiles, `start`.
   */
  method LinkDoorTiles(m: PathFindingMap, rtm: array2<int>, doorAt: (nat, nat) -> Vec3, p: map<nat, nat>,
                       start: Cell, end: Cell, startGroup: nat, endGroup: nat, ghost b: seq<nat>)
    returns (links: Option<map<Cell, Cell>>)
    requires IndexesGroups(m.Groups, rtm)
    requires |b| > 0 && b[0] == endGroup && b[|b| - 1] == startGroup
    requires forall i :: 0 <= i < |b| - 1 ==> b[i] != startGroup && b[i] in p && b[i + 1] == p[b[i]]
    ensures var ls := DoorLookups(m.Groups, m.Tiles, rtm, doorAt, b);
      && (links.Some? <==> AllFound(ls))
      && (links.Some? ==> links.value == ParentLinks([end] + FoundTiles(ls) + [start]))
  {
    ghost var ls := DoorLookups(m.Groups, m.Tiles, rtm, doorAt, b);
    var tileParentMap: map<Cell, Cell> := map[];
    var lastTile := end;
    var lastGroup := endGroup;
    ghost var k := 0;
    ghost var c := [end];
    while lastGroup != startGroup
      invariant 0 <= k < |b| && lastGroup == b[k] && AllFound(ls[..k])
      invariant c == [end] + FoundTiles(ls[..k]) && lastTile == c[|c| - 1] && tileParentMap == ParentLinks(c)
      decreases |b| - k
    {
      assert k < |b| - 1;
      var group := p[lastGroup];
      assert group == b[k + 1];
      var target := doorAt(group, lastGroup);
      var tile := TileLookup(m.Groups, m.Tiles, rtm, target, target);
      assert tile == ls[k];
      if !tile.Found? {
        return None;
      }
      assert (c + [tile.tile])[..|c|] == c;
      tileParentMap := tileParentMap[lastTile := tile.tile];
      assert AllFound(ls[..k + 1]) && FoundTiles(ls[..k + 1]) == FoundTiles(ls[..k]) + [tile.tile] by {
        assert ls[..k + 1] == ls[..k] + [ls[k]];
      }
      c := c + [tile.tile];
      lastGroup := group;
      lastTile := tile.tile;
      k := k + 1;
    }
    assert ls[..k] == ls;
    assert (c + [start])[..|c|] == c;
    tileParentMap := tileParentMap[lastTile := start];
    links := Some(tileParentMap);
  }

  /**
   * The second loop of ReconstructGroupPath: it follows the dictionary of
   * the chain `c` from `c[0]` until `start` and returns the tiles it
   * visited, reversed.
   */
  method WalkTileParents(tileParentMap: map<Cell, Cell>, ghost c: seq<Cell>, start: Cell, end: Cell)
    returns (path: seq<Cell>)
    requires |c| > 0 && c[0] == end && c[|c| - 1] == start && tileParentMap == ParentLinks(c)
    ensures path == Reverse(EraseFrom(c, start, 0))
  {
    var current := end;
    var walk: seq<Cell> := [];
    ghost var j := 0;
    while current != start
      invariant 0 <= j < |c| && current == c[j]
      invariant walk + EraseFrom(c, start, j) == EraseFrom(c, start, 0)
      decreases |c| - j
    {
      assert current in c;
      ParentLinksAt(c, current);
      walk := walk + [current];
      current := tileParentMap[current];
      j := LastIdx(c, c[j]) + 1;
    }
    walk := walk + [start];
    path := Reverse(walk);
  }

  /**
   * ReconstructGroupPath: the path through the door tiles along the group
   * parent chain. It exists exactly when every door tile is found, and it
   * is the dictionary walk of the chain `end`, door tiles, `start`, reversed.
   */
  method ReconstructGroupPath(m: PathFindingMap, rtm: array2<int>, doorAt: (nat, nat) -> Vec3,
                              p: map<nat, nat>, ghost rank: map<nat, nat>,
                              start: Cell, end: Cell, startGroup: nat, endGroup: nat)
    returns (path: Option<seq<Cell>>)
    requires IndexesGroups(m.Groups, rtm) && ClosedLists(GroupAdj(m.Groups)) && startGroup < |m.Groups|
    requires Tree(GroupAdj(m.Groups), AnyGroup(), startGroup, p, rank) && (endGroup == startGroup || endGroup in p)
    ensures var ls := DoorLookups(m.Groups, m.Tiles, rtm, doorAt, ParentChain(GroupAdj(m.Groups), AnyGroup(), startGroup, p, rank, endGroup));
      && (path.Some? <==> AllFound(ls))
      && (path.Some? ==> path.value == Reverse(EraseFrom([end] + FoundTiles(ls) + [start], start, 0)))
  {
    ghost var b := ParentChain(GroupAdj(m.Groups), AnyGroup(), startGroup, p, rank, endGroup);
    ghost var ls := DoorLookups(m.Groups, m.Tiles, rtm, doorAt, b);
    BackShape(GroupAdj(m.Groups), AnyGroup(), startGroup, p, rank, endGroup);
    var links := LinkDoorTiles(m, rtm, doorAt, p, start, end, startGroup, endGroup, b);
    if links.None? {
      return None;
    }
    ghost var c := [end] + FoundTiles(ls) + [start];
    assert c[0] == end;
    var walk := WalkTileParents(links.value, c, start, end);
    path := Some(walk);
  }

  /**
   * A group chain of the group search: `back` runs from `eg` back to `sg`,
   * and read forwards it is a walk along ConnectedGroups.
   */
  ghost predicate GroupChain(groups: seq<GroupData>, sg: nat, eg: nat, back: seq<nat>) {
    && |back| > 0 && back[0] == eg && back[|back| - 1] == sg
    && Walk(GroupAdj(groups), AnyGroup(), Reverse(back))
  }

  /**
   * FindGroupPath(start, end): the best-first search over the groups from
   * the start tile's group, with the distance between group positions as
   * cost and the distance to the end tile as heuristic, then
   * ReconstructGroupPath. It returns an empty list exactly when the end
   * tile's group cannot be reached. Otherwise `back` is the group chain it
   * found; the door tiles along it are all found exactly when no exception
   * is thrown (None), and then the path runs from `start` to `end` through
   * distinct tiles of the map.
   */
  method FindGroupPath(m: PathFindingMap, rtm: array2<int>, dist: (Vec3, Vec3) -> real, doorAt: (nat, nat) -> Vec3,
                       start: Cell, end: Cell)
    returns (path: Option<seq<Cell>>, ghost back: seq<nat>)
    requires WellFormed(m.Groups, m.Tiles, rtm) && IndexesGroups(m.Groups, rtm) && start in m.Tiles && end in m.Tiles
    ensures var sg, eg := GroupOf(m.Groups, m.Tiles, rtm, start), GroupOf(m.Groups, m.Tiles, rtm, end);
      && (path == Some([]) <==> eg !in ReachSet(GroupSteps(m.Groups), sg, {}))
      && (path != Some([]) ==> GroupChain(m.Groups, sg, eg, back))
      && (path != Some([]) ==>
            var ls := DoorLookups(m.Groups, m.Tiles, rtm, doorAt, back);
            && (path.Some? <==> AllFound(ls))
            && (path.Some? ==> path.value == Reverse(EraseFrom([end] + FoundTiles(ls) + [start], start, 0))))
    ensures path.Some? && path != Some([]) ==> RunsFromTo(m.Tiles, start, end, path.value)
    ensures start == end ==> path == Some([start])
  {
    var groups := m.Groups;
    var sg := GroupOf(groups, m.Tiles, rtm, start);
    var eg := GroupOf(groups, m.Tiles, rtm, end);
    GroupAdjClosed(groups, m.Tiles, rtm);
    var cost := (a: nat, b: nat) => if a < |groups| && b < |groups| then dist(groups[a].Position, groups[b].Position) else 0.0;
    var goal := m.Tiles[end].Position;
    var h := (g: nat) => if g < |groups| then dist(groups[g].Position, goal) else 0.0;
    var found, p;
    ghost var rank, pops;
    found, p, rank, pops := Explore(GroupAdj(groups), AnyGroup(), cost, h, sg, eg);
    if !found {
      if start == end {
        ReachStart(GroupSteps(groups), sg, {});
      }
      path := Some([]);
      back := [];
      return;
    }
    back := ParentChain(GroupAdj(groups), AnyGroup(), sg, p, rank, eg);
    BackIsWalk(GroupAdj(groups), AnyGroup(), sg, p, rank, eg);
    path := ReconstructGroupPath(m, rtm, doorAt, p, rank, start, end, sg, eg);
    if path.Some? {
      GroupWaypoints(groups, m.Tiles, rtm, doorAt, back, start, end);
    }
  }

  /** `w` runs from `start` to `end` through distinct tiles of the map. */
  ghost predicate RunsFromTo(tiles: map<Cell, TileData>, start: Cell, end: Cell, w: seq<Cell>) {
    |w| > 0 && w[0] == start && w[|w| - 1] == end && Distinct(w) && InTiles(tiles, w)
  }

  /**
   * The waypoints ReconstructGroupPath returns along the group chain `b`
   * when every door tile is found run from `start` to `end` without
   * repeats and through tiles of the map; with a chain of one group and
   * `start == end` they are just `start`.
   */
  lemma GroupWaypoints(groups: seq<GroupData>, tiles: map<Cell, TileData>, rtm: array2<int>,
                       doorAt: (nat, nat) -> Vec3, b: seq<nat>, start: Cell, end: Cell)
    requires IndexesGroups(groups, rtm) && |b| > 0 && start in tiles && end in tiles
    requires AllFound(DoorLookups(groups, tiles, rtm, doorAt, b))
    ensures var w := Reverse(EraseFrom([end] + FoundTiles(DoorLookups(groups, tiles, rtm, doorAt, b)) + [start], start, 0));
      RunsFromTo(tiles, start, end, w) && (|b| == 1 && start == end ==> w == [start])
  {
    var ls := DoorLookups(groups, tiles, rtm, doorAt, b);
    forall i | 0 <= i < |ls| ensures FoundTiles(ls)[i] in tiles {
      assert ls[i] == TileLookup(groups, tiles, rtm, doorAt(b[i + 1], b[i]), doorAt(b[i + 1], b[i]));
    }
    var found := FoundTiles(ls);
    var c := [end] + found + [start];
    GroupPathShape(c, start);
    var w := Reverse(EraseFrom(c, start, 0));
    forall i | 0 <= i < |w| ensures w[i] in tiles {
      assert w[i] in Elems(c);
      var k :| 0 <= k < |c| && c[k] == w[i];
      if 0 < k < |c| - 1 {
        assert c[k] == found[k - 1];
      }
    }
  }

  /** The waypoint segments joined end to end (List.AddRange in turn). */
  function Flatten(segs: seq<seq<Vec3>>): (r: seq<Vec3>)
    ensures |segs| == 0 ==> r == []
  {
    if |segs| == 0 then [] else Flatten(segs[..|segs| - 1]) + segs[|segs| - 1]
  }

  /** The outcome of looking up the tile nearest to `at` in the group the room-index map names for `at`. */
  function EndpointLookup(groups: seq<GroupData>, tiles: map<Cell, TileData>, rtm: array2<int>,
                          closest: Vec3 -> Vec3, at: Vec3): (r: Lookup)
    reads rtm
    requires IndexesGroups(groups, rtm)
  {
    TileLookup(groups, tiles, rtm, at, closest(at))
  }

  /**
   * What both strategies do with the two end points: an index outside the
   * room-index map throws, a nearest tile that is not in the point's group
   * gives null.
   */
  ghost predicate EndpointOutcome(sl: Lookup, el: Lookup, r: Outcome) {
    && (sl.OutOfRange? ==> r == Throws)
    && (sl.NotFound? ==> r == Null)
    && (sl.Found? && el.OutOfRange? ==> r == Throws)
    && (sl.Found? && el.NotFound? ==> r == Null)
  }

  /**
   * What AStar promises: the end-point outcomes, and for two found tiles
   * the tile search's path between them (empty when there is none, never
   * null), which is the tile's own position when both are the same tile.
   */
  ghost predicate AStarOutcome(groups: seq<GroupData>, tiles: map<Cell, TileData>, rtm: array2<int>,
                               closest: Vec3 -> Vec3, start: Vec3, end: Vec3, r: Outcome)
    reads rtm
    requires IndexesGroups(groups, rtm)
  {
    var sl, el := EndpointLookup(groups, tiles, rtm, closest, start), EndpointLookup(groups, tiles, rtm, closest, end);
    && EndpointOutcome(sl, el, r)
    && (sl.Found? && el.Found? ==> r.Points? && TileSegment(tiles, sl.tile, el.tile, r.points))
    && (sl.Found? && el.Found? && sl.tile == el.tile ==> r == Points([tiles[sl.tile].Position]))
  }

  /**
   * What GroupedAStar promises once both end tiles `st` and `et` are
   * found: an exception exactly when the end group cannot be reached or a
   * door tile along the group chain `back` is missing; otherwise the
   * concatenation of one tile-search segment per pair of consecutive
   * waypoints, which run from `st` to `et` without repeats. The same tile
   * twice gives the empty list.
   */
  ghost predicate GroupedTileOutcome(groups: seq<GroupData>, tiles: map<Cell, TileData>, rtm: array2<int>,
                                     doorAt: (nat, nat) -> Vec3, st: Cell, et: Cell,
                                     r: Outcome, back: seq<nat>, waypoints: seq<Cell>, segments: seq<seq<Vec3>>)
    reads rtm
    requires WellFormed(groups, tiles, rtm) && IndexesGroups(groups, rtm) && st in tiles && et in tiles
  {
    var sg, eg := GroupOf(groups, tiles, rtm, st), GroupOf(groups, tiles, rtm, et);
    && (eg in ReachSet(GroupSteps(groups), sg, {}) ==> GroupChain(groups, sg, eg, back))
    && (r.Throws? <==> eg !in ReachSet(GroupSteps(groups), sg, {}) || !AllFound(DoorLookups(groups, tiles, rtm, doorAt, back)))
    && (r.Throws? || r.Points?)
    && (st == et ==> r == Points([]))
    && (r.Points? ==>
          && RunsFromTo(tiles, st, et, waypoints)
          && |segments| == |waypoints| - 1 && Segmented(tiles, waypoints, segments)
          && r.points == Flatten(segments))
  }

  /** What GroupedAStar promises: the end-point outcomes, then GroupedTileOutcome for the two tiles. */
  ghost predicate GroupedOutcome(groups: seq<GroupData>, tiles: map<Cell, TileData>, rtm: array2<int>,
                                 closest: Vec3 -> Vec3, doorAt: (nat, nat) -> Vec3, start: Vec3, end: Vec3,
                                 r: Outcome, back: seq<nat>, waypoints: seq<Cell>, segments: seq<seq<Vec3>>)
    reads rtm
    requires WellFormed(groups, tiles, rtm) && IndexesGroups(groups, rtm)
  {
    var sl, el := EndpointLookup(groups, tiles, rtm, closest, start), EndpointLookup(groups, tiles, rtm, closest, end);
    && EndpointOutcome(sl, el, r)
    && (sl.Found? && el.Found? ==> GroupedTileOutcome(groups, tiles, rtm, doorAt, sl.tile, el.tile, r, back, waypoints, segments))
  }

  /** Each segment is the tile search's path between two consecutive waypoints. */
  ghost predicate Segmented(tiles: map<Cell, TileData>, waypoints: seq<Cell>, segments: seq<seq<Vec3>>) {
    && |segments| < |waypoints|
    && forall i :: 0 <= i < |segments| ==> TileSegment(tiles, waypoints[i], waypoints[i + 1], segments[i])
  }

  lemma SegmentedSnoc(tiles: map<Cell, TileData>, waypoints: seq<Cell>, segments: seq<seq<Vec3>>, seg: seq<Vec3>)
    requires Segmented(tiles, waypoints, segments) && |segments| + 1 < |waypoints|
    requires TileSegment(tiles, waypoints[|segments|], waypoints[|segments| + 1], seg)
    ensures Segmented(tiles, waypoints, segments + [seg])
    ensures Flatten(segments + [seg]) == Flatten(segments) + seg
  {
    var all := segments + [seg];
    forall i | 0 <= i < |all| ensures TileSegment(tiles, waypoints[i], waypoints[i + 1], all[i]) {
      if i < |segments| {
        assert all[i] == segments[i];
      } else {
        assert all[i] == seg;
      }
    }
    assert all[..|segments|] == segments;
  }

  /**
   * The loop of GroupedAStar: from the first waypoint, run the tile search
   * to each next waypoint and append its result.
   */
  method JoinSegments(m: PathFindingMap, dist: (Vec3, Vec3) -> real, groupPath: seq<Cell>)
    returns (points: seq<Vec3>, ghost segments: seq<seq<Vec3>>)
    requires ClosedLists(TileAdj(m.Tiles)) && |groupPath| > 0
    requires forall i :: 0 <= i < |groupPath| ==> groupPath[i] in m.Tiles
    ensures |segments| == |groupPath| - 1 && points == Flatten(segments)
    ensures Segmented(m.Tiles, groupPath, segments)
  {
    points, segments := [], [];
    var lastTile := groupPath[0];
    for index := 1 to |groupPath|
      invariant lastTile == groupPath[index - 1]
      invariant |segments| == index - 1 && points == Flatten(segments)
      invariant Segmented(m.Tiles, groupPath, segments)
    {
      var point := groupPath[index];
      var seg;
      ghost var route, pops;
      seg, route, pops := FindTilePath(m, dist, lastTile, point);
      assert TileSegment(m.Tiles, lastTile, point, seg);
      SegmentedSnoc(m.Tiles, groupPath, segments, seg);
      points := points + seg;
      segments := segments + [seg];
      lastTile := point;
    }
  }

  /**
   * AStar(start, end): look up the start and end tiles, then run the tile
   * search between them.
   */
  method AStar(m: PathFindingMap, rtm: array2<int>, dist: (Vec3, Vec3) -> real, closest: Vec3 -> Vec3,
               start: Vec3, end: Vec3)
    returns (r: Outcome)
    requires WellFormed(m.Groups, m.Tiles, rtm) && IndexesGroups(m.Groups, rtm)
    ensures AStarOutcome(m.Groups, m.Tiles, rtm, closest, start, end, r)
  {
    var sl := EndpointLookup(m.Groups, m.Tiles, rtm, closest, start);
    if sl.OutOfRange? {
      return Throws;
    } else if sl.NotFound? {
      return Null;
    }
    var el := EndpointLookup(m.Groups, m.Tiles, rtm, closest, end);
    if el.OutOfRange? {
      return Throws;
    } else if el.NotFound? {
      return Null;
    }
    var path;
    ghost var route, pops;
    TileAdjClosed(m.Groups, m.Tiles, rtm);
    path, route, pops := FindTilePath(m, dist, sl.tile, el.tile);
    r := Points(path);
  }

  /**
   * GroupedAStar(start, end): look up the start and end tiles as AStar
   * does, then GroupedBetween.
   */
  method GroupedAStar(m: PathFindingMap, rtm: array2<int>, dist: (Vec3, Vec3) -> real, closest: Vec3 -> Vec3,
                      doorAt: (nat, nat) -> Vec3, start: Vec3, end: Vec3)
    returns (r: Outcome, ghost back: seq<nat>, ghost waypoints: seq<Cell>, ghost segments: seq<seq<Vec3>>)
    requires WellFormed(m.Groups, m.Tiles, rtm) && IndexesGroups(m.Groups, rtm)
    ensures GroupedOutcome(m.Groups, m.Tiles, rtm, closest, doorAt, start, end, r, back, waypoints, segments)
  {
    back, waypoints, segments := [], [], [];
    var sl := EndpointLookup(m.Groups, m.Tiles, rtm, closest, start);
    if sl.OutOfRange? {
      return Throws, back, waypoints, segments;
    } else if sl.NotFound? {
      return Null, back, waypoints, segments;
    }
    var el := EndpointLookup(m.Groups, m.Tiles, rtm, closest, end);
    if el.OutOfRange? {
      return Throws, back, waypoints, segments;
    } else if el.NotFound? {
      return Null, back, waypoints, segments;
    }
    r, back, waypoints, segments := GroupedBetween(m, rtm, dist, doorAt, sl.tile, el.tile);
  }

  /**
   * GroupedAStar from its two end tiles on: find the group path between
   * them and join the tile-search segments between its consecutive
   * waypoints. An empty group path is indexed at 0 all the same, which
   * throws.
   */
  method GroupedBetween(m: PathFindingMap, rtm: array2<int>, dist: (Vec3, Vec3) -> real,
                        doorAt: (nat, nat) -> Vec3, st: Cell, et: Cell)
    returns (r: Outcome, ghost back: seq<nat>, ghost waypoints: seq<Cell>, ghost segments: seq<seq<Vec3>>)
    requires WellFormed(m.Groups, m.Tiles, rtm) && IndexesGroups(m.Groups, rtm) && st in m.Tiles && et in m.Tiles
    ensures GroupedTileOutcome(m.Groups, m.Tiles, rtm, doorAt, st, et, r, back, waypoints, segments)
  {
    waypoints, segments := [], [];
    var groupPath;
    groupPath, back := FindGroupPath(m, rtm, dist, doorAt, st, et);
    if groupPath.None? || |groupPath.value| == 0 {
      return Throws, back, waypoints, segments;
    }
    TileAdjClosed(m.Groups, m.Tiles, rtm);
    var points;
    points, segments := JoinSegments(m, dist, groupPath.value);
    waypoints := groupPath.value;
    r := Points(points);
  }

  /**
   * The public FindPath(start, end, pathFindingType): AStar or GroupedAStar.
   * The source's default branch throws, but no other strategy exists.
   */
  method FindPath(m: PathFindingMap, rtm: array2<int>, dist: (Vec3, Vec3) -> real, closest: Vec3 -> Vec3,
                  doorAt: (nat, nat) -> Vec3, start: Vec3, end: Vec3, kind: PathFindingType)
    returns (r: Outcome, ghost back: seq<nat>, ghost waypoints: seq<Cell>, ghost segments: seq<seq<Vec3>>)
    requires WellFormed(m.Groups, m.Tiles, rtm) && IndexesGroups(m.Groups, rtm)
    ensures kind == UseAStar ==> AStarOutcome(m.Groups, m.Tiles, rtm, closest, start, end, r)
    ensures kind == UseGroupedAStar ==> GroupedOutcome(m.Groups, m.Tiles, rtm, closest, doorAt, start, end, r, back, waypoints, segments)
  {
    back, waypoints, segments := [], [], [];
    match kind
    case UseAStar =>
      r := AStar(m, rtm, dist, closest, start, end);
    case UseGroupedAStar =>
      r, back, waypoints, segments := GroupedAStar(m, rtm, dist, closest, doorAt, start, end);
  }

  /** A non-empty segment runs from the position of its first tile to the position of its last. */
  lemma SegmentEnds(tiles: map<Cell, TileData>, a: Cell, b: Cell, seg: seq<Vec3>)
    requires TileSegment(tiles, a, b, seg) && |seg| > 0
    ensures seg[0] == tiles[a].Position && seg[|seg| - 1] == tiles[b].Position
  {
    var route :| IsRoute(tiles, a, b, route) && InTiles(tiles, route) && seg == Positions(tiles, route);
  }

  lemma {:induction false} FlattenAppend(a: seq<seq<Vec3>>, b: seq<seq<Vec3>>)
    ensures Flatten(a + b) == Flatten(a) + Flatten(b)
    decreases |b|
  {
    if |b| > 0 {
      var b' := b[..|b| - 1];
      FlattenAppend(a, b');
      assert (a + b)[..|a + b| - 1] == a + b';
      assert b[..|b| - 1] == b';
    } else {
      assert a + b == a;
    }
  }

  /**
   * GroupedAStar repeats every inner waypoint: two consecutive non-empty
   * segments meet at the position of their shared waypoint, which the
   * joined list then holds twice in a row.
   */
  lemma JoinRepeatsWaypoint(tiles: map<Cell, TileData>, waypoints: seq<Cell>, segments: seq<seq<Vec3>>, i: nat)
    requires Segmented(tiles, waypoints, segments) && i + 1 < |segments|
    requires |segments[i]| > 0 && |segments[i + 1]| > 0
    ensures var k := |Flatten(segments[..i + 1])|;
      && 0 < k < |Flatten(segments)|
      && Flatten(segments)[k - 1] == tiles[waypoints[i + 1]].Position
      && Flatten(segments)[k] == tiles[waypoints[i + 1]].Position
  {
    var pre, post := segments[..i + 1], segments[i + 1..];
    assert segments == pre + post;
    FlattenAppend(pre, post);
    assert pre[..i] + [segments[i]] == pre;
    FlattenAppend(pre[..i], [segments[i]]);
    assert [segments[i + 1]] + post[1..] == post;
    FlattenAppend([segments[i + 1]], post[1..]);
    assert Flatten([segments[i + 1]]) == segments[i + 1] by {
      assert [segments[i + 1]][..0] == [];
    }
    assert Flatten([segments[i]]) == segments[i] by {
      assert [segments[i]][..0] == [];
    }
    SegmentEnds(tiles, waypoints[i], waypoints[i + 1], segments[i]);
    SegmentEnds(tiles, waypoints[i + 1], waypoints[i + 2], segments[i + 1]);
  }
}
