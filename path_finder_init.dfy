/**
 * The initialization region of Assets/Scripts/Pathfinding/PathFinder.cs:
 * building the pathfinding map from the tile map, the room-index map and
 * the rooms of the dungeon graph, and linking every tile to the tiles
 * around it.
 *
 * The eight offsets the source tries from each tile list forward+right
 * twice and leave out forward+left. Every link is added in both
 * directions, so the finished map still links each tile to all eight
 * cells around it (LinksAreAdjacency), though some neighbours appear
 * twice in a tile's list.
 */
module PathFinderInit {
  import opened Collections
  import opened Geometry
  import opened PathFinding

  /**
   * The (dx, dz) offsets tried from each tile, in the source's order:
   * back, forward, left, right, back+right, forward+right, left+back,
   * right+forward.
   */
  const Directions: seq<(int, int)> := [(0, -1), (0, 1), (-1, 0), (1, 0), (1, -1), (1, 1), (-1, -1), (1, 1)]

  function Shift(a: Cell, d: (int, int)): Cell {
    Cell(a.z + d.1, a.x + d.0)
  }

  /** The offsets repeat forward+right and never try forward+left; each other direction or its opposite is tried. */
  lemma DirectionsCoverage()
    ensures Directions[5] == Directions[7] == (1, 1)
    ensures (-1, 1) !in Directions
    ensures forall dx, dz :: -1 <= dx <= 1 && -1 <= dz <= 1 && (dx, dz) != (0, 0) ==>
              (dx, dz) in Directions || (-dx, -dz) in Directions
  {
  }

  /** The cell (int)(target.z - .5f), (int)(target.x - .5f) of a position. */
  function CellAt(target: Vec3): Cell {
    Cell(TruncateToInt(target.z - 0.5), TruncateToInt(target.x - 0.5))
  }

  /** The range test of TryAddTileConnections, on the room-index map's dimensions. */
  predicate InMapRange(target: Vec3, rows: int, cols: int) {
    !(rows as real <= target.z || cols as real <= target.x || target.x < 0.0 || target.z < 0.0)
  }

  lemma CellAtInRange(target: Vec3, rows: int, cols: int)
    requires InMapRange(target, rows, cols)
    ensures InGrid(CellAt(target), rows, cols)
  {
  }

  /** The tile TryAddTileConnections links to from `target`, if any. */
  ghost function Connected(groups: seq<GroupData>, tiles: map<Cell, TileData>, rtm: array2<int>, target: Vec3): Option<Cell>
    reads rtm
    requires WellFormed(groups, tiles, rtm)
  {
    if !InMapRange(target, rtm.Length0, rtm.Length1) then None
    else
      var c := CellAt(target);
      CellAtInRange(target, rtm.Length0, rtm.Length1);
      TryGetTileByPosition(tiles, groups[rtm[c.z, c.x]].Tiles, target)
  }

  /** Links added for a found tile: both ways. */
  ghost function Pair(a: Cell, n: Option<Cell>): set<(Cell, Cell)> {
    if n.None? then {} else {(n.value, a), (a, n.value)}
  }

  ghost function Neighbour(a: Cell, d: (int, int), rows: int, cols: int): Option<Cell> {
    if InGrid(Shift(a, d), rows, cols) then Some(Shift(a, d)) else None
  }

  /** The links that trying the offsets `ds` from `a` adds. */
  ghost function SpokesFrom(a: Cell, ds: seq<(int, int)>, rows: int, cols: int): set<(Cell, Cell)>
    decreases |ds|
  {
    if |ds| == 0 then {}
    else SpokesFrom(a, ds[..|ds| - 1], rows, cols) + Pair(a, Neighbour(a, ds[|ds| - 1], rows, cols))
  }

  /** The links that connecting every tile of `P` adds. */
  ghost function Spokes(P: set<Cell>, rows: int, cols: int): set<(Cell, Cell)> {
    set a, e | a in P && e in SpokesFrom(a, Directions, rows, cols) :: e
  }

  /** Pairs of grid cells that touch at a side or a corner. */
  ghost function Adjacency(rows: nat, cols: nat): set<(Cell, Cell)> {
    set a, b | a in GridCells(rows, cols) && b in GridCells(rows, cols) && Adjacent8(a, b) :: (a, b)
  }

  /** The tiles without their links: what linking leaves unchanged. */
  ghost function Bare(tiles: map<Cell, TileData>): map<Cell, TileData> {
    map c | c in tiles :: tiles[c].(ConnectedTiles := [])
  }

  /**
   * From a tile's position plus a unit offset, TryAddTileConnections links
   * to the tile of the shifted cell exactly when that cell is in the grid.
   */
  lemma ConnectedNeighbour(groups: seq<GroupData>, tiles: map<Cell, TileData>, rtm: array2<int>,
                           a: Cell, d: (int, int), target: Vec3)
    requires WellFormed(groups, tiles, rtm) && a in tiles
    requires target == Vec3(a.x as real + 0.5 + d.0 as real, 0.0, a.z as real + 0.5 + d.1 as real)
    ensures Connected(groups, tiles, rtm, target) == Neighbour(a, d, rtm.Length0, rtm.Length1)
  {
    var b := Shift(a, d);
    assert target == CellPosition(b, 0.0);
    if InMapRange(target, rtm.Length0, rtm.Length1) {
      assert CellAt(target) == b;
      LookupFindsCell(groups, tiles, rtm, b);
    }
  }

  /** `tiles` with `b` appended to the links of `a` (ConnectedTiles.Add). */
  function AppendLink(tiles: map<Cell, TileData>, a: Cell, b: Cell): map<Cell, TileData> {
    if a in tiles then tiles[a := tiles[a].(ConnectedTiles := tiles[a].ConnectedTiles + [b])] else tiles
  }

  /** What TryAddTileConnections does to the tiles once it has found `n` (or nothing) for `tile`. */
  function Linked(tiles: map<Cell, TileData>, tile: Cell, n: Option<Cell>): map<Cell, TileData> {
    if n.None? then tiles else AppendLink(AppendLink(tiles, n.value, tile), tile, n.value)
  }

  /** The tiles after trying each offset of `ds`, in order, from `a`. */
  ghost function LinkAll(tiles: map<Cell, TileData>, a: Cell, ds: seq<(int, int)>, rows: int, cols: int): map<Cell, TileData>
    decreases |ds|
  {
    if |ds| == 0 then tiles
    else Linked(LinkAll(tiles, a, ds[..|ds| - 1], rows, cols), a, Neighbour(a, ds[|ds| - 1], rows, cols))
  }

  lemma LinksAppend(tiles: map<Cell, TileData>, a: Cell, b: Cell)
    requires a in tiles
    ensures Links(AppendLink(tiles, a, b)) == Links(tiles) + {(a, b)}
  {
    var t' := AppendLink(tiles, a, b);
    var n := |tiles[a].ConnectedTiles|;
    assert (a, b) == (a, t'[a].ConnectedTiles[n]);
    forall e | e in Links(tiles) ensures e in Links(t') {
      var x, i :| x in tiles && 0 <= i < |tiles[x].ConnectedTiles| && e == (x, tiles[x].ConnectedTiles[i]);
      assert e == (x, t'[x].ConnectedTiles[i]);
    }
  }

  lemma BareAppend(tiles: map<Cell, TileData>, a: Cell, b: Cell)
    ensures Bare(AppendLink(tiles, a, b)) == Bare(tiles)
  {
  }

  /** Appending a link between two tiles keeps the map well formed. */
  lemma AppendKeeps(groups: seq<GroupData>, tiles: map<Cell, TileData>, rtm: array2<int>, a: Cell, b: Cell)
    requires WellFormed(groups, tiles, rtm) && a in tiles && b in tiles
    ensures WellFormed(groups, AppendLink(tiles, a, b), rtm)
  {
  }

  /** Linking a tile with a found tile leaves every position and walkable flag alone. */
  lemma LinkedBare(tiles: map<Cell, TileData>, a: Cell, n: Option<Cell>)
    ensures Bare(Linked(tiles, a, n)) == Bare(tiles)
  {
    if n.Some? {
      BareAppend(tiles, n.value, a);
      BareAppend(AppendLink(tiles, n.value, a), a, n.value);
    }
  }

  /** Linking a tile with a found tile keeps the map well formed. */
  lemma LinkedWellFormed(groups: seq<GroupData>, tiles: map<Cell, TileData>, rtm: array2<int>, a: Cell, n: Option<Cell>)
    requires WellFormed(groups, tiles, rtm) && a in tiles && (n.Some? ==> n.value in tiles)
    ensures WellFormed(groups, Linked(tiles, a, n), rtm)
  {
    if n.Some? {
      AppendKeeps(groups, tiles, rtm, n.value, a);
      AppendKeeps(groups, AppendLink(tiles, n.value, a), rtm, a, n.value);
    }
  }

  /** Every cell of the grid has a tile. */
  ghost predicate CoversGrid(tiles: map<Cell, TileData>, rows: int, cols: int) {
    forall c :: InGrid(c, rows, cols) ==> c in tiles
  }

  /** Linking never adds or removes a tile. */
  lemma LinkedKeys(tiles: map<Cell, TileData>, a: Cell, n: Option<Cell>)
    ensures Linked(tiles, a, n).Keys == tiles.Keys
  {
  }

  /** Linking a tile with a found tile adds the link both ways, and no other. */
  lemma LinkedLinks(tiles: map<Cell, TileData>, a: Cell, n: Option<Cell>)
    requires a in tiles && (n.Some? ==> n.value in tiles)
    ensures Links(Linked(tiles, a, n)) == Links(tiles) + Pair(a, n)
  {
    if n.Some? {
      var t1 := AppendLink(tiles, n.value, a);
      LinksAppend(tiles, n.value, a);
      LinksAppend(t1, a, n.value);
    }
  }

  /**
   * TryAddTileConnections: when `target` is inside the map and a tile sits
   * there, link that tile and `tile` to each other; otherwise change
   * nothing.
   */
  method TryAddTileConnections(m: PathFindingMap, rtm: array2<int>, tile: Cell, target: Vec3)
    requires WellFormed(m.Groups, m.Tiles, rtm) && tile in m.Tiles
    modifies m
    ensures m.Groups == old(m.Groups)
    ensures m.Tiles == Linked(old(m.Tiles), tile, Connected(old(m.Groups), old(m.Tiles), rtm, target))
  {
    if rtm.Length0 as real <= target.z || rtm.Length1 as real <= target.x || target.x < 0.0 || target.z < 0.0 {
      return;
    }
    CellAtInRange(target, rtm.Length0, rtm.Length1);
    var cz, cx := TruncateToInt(target.z - 0.5), TruncateToInt(target.x - 0.5);
    var found := TryGetTileByPosition(m.Tiles, m.Groups[rtm[cz, cx]].Tiles, target);
    assert found == Connected(m.Groups, m.Tiles, rtm, target);
    if found.Some? {
      var connectedTile := found.value;
      m.Tiles := AppendLink(m.Tiles, connectedTile, tile);
      m.Tiles := AppendLink(m.Tiles, tile, connectedTile);
    }
  }

  lemma LinkAllStep(tiles: map<Cell, TileData>, a: Cell, ds: seq<(int, int)>, k: nat, rows: int, cols: int)
    requires k < |ds|
    ensures LinkAll(tiles, a, ds[..k + 1], rows, cols)
         == Linked(LinkAll(tiles, a, ds[..k], rows, cols), a, Neighbour(a, ds[k], rows, cols))
  {
    assert ds[..k + 1][..k] == ds[..k];
  }

  /** Trying the offsets `ds` from a tile changes no position or walkable flag. */
  lemma {:induction false} LinkAllBare(tiles: map<Cell, TileData>, a: Cell, ds: seq<(int, int)>, rows: int, cols: int)
    ensures Bare(LinkAll(tiles, a, ds, rows, cols)) == Bare(tiles)
    decreases |ds|
  {
    if |ds| > 0 {
      LinkAllBare(tiles, a, ds[..|ds| - 1], rows, cols);
      LinkedBare(LinkAll(tiles, a, ds[..|ds| - 1], rows, cols), a, Neighbour(a, ds[|ds| - 1], rows, cols));
    }
  }

  lemma {:induction false} LinkAllKeys(tiles: map<Cell, TileData>, a: Cell, ds: seq<(int, int)>, rows: int, cols: int)
    ensures LinkAll(tiles, a, ds, rows, cols).Keys == tiles.Keys
    decreases |ds|
  {
    if |ds| > 0 {
      LinkAllKeys(tiles, a, ds[..|ds| - 1], rows, cols);
      LinkedKeys(LinkAll(tiles, a, ds[..|ds| - 1], rows, cols), a, Neighbour(a, ds[|ds| - 1], rows, cols));
    }
  }

  /**
   * Trying the offsets `ds` from a tile adds exactly the links to the
   * shifted cells that lie in the grid, both ways.
   */
  lemma {:induction false} LinkAllLinks(tiles: map<Cell, TileData>, a: Cell, ds: seq<(int, int)>, rows: nat, cols: nat)
    requires CoversGrid(tiles, rows, cols) && a in tiles
    ensures Links(LinkAll(tiles, a, ds, rows, cols)) == Links(tiles) + SpokesFrom(a, ds, rows, cols)
    decreases |ds|
  {
    if |ds| > 0 {
      var prev := LinkAll(tiles, a, ds[..|ds| - 1], rows, cols);
      LinkAllLinks(tiles, a, ds[..|ds| - 1], rows, cols);
      LinkAllKeys(tiles, a, ds[..|ds| - 1], rows, cols);
      LinkedLinks(prev, a, Neighbour(a, ds[|ds| - 1], rows, cols));
    }
  }

  /**
   * One TryAddTileConnections call from tile `a` towards the offset
   * `Directions[k]`: it links `a` and the shifted cell when that cell is
   * in the grid.
   */
  method TryDirection(m: PathFindingMap, rtm: array2<int>, a: Cell, k: nat, target: Vec3)
    requires WellFormed(m.Groups, m.Tiles, rtm) && a in m.Tiles && k < |Directions|
    requires target == Vec3(a.x as real + 0.5 + Directions[k].0 as real, 0.0, a.z as real + 0.5 + Directions[k].1 as real)
    modifies m
    ensures WellFormed(m.Groups, m.Tiles, rtm) && m.Groups == old(m.Groups)
    ensures m.Tiles == Linked(old(m.Tiles), a, Neighbour(a, Directions[k], rtm.Length0, rtm.Length1))
  {
    ConnectedNeighbour(m.Groups, m.Tiles, rtm, a, Directions[k], target);
    LinkedWellFormed(m.Groups, m.Tiles, rtm, a, Neighbour(a, Directions[k], rtm.Length0, rtm.Length1));
    TryAddTileConnections(m, rtm, a, target);
  }

  /** The tiles after the eight tries from `a`, one by one in the source's order. */
  lemma LinkAllUnrolled(tiles: map<Cell, TileData>, a: Cell, rows: int, cols: int)
    ensures LinkAll(tiles, a, Directions, rows, cols)
         == Linked(Linked(Linked(Linked(Linked(Linked(Linked(Linked(tiles,
              a, Neighbour(a, Directions[0], rows, cols)), a, Neighbour(a, Directions[1], rows, cols)),
              a, Neighbour(a, Directions[2], rows, cols)), a, Neighbour(a, Directions[3], rows, cols)),
              a, Neighbour(a, Directions[4], rows, cols)), a, Neighbour(a, Directions[5], rows, cols)),
              a, Neighbour(a, Directions[6], rows, cols)), a, Neighbour(a, Directions[7], rows, cols))
  {
    assert Directions[..0] == [];
    LinkAllStep(tiles, a, Directions, 0, rows, cols);
    LinkAllStep(tiles, a, Directions, 1, rows, cols);
    LinkAllStep(tiles, a, Directions, 2, rows, cols);
    LinkAllStep(tiles, a, Directions, 3, rows, cols);
    LinkAllStep(tiles, a, Directions, 4, rows, cols);
    LinkAllStep(tiles, a, Directions, 5, rows, cols);
    LinkAllStep(tiles, a, Directions, 6, rows, cols);
    LinkAllStep(tiles, a, Directions, 7, rows, cols);
    assert Directions[..8] == Directions;
  }

  /** The eight TryAddTileConnections calls for one tile. */
  method ConnectTile(m: PathFindingMap, rtm: array2<int>, a: Cell)
    requires WellFormed(m.Groups, m.Tiles, rtm) && a in m.Tiles
    modifies m
    ensures WellFormed(m.Groups, m.Tiles, rtm) && m.Groups == old(m.Groups)
    ensures m.Tiles == LinkAll(old(m.Tiles), a, Directions, rtm.Length0, rtm.Length1)
  {
    LinkAllUnrolled(m.Tiles, a, rtm.Length0, rtm.Length1);
    ConnectStraight(m, rtm, a);
    ConnectDiagonal(m, rtm, a);
  }

  /** Back, forward, left and right. */
  method ConnectStraight(m: PathFindingMap, rtm: array2<int>, a: Cell)
    requires WellFormed(m.Groups, m.Tiles, rtm) && a in m.Tiles
    modifies m
    ensures WellFormed(m.Groups, m.Tiles, rtm) && m.Groups == old(m.Groups) && a in m.Tiles
    ensures var rows, cols := rtm.Length0, rtm.Length1;
      m.Tiles == Linked(Linked(Linked(Linked(old(m.Tiles),
        a, Neighbour(a, Directions[0], rows, cols)), a, Neighbour(a, Directions[1], rows, cols)),
        a, Neighbour(a, Directions[2], rows, cols)), a, Neighbour(a, Directions[3], rows, cols))
  {
    var pos := m.Tiles[a].Position;
    TryDirection(m, rtm, a, 0, pos.Plus(Back));
    TryDirection(m, rtm, a, 1, pos.Plus(Forward));
    TryDirection(m, rtm, a, 2, pos.Plus(Left));
    TryDirection(m, rtm, a, 3, pos.Plus(Right));
  }

  /** Back+right, forward+right, left+back and right+forward. */
  method ConnectDiagonal(m: PathFindingMap, rtm: array2<int>, a: Cell)
    requires WellFormed(m.Groups, m.Tiles, rtm) && a in m.Tiles
    modifies m
    ensures WellFormed(m.Groups, m.Tiles, rtm) && m.Groups == old(m.Groups)
    ensures var rows, cols := rtm.Length0, rtm.Length1;
      m.Tiles == Linked(Linked(Linked(Linked(old(m.Tiles),
        a, Neighbour(a, Directions[4], rows, cols)), a, Neighbour(a, Directions[5], rows, cols)),
        a, Neighbour(a, Directions[6], rows, cols)), a, Neighbour(a, Directions[7], rows, cols))
  {
    var pos := m.Tiles[a].Position;
    TryDirection(m, rtm, a, 4, pos.Plus(Back).Plus(Right));
    TryDirection(m, rtm, a, 5, pos.Plus(Forward).Plus(Right));
    TryDirection(m, rtm, a, 6, pos.Plus(Left).Plus(Back));
    TryDirection(m, rtm, a, 7, pos.Plus(Right).Plus(Forward));
  }

  /** The links that trying `ds` from `a` adds: a link each way to every shifted cell inside the grid. */
  lemma {:induction false} SpokesFromMeaning(a: Cell, ds: seq<(int, int)>, rows: int, cols: int, e: (Cell, Cell))
    ensures e in SpokesFrom(a, ds, rows, cols) <==>
      exists k :: 0 <= k < |ds| && InGrid(Shift(a, ds[k]), rows, cols) && (e == (a, Shift(a, ds[k])) || e == (Shift(a, ds[k]), a))
    decreases |ds|
  {
    if |ds| > 0 {
      var ds' := ds[..|ds| - 1];
      SpokesFromMeaning(a, ds', rows, cols, e);
      assert forall k :: 0 <= k < |ds'| ==> ds'[k] == ds[k];
    }
  }

  /** Every offset tried moves by at most one row and one column, and moves. */
  lemma DirectionsAreUnit(k: nat)
    requires k < |Directions|
    ensures Directions[k] != (0, 0) && -1 <= Directions[k].0 <= 1 && -1 <= Directions[k].1 <= 1
  {
  }

  /**
   * Connecting every cell of the grid links exactly the pairs of grid
   * cells that touch at a side or a corner, though forward+left is never
   * tried: its link comes from the other cell's back+right.
   */
  lemma SpokesOfGrid(rows: nat, cols: nat)
    ensures Spokes(GridCells(rows, cols), rows, cols) == Adjacency(rows, cols)
  {
    var G := GridCells(rows, cols);
    forall e | e in Spokes(G, rows, cols) ensures e in Adjacency(rows, cols) {
      var a :| a in G && e in SpokesFrom(a, Directions, rows, cols);
      SpokesFromMeaning(a, Directions, rows, cols, e);
      var k :| 0 <= k < |Directions| && InGrid(Shift(a, Directions[k]), rows, cols)
               && (e == (a, Shift(a, Directions[k])) || e == (Shift(a, Directions[k]), a));
      DirectionsAreUnit(k);
      var b := Shift(a, Directions[k]);
      assert b in G && Adjacent8(a, b) && Adjacent8(b, a);
    }
    forall e | e in Adjacency(rows, cols) ensures e in Spokes(G, rows, cols) {
      var x, y := e.0, e.1;
      assert x in G && y in G && Adjacent8(x, y);
      var d := (y.x - x.x, y.z - x.z);
      DirectionsCoverage();
      if d in Directions {
        var k :| 0 <= k < |Directions| && Directions[k] == d;
        assert Shift(x, Directions[k]) == y;
        SpokesFromMeaning(x, Directions, rows, cols, e);
      } else {
        var k :| 0 <= k < |Directions| && Directions[k] == (-d.0, -d.1);
        assert Shift(y, Directions[k]) == x;
        SpokesFromMeaning(y, Directions, rows, cols, e);
      }
    }
  }

  lemma EmptyUnion<T>(A: set<T>, B: set<T>)
    requires A == {}
    ensures A + B == B
  {
  }

  /** A set that grows by `step` on top of a set that grew by `so_far` has grown by their union. */
  lemma Accumulate<T>(start: set<T>, mid: set<T>, end: set<T>, so_far: set<T>, step: set<T>, total: set<T>)
    requires mid == start + so_far && end == mid + step && total == so_far + step
    ensures end == start + total
  {
  }

  lemma SpokesAdd(P: set<Cell>, a: Cell, rows: int, cols: int)
    ensures Spokes(P + {a}, rows, cols) == Spokes(P, rows, cols) + SpokesFrom(a, Directions, rows, cols)
  {
  }

  lemma SpokesUnion(P: set<Cell>, Q: set<Cell>, rows: int, cols: int)
    ensures Spokes(P + Q, rows, cols) == Spokes(P, rows, cols) + Spokes(Q, rows, cols)
  {
  }

  /** The cells of the grid whose room index is `g`. */
  ghost function Members(tiles: map<Cell, TileData>, rtm: array2<int>, g: int): set<Cell>
    reads rtm
  {
    set c | c in tiles && InGrid(c, rtm.Length0, rtm.Length1) && rtm[c.z, c.x] == g
  }

  /** `new PathFindingGroup(room.GetCenter(), room)`. */
  function NewGroup(room: RectInt): GroupData {
    GroupData(RoomCenter(room), room, [], [])
  }

  /** The first loop: one group per room, in the rooms' order. */
  method AddGroups(m: PathFindingMap, rooms: seq<RectInt>)
    requires m.Groups == []
    modifies m
    ensures m.Tiles == old(m.Tiles)
    ensures |m.Groups| == |rooms| && forall g :: 0 <= g < |rooms| ==> m.Groups[g] == NewGroup(rooms[g])
  {
    var i := 0;
    while i < |rooms|
      invariant 0 <= i <= |rooms| && m.Tiles == old(m.Tiles)
      invariant |m.Groups| == i && forall g :: 0 <= g < i ==> m.Groups[g] == NewGroup(rooms[g])
    {
      m.Groups := m.Groups + [NewGroup(rooms[i])];
      i := i + 1;
    }
  }

  /** Every entry of the room-index map names one of `n` groups. */
  ghost predicate RoomIndexed(rtm: array2<int>, n: int)
    reads rtm
  {
    forall z, x :: 0 <= z < rtm.Length0 && 0 <= x < rtm.Length1 ==> 0 <= rtm[z, x] < n
  }

  /** The cells of row `z` left of column `x`. */
  ghost function RowCells(z: int, x: int): set<Cell> {
    set x' | 0 <= x' < x :: Cell(z, x')
  }

  lemma GridGrows(z: nat, cols: nat)
    ensures GridCells(z, cols) + RowCells(z, cols) == GridCells(z + 1, cols)
  {
  }

  /** Tiles and groups after the second loop, over the cells `done`. */
  ghost predicate Filled(m: PathFindingMap, tileMap: array2<int>, rtm: array2<int>, rooms: seq<RectInt>)
    reads m, tileMap, rtm
  {
    && |m.Groups| == |rooms|
    && (forall g :: 0 <= g < |rooms| ==>
          m.Groups[g].Position == RoomCenter(rooms[g]) && m.Groups[g].Room == rooms[g] && m.Groups[g].ConnectedGroups == []
          && Elems(m.Groups[g].Tiles) == Members(m.Tiles, rtm, g))
    && (forall c :: c in m.Tiles ==>
          InGrid(c, tileMap.Length0, tileMap.Length1)
          && m.Tiles[c] == TileData(CellPosition(c, 0.0), tileMap[c.z, c.x] == 0, []))
  }

  /**
   * The second loop: a tile for each cell, in row order, at the cell's
   * centre and the height of its group, walkable when the tile map holds
   * 0 there, listed by the group the room-index map names.
   */
  method AddTiles(m: PathFindingMap, tileMap: array2<int>, rtm: array2<int>, rooms: seq<RectInt>)
    requires tileMap.Length0 == rtm.Length0 && tileMap.Length1 == rtm.Length1 && RoomIndexed(rtm, |rooms|)
    requires m.Tiles == map[] && |m.Groups| == |rooms| && forall g :: 0 <= g < |rooms| ==> m.Groups[g] == NewGroup(rooms[g])
    modifies m
    ensures Filled(m, tileMap, rtm, rooms) && m.Tiles.Keys == GridCells(rtm.Length0, rtm.Length1)
  {
    var z := 0;
    while z < tileMap.Length0
      invariant 0 <= z <= tileMap.Length0
      invariant Filled(m, tileMap, rtm, rooms) && m.Tiles.Keys == GridCells(z, tileMap.Length1)
    {
      var x := 0;
      while x < tileMap.Length1
        invariant 0 <= x <= tileMap.Length1
        invariant Filled(m, tileMap, rtm, rooms) && m.Tiles.Keys == GridCells(z, tileMap.Length1) + RowCells(z, x)
      {
        AddTile(m, tileMap, rtm, rooms, Cell(z, x));
        x := x + 1;
      }
      GridGrows(z, tileMap.Length1);
      z := z + 1;
    }
  }

  /** One step of the second loop. */
  method AddTile(m: PathFindingMap, tileMap: array2<int>, rtm: array2<int>, rooms: seq<RectInt>, c: Cell)
    requires tileMap.Length0 == rtm.Length0 && tileMap.Length1 == rtm.Length1 && RoomIndexed(rtm, |rooms|)
    requires InGrid(c, tileMap.Length0, tileMap.Length1) && c !in m.Tiles
    requires Filled(m, tileMap, rtm, rooms)
    modifies m
    ensures Filled(m, tileMap, rtm, rooms) && m.Tiles.Keys == old(m.Tiles.Keys) + {c}
  {
    var g := rtm[c.z, c.x];
    var newTile := TileData(Vec3(c.x as real + 0.5, m.Groups[g].Position.y, c.z as real + 0.5), tileMap[c.z, c.x] == 0, []);
    ghost var before := m.Tiles;
    m.Tiles := m.Tiles[c := newTile];
    m.Groups := m.Groups[g := m.Groups[g].(Tiles := m.Groups[g].Tiles + [c])];
    forall h | 0 <= h < |rooms|
      ensures Elems(m.Groups[h].Tiles) == Members(m.Tiles, rtm, h)
    {
      if h == g {
        ElemsConcat(old(m.Groups)[g].Tiles, [c]);
        assert Members(m.Tiles, rtm, h) == Members(before, rtm, h) + {c};
      } else {
        assert Members(m.Tiles, rtm, h) == Members(before, rtm, h);
      }
    }
  }

  /** The first half of the third loop's body: group `i` records the groups `cg` of its room's connected rooms. */
  method AddConnectedGroups(m: PathFindingMap, rtm: array2<int>, i: nat, cg: seq<nat>)
    requires WellFormed(m.Groups, m.Tiles, rtm) && i < |m.Groups| && m.Groups[i].ConnectedGroups == []
    requires forall k :: 0 <= k < |cg| ==> cg[k] < |m.Groups|
    modifies m
    ensures WellFormed(m.Groups, m.Tiles, rtm) && m.Tiles == old(m.Tiles)
    ensures m.Groups == old(m.Groups)[i := old(m.Groups)[i].(ConnectedGroups := cg)]
  {
    ghost var g0 := m.Groups[i];
    var k := 0;
    while k < |cg|
      invariant 0 <= k <= |cg| && m.Tiles == old(m.Tiles)
      invariant m.Groups == old(m.Groups)[i := g0.(ConnectedGroups := cg[..k])]
      invariant WellFormed(m.Groups, m.Tiles, rtm)
    {
      assert cg[..k + 1] == cg[..k] + [cg[k]];
      m.Groups := m.Groups[i := m.Groups[i].(ConnectedGroups := m.Groups[i].ConnectedGroups + [cg[k]])];
      k := k + 1;
    }
    assert cg[..k] == cg;
  }

  /** The tiles after connecting each cell of `cells`, in order. */
  ghost function LinkEach(tiles: map<Cell, TileData>, cells: seq<Cell>, rows: int, cols: int): map<Cell, TileData>
    decreases |cells|
  {
    if |cells| == 0 then tiles
    else LinkAll(LinkEach(tiles, cells[..|cells| - 1], rows, cols), cells[|cells| - 1], Directions, rows, cols)
  }

  /** The tiles after connecting the cells of the first `i` groups, group by group. */
  ghost function LinkGroupsUpTo(tiles: map<Cell, TileData>, groups: seq<GroupData>, i: nat, rows: int, cols: int): map<Cell, TileData>
    requires i <= |groups|
  {
    if i == 0 then tiles else LinkEach(LinkGroupsUpTo(tiles, groups, i - 1, rows, cols), groups[i - 1].Tiles, rows, cols)
  }

  lemma LinkEachStep(tiles: map<Cell, TileData>, cells: seq<Cell>, j: nat, rows: int, cols: int)
    requires j < |cells|
    ensures LinkEach(tiles, cells[..j + 1], rows, cols) == LinkAll(LinkEach(tiles, cells[..j], rows, cols), cells[j], Directions, rows, cols)
  {
    assert cells[..j + 1][..j] == cells[..j];
  }

  /** Connecting the cells of `cells` changes no position or walkable flag. */
  lemma {:induction false} LinkEachBare(tiles: map<Cell, TileData>, cells: seq<Cell>, rows: int, cols: int)
    ensures Bare(LinkEach(tiles, cells, rows, cols)) == Bare(tiles)
    decreases |cells|
  {
    if |cells| > 0 {
      LinkEachBare(tiles, cells[..|cells| - 1], rows, cols);
      LinkAllBare(LinkEach(tiles, cells[..|cells| - 1], rows, cols), cells[|cells| - 1], Directions, rows, cols);
    }
  }

  lemma {:induction false} LinkEachKeys(tiles: map<Cell, TileData>, cells: seq<Cell>, rows: int, cols: int)
    ensures LinkEach(tiles, cells, rows, cols).Keys == tiles.Keys
    decreases |cells|
  {
    if |cells| > 0 {
      LinkEachKeys(tiles, cells[..|cells| - 1], rows, cols);
      LinkAllKeys(LinkEach(tiles, cells[..|cells| - 1], rows, cols), cells[|cells| - 1], Directions, rows, cols);
    }
  }

  /** Connecting the cells of `cells` adds the spokes of exactly those cells. */
  lemma {:induction false} LinkEachLinks(tiles: map<Cell, TileData>, cells: seq<Cell>, rows: nat, cols: nat)
    requires CoversGrid(tiles, rows, cols) && forall k :: 0 <= k < |cells| ==> cells[k] in tiles
    ensures Links(LinkEach(tiles, cells, rows, cols)) == Links(tiles) + Spokes(Elems(cells), rows, cols)
    decreases |cells|
  {
    if |cells| == 0 {
      assert Elems(cells) == {};
    } else {
      var front, a := cells[..|cells| - 1], cells[|cells| - 1];
      var prev := LinkEach(tiles, front, rows, cols);
      LinkEachLinks(tiles, front, rows, cols);
      LinkEachKeys(tiles, front, rows, cols);
      LinkAllLinks(prev, a, Directions, rows, cols);
      assert cells == front + [a];
      SpokesSnoc(front, a, rows, cols);
      Accumulate(Links(tiles), Links(prev), Links(LinkEach(tiles, cells, rows, cols)),
                 Spokes(Elems(front), rows, cols), SpokesFrom(a, Directions, rows, cols), Spokes(Elems(cells), rows, cols));
    }
  }

  lemma SpokesSnoc(front: seq<Cell>, a: Cell, rows: int, cols: int)
    ensures Spokes(Elems(front + [a]), rows, cols) == Spokes(Elems(front), rows, cols) + SpokesFrom(a, Directions, rows, cols)
  {
    assert Elems(front + [a]) == Elems(front) + {a};
    SpokesAdd(Elems(front), a, rows, cols);
  }

  /** Connecting the cells of the first `i` groups changes no position or walkable flag. */
  lemma {:induction false} LinkGroupsBare(tiles: map<Cell, TileData>, groups: seq<GroupData>, i: nat, rows: int, cols: int)
    requires i <= |groups|
    ensures Bare(LinkGroupsUpTo(tiles, groups, i, rows, cols)) == Bare(tiles)
  {
    if i > 0 {
      LinkGroupsBare(tiles, groups, i - 1, rows, cols);
      LinkEachBare(LinkGroupsUpTo(tiles, groups, i - 1, rows, cols), groups[i - 1].Tiles, rows, cols);
    }
  }

  lemma {:induction false} LinkGroupsKeys(tiles: map<Cell, TileData>, groups: seq<GroupData>, i: nat, rows: int, cols: int)
    requires i <= |groups|
    ensures LinkGroupsUpTo(tiles, groups, i, rows, cols).Keys == tiles.Keys
  {
    if i > 0 {
      LinkGroupsKeys(tiles, groups, i - 1, rows, cols);
      LinkEachKeys(LinkGroupsUpTo(tiles, groups, i - 1, rows, cols), groups[i - 1].Tiles, rows, cols);
    }
  }

  /** Connecting the cells of the first `i` groups adds the spokes of the cells those groups list. */
  lemma {:induction false} LinkGroupsLinks(groups: seq<GroupData>, tiles: map<Cell, TileData>, i: nat, rows: nat, cols: nat)
    requires CoversGrid(tiles, rows, cols) && i <= |groups|
    requires forall g, k :: 0 <= g < |groups| && 0 <= k < |groups[g].Tiles| ==> groups[g].Tiles[k] in tiles
    ensures Links(LinkGroupsUpTo(tiles, groups, i, rows, cols)) == Links(tiles) + Spokes(GroupCells(groups, i), rows, cols)
  {
    if i == 0 {
      assert GroupCells(groups, 0) == {};
    } else {
      var prev := LinkGroupsUpTo(tiles, groups, i - 1, rows, cols);
      LinkGroupsLinks(groups, tiles, i - 1, rows, cols);
      LinkGroupsKeys(tiles, groups, i - 1, rows, cols);
      LinkEachLinks(prev, groups[i - 1].Tiles, rows, cols);
      GroupCellsGrow(groups, i - 1);
      SpokesUnion(GroupCells(groups, i - 1), Elems(groups[i - 1].Tiles), rows, cols);
      Accumulate(Links(tiles), Links(prev), Links(LinkGroupsUpTo(tiles, groups, i, rows, cols)),
                 Spokes(GroupCells(groups, i - 1), rows, cols), Spokes(Elems(groups[i - 1].Tiles), rows, cols),
                 Spokes(GroupCells(groups, i), rows, cols));
    }
  }

  /** The second half of the third loop's body: connect every tile of group `i`. */
  method ConnectGroupTiles(m: PathFindingMap, rtm: array2<int>, i: nat)
    requires WellFormed(m.Groups, m.Tiles, rtm) && i < |m.Groups|
    modifies m
    ensures WellFormed(m.Groups, m.Tiles, rtm) && m.Groups == old(m.Groups)
    ensures m.Tiles == LinkEach(old(m.Tiles), m.Groups[i].Tiles, rtm.Length0, rtm.Length1)
  {
    var tiles := m.Groups[i].Tiles;
    var j := 0;
    assert tiles[..0] == [];
    while j < |tiles|
      invariant 0 <= j <= |tiles|
      invariant WellFormed(m.Groups, m.Tiles, rtm) && m.Groups == old(m.Groups)
      invariant m.Tiles == LinkEach(old(m.Tiles), tiles[..j], rtm.Length0, rtm.Length1)
    {
      LinkEachStep(old(m.Tiles), tiles, j, rtm.Length0, rtm.Length1);
      ConnectTile(m, rtm, tiles[j]);
      j := j + 1;
    }
    assert tiles[..j] == tiles;
  }

  /** One pass of the third loop: group `i` records its connected groups and connects its tiles. */
  method LinkGroup(m: PathFindingMap, rtm: array2<int>, i: nat, cg: seq<nat>)
    requires WellFormed(m.Groups, m.Tiles, rtm) && i < |m.Groups| && m.Groups[i].ConnectedGroups == []
    requires forall k :: 0 <= k < |cg| ==> cg[k] < |m.Groups|
    modifies m
    ensures WellFormed(m.Groups, m.Tiles, rtm)
    ensures m.Groups == old(m.Groups)[i := old(m.Groups)[i].(ConnectedGroups := cg)]
    ensures m.Tiles == LinkEach(old(m.Tiles), old(m.Groups)[i].Tiles, rtm.Length0, rtm.Length1)
  {
    AddConnectedGroups(m, rtm, i, cg);
    ConnectGroupTiles(m, rtm, i);
  }

  /** The groups with the first `i` of them given their connected groups. */
  function WithConnections(groups: seq<GroupData>, connected: seq<seq<nat>>, i: nat): (r: seq<GroupData>)
    requires |connected| == |groups|
    ensures |r| == |groups|
  {
    seq(|groups|, g requires 0 <= g < |groups| => if g < i then groups[g].(ConnectedGroups := connected[g]) else groups[g])
  }

  /**
   * The third loop: each group records its connected groups and connects
   * its tiles.
   */
  method LinkGroups(m: PathFindingMap, rtm: array2<int>, connected: seq<seq<nat>>)
    requires WellFormed(m.Groups, m.Tiles, rtm) && |connected| == |m.Groups|
    requires forall g :: 0 <= g < |m.Groups| ==> m.Groups[g].ConnectedGroups == []
    requires forall i, k :: 0 <= i < |connected| && 0 <= k < |connected[i]| ==> connected[i][k] < |connected|
    modifies m
    ensures WellFormed(m.Groups, m.Tiles, rtm)
    ensures m.Groups == WithConnections(old(m.Groups), connected, |connected|)
    ensures m.Tiles == LinkGroupsUpTo(old(m.Tiles), old(m.Groups), |connected|, rtm.Length0, rtm.Length1)
  {
    ghost var G := m.Groups;
    var i := 0;
    while i < |m.Groups|
      invariant 0 <= i <= |G| && |m.Groups| == |G|
      invariant WellFormed(m.Groups, m.Tiles, rtm)
      invariant m.Groups == WithConnections(G, connected, i)
      invariant m.Tiles == LinkGroupsUpTo(old(m.Tiles), G, i, rtm.Length0, rtm.Length1)
    {
      LinkGroup(m, rtm, i, connected[i]);
      i := i + 1;
    }
  }

  /** The cells listed by the first `i` groups. */
  ghost function GroupCells(groups: seq<GroupData>, i: int): set<Cell> {
    set g, c | 0 <= g < i && g < |groups| && c in groups[g].Tiles :: c
  }

  lemma GroupCellsHas(groups: seq<GroupData>, i: nat, g: nat, k: nat)
    requires g < i <= |groups| && k < |groups[g].Tiles|
    ensures groups[g].Tiles[k] in GroupCells(groups, i)
  {
    var c := groups[g].Tiles[k];
    assert 0 <= g < i && g < |groups| && c in groups[g].Tiles;
  }

  lemma GroupCellsGrow(groups: seq<GroupData>, i: nat)
    requires i < |groups|
    ensures GroupCells(groups, i + 1) == GroupCells(groups, i) + Elems(groups[i].Tiles)
  {
  }

  /** After the second loop the groups list every tile of the grid between them. */
  lemma GroupCellsAll(m: PathFindingMap, tileMap: array2<int>, rtm: array2<int>, rooms: seq<RectInt>)
    requires tileMap.Length0 == rtm.Length0 && tileMap.Length1 == rtm.Length1 && RoomIndexed(rtm, |rooms|)
    requires Filled(m, tileMap, rtm, rooms) && m.Tiles.Keys == GridCells(rtm.Length0, rtm.Length1)
    ensures GroupCells(m.Groups, |rooms|) == GridCells(rtm.Length0, rtm.Length1)
  {
    forall c | c in GridCells(rtm.Length0, rtm.Length1) ensures c in GroupCells(m.Groups, |rooms|) {
      var g := rtm[c.z, c.x];
      assert c in Members(m.Tiles, rtm, g);
      assert c in Elems(m.Groups[g].Tiles);
    }
    forall c | c in GroupCells(m.Groups, |rooms|) ensures c in GridCells(rtm.Length0, rtm.Length1) {
      var g :| 0 <= g < |rooms| && c in m.Groups[g].Tiles;
      assert c in Elems(m.Groups[g].Tiles);
    }
  }

  /** After the second loop the map is well formed and has no links yet. */
  lemma FilledWellFormed(m: PathFindingMap, tileMap: array2<int>, rtm: array2<int>, rooms: seq<RectInt>)
    requires tileMap.Length0 == rtm.Length0 && tileMap.Length1 == rtm.Length1 && RoomIndexed(rtm, |rooms|)
    requires Filled(m, tileMap, rtm, rooms) && m.Tiles.Keys == GridCells(rtm.Length0, rtm.Length1)
    ensures WellFormed(m.Groups, m.Tiles, rtm) && Links(m.Tiles) == {}
  {
    forall c | c in m.Tiles ensures c in m.Groups[rtm[c.z, c.x]].Tiles {
      assert c in Members(m.Tiles, rtm, rtm[c.z, c.x]);
    }
    forall g, i | 0 <= g < |m.Groups| && 0 <= i < |m.Groups[g].Tiles| ensures m.Groups[g].Tiles[i] in m.Tiles {
      assert m.Groups[g].Tiles[i] in Elems(m.Groups[g].Tiles);
    }
  }

  /** Each tile links to exactly the tiles that touch it at a side or a corner. */
  ghost predicate LinksTouching(tiles: map<Cell, TileData>) {
    forall a, b :: a in tiles ==> (b in tiles[a].ConnectedTiles <==> b in tiles && Adjacent8(a, b))
  }

  /** With the links of every grid cell's spokes, a tile lists exactly the tiles around it. */
  lemma LinksAreAdjacency(tiles: map<Cell, TileData>, rows: nat, cols: nat)
    requires tiles.Keys == GridCells(rows, cols) && Links(tiles) == Adjacency(rows, cols)
    ensures LinksTouching(tiles)
  {
    forall a, b | a in tiles
      ensures b in tiles[a].ConnectedTiles <==> b in tiles && Adjacent8(a, b)
    {
      if b in tiles[a].ConnectedTiles {
        var i :| 0 <= i < |tiles[a].ConnectedTiles| && tiles[a].ConnectedTiles[i] == b;
        assert (a, tiles[a].ConnectedTiles[i]) in Links(tiles);
      }
      if b in tiles && Adjacent8(a, b) {
        assert (a, b) in Adjacency(rows, cols);
        var x, i :| x in tiles && 0 <= i < |tiles[x].ConnectedTiles| && (a, b) == (x, tiles[x].ConnectedTiles[i]);
      }
    }
  }

  lemma BareFacts(t: map<Cell, TileData>, u: map<Cell, TileData>, c: Cell)
    requires Bare(t) == Bare(u) && c in t
    ensures c in u && t[c].Position == u[c].Position && t[c].Walkable == u[c].Walkable
  {
    assert c in Bare(t);
    assert Bare(t)[c] == Bare(u)[c];
  }

  /**
   * Connecting the tiles of every group of a map without links, whose
   * groups list every cell of the grid between them, keeps each tile and
   * links it to exactly the tiles that touch it.
   */
  lemma LinkedGrid(groups: seq<GroupData>, tiles: map<Cell, TileData>, rows: nat, cols: nat)
    requires tiles.Keys == GridCells(rows, cols) && Links(tiles) == {}
    requires GroupCells(groups, |groups|) == GridCells(rows, cols)
    ensures var t := LinkGroupsUpTo(tiles, groups, |groups|, rows, cols);
      Bare(t) == Bare(tiles) && t.Keys == tiles.Keys && LinksTouching(t)
  {
    var t := LinkGroupsUpTo(tiles, groups, |groups|, rows, cols);
    assert CoversGrid(tiles, rows, cols) by {
      forall c | InGrid(c, rows, cols) ensures c in tiles {
        assert c in GridCells(rows, cols);
      }
    }
    assert forall g, k :: 0 <= g < |groups| && 0 <= k < |groups[g].Tiles| ==> groups[g].Tiles[k] in tiles by {
      forall g, k | 0 <= g < |groups| && 0 <= k < |groups[g].Tiles| ensures groups[g].Tiles[k] in tiles {
        GroupCellsHas(groups, |groups|, g, k);
      }
    }
    LinkGroupsBare(tiles, groups, |groups|, rows, cols);
    LinkGroupsKeys(tiles, groups, |groups|, rows, cols);
    assert Links(t) == Adjacency(rows, cols) by {
      LinkGroupsLinks(groups, tiles, |groups|, rows, cols);
      SpokesOfGrid(rows, cols);
      EmptyUnion(Links(tiles), Spokes(GroupCells(groups, |groups|), rows, cols));
    }
    LinksAreAdjacency(t, rows, cols);
  }

  /**
   * CreatePathFindingMap: one group per room (at the room's centre, with
   * the groups of the rooms its room connects to), one tile per cell of
   * the tile map (at the cell's centre, walkable where the tile map holds
   * 0, listed by the group the room-index map names), and each tile linked
   * to exactly the tiles that touch it at a side or a corner.
   * `connected[i]` is the list of groups PathFindingMap.GetGroupByPosition
   * finds for the centres of the rooms that room `i` connects to.
   */
  method CreatePathFindingMap(tileMap: array2<int>, rtm: array2<int>, rooms: seq<RectInt>, connected: seq<seq<nat>>)
    returns (m: PathFindingMap)
    requires tileMap.Length0 == rtm.Length0 && tileMap.Length1 == rtm.Length1 && RoomIndexed(rtm, |rooms|)
    requires |connected| == |rooms|
    requires forall i, k :: 0 <= i < |rooms| && 0 <= k < |connected[i]| ==> connected[i][k] < |rooms|
    ensures fresh(m) && WellFormed(m.Groups, m.Tiles, rtm) && |m.Groups| == |rooms|
    ensures forall g :: 0 <= g < |rooms| ==>
              m.Groups[g].Position == RoomCenter(rooms[g]) && m.Groups[g].Room == rooms[g]
              && m.Groups[g].ConnectedGroups == connected[g] && Elems(m.Groups[g].Tiles) == Members(m.Tiles, rtm, g)
    ensures forall c :: c in m.Tiles ==>
              m.Tiles[c].Position == CellPosition(c, 0.0) && m.Tiles[c].Walkable == (tileMap[c.z, c.x] == 0)
    ensures forall a, b :: a in m.Tiles ==> (b in m.Tiles[a].ConnectedTiles <==> b in m.Tiles && Adjacent8(a, b))
  {
    var rows, cols := rtm.Length0, rtm.Length1;
    m := new PathFindingMap();
    AddGroups(m, rooms);
    AddTiles(m, tileMap, rtm, rooms);
    ghost var G2, T2 := m.Groups, m.Tiles;
    FilledWellFormed(m, tileMap, rtm, rooms);
    GroupCellsAll(m, tileMap, rtm, rooms);
    LinkGroups(m, rtm, connected);
    LinkedGrid(G2, T2, rows, cols);
    forall c | c in m.Tiles
      ensures m.Tiles[c].Position == CellPosition(c, 0.0) && m.Tiles[c].Walkable == (tileMap[c.z, c.x] == 0)
    {
      BareFacts(m.Tiles, T2, c);
    }
    forall g | 0 <= g < |rooms| ensures Members(m.Tiles, rtm, g) == Members(T2, rtm, g) {
    }
  }
}
