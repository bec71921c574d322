/**
 * The pathfinding map that Assets/Scripts/Pathfinding/PathFinder.cs builds
 * and searches. Its helper classes (PathFindingMap, PathFindingGroup and
 * PathFindingTile) are not part of this model; they are given the least
 * behaviour the searches rely on:
 *  - a tile has a position, a walkable flag and a list of connected tiles;
 *  - a group has a position, a room, its tiles and its connected groups;
 *  - TryGetTileByPosition finds the first tile of a group at a position.
 * There is exactly one tile per grid cell, so tiles live in an arena keyed
 * by their cell (row z, column x), and a group lists the cells of its tiles.
 * Vector3 coordinates are exact reals.
 */
module PathFinding {
  import opened Collections
  import opened Geometry

  datatype Vec3 = Vec3(x: real, y: real, z: real) {
    function Plus(o: Vec3): Vec3 { Vec3(x + o.x, y + o.y, z + o.z) }
  }

  /** Vector3.back, forward, left and right. */
  const Back := Vec3(0.0, 0.0, -1.0)
  const Forward := Vec3(0.0, 0.0, 1.0)
  const Left := Vec3(-1.0, 0.0, 0.0)
  const Right := Vec3(1.0, 0.0, 0.0)

  /** A grid cell: row `z` and column `x` of the tile map. */
  datatype Cell = Cell(z: int, x: int)

  datatype TileData = TileData(Position: Vec3, Walkable: bool, ConnectedTiles: seq<Cell>)

  datatype GroupData = GroupData(Position: Vec3, Room: RectInt, Tiles: seq<Cell>, ConnectedGroups: seq<nat>)

  /** The position of the tile of a cell: the cell's centre, at height `y`. */
  function CellPosition(c: Cell, y: real): Vec3 {
    Vec3(c.x as real + 0.5, y, c.z as real + 0.5)
  }

  /** RoomNode.GetCenter: the centre of the room's rectangle, at height 0. */
  function RoomCenter(r: RectInt): Vec3 {
    Vec3(r.x as real + r.width as real / 2.0, 0.0, r.y as real + r.height as real / 2.0)
  }

  /** PathFindingGroup.TryGetTileByPosition: the first tile of `cells` whose position is `target`. */
  function TryGetTileByPosition(tiles: map<Cell, TileData>, cells: seq<Cell>, target: Vec3): (r: Option<Cell>)
    ensures r.Some? ==> r.value in cells && r.value in tiles && tiles[r.value].Position == target
    ensures r.None? <==> forall i :: 0 <= i < |cells| ==> !(cells[i] in tiles && tiles[cells[i]].Position == target)
  {
    if |cells| == 0 then None
    else if cells[0] in tiles && tiles[cells[0]].Position == target then Some(cells[0])
    else
      var r := TryGetTileByPosition(tiles, cells[1..], target);
      assert forall i :: 1 <= i < |cells| ==> cells[i] == cells[1..][i - 1];
      r
  }

  /** The map of PathFinder: its groups (one per room) and its tiles (one per grid cell). */
  class PathFindingMap {
    var Groups: seq<GroupData>
    var Tiles: map<Cell, TileData>

    constructor ()
      ensures Groups == [] && Tiles == map[]
    {
      Groups := [];
      Tiles := map[];
    }
  }

  predicate InGrid(c: Cell, rows: int, cols: int) {
    0 <= c.z < rows && 0 <= c.x < cols
  }

  ghost function GridCells(rows: nat, cols: nat): set<Cell> {
    set z, x | 0 <= z < rows && 0 <= x < cols :: Cell(z, x)
  }

  /** Two different cells that touch at a side or a corner. */
  predicate Adjacent8(a: Cell, b: Cell) {
    a != b && -1 <= a.z - b.z <= 1 && -1 <= a.x - b.x <= 1
  }

  /** Every link between tiles, as (tile, connected tile) pairs. */
  ghost function Links(tiles: map<Cell, TileData>): set<(Cell, Cell)> {
    set a, i | a in tiles && 0 <= i < |tiles[a].ConnectedTiles| :: (a, tiles[a].ConnectedTiles[i])
  }

  /**
   * The map as PathFinder leaves it for the searches, over a room-index
   * grid `rtm`: a tile for each cell and nothing else, at the cell's
   * centre at height 0, listed by the group `rtm` names for its cell;
   * groups list only tiles; tiles link only to tiles, and groups only to
   * groups.
   */
  ghost predicate WellFormed(groups: seq<GroupData>, tiles: map<Cell, TileData>, rtm: array2<int>)
    reads rtm
  {
    && tiles.Keys == GridCells(rtm.Length0, rtm.Length1)
    && (forall c :: c in tiles ==> 0 <= rtm[c.z, c.x] < |groups|)
    && (forall c :: c in tiles ==> tiles[c].Position == CellPosition(c, 0.0))
    && (forall c :: c in tiles ==> c in groups[rtm[c.z, c.x]].Tiles)
    && (forall g, i :: 0 <= g < |groups| && 0 <= i < |groups[g].Tiles| ==> groups[g].Tiles[i] in tiles)
    && (forall c, b :: c in tiles && b in tiles[c].ConnectedTiles ==> b in tiles)
    && (forall g, i :: 0 <= g < |groups| && 0 <= i < |groups[g].ConnectedGroups| ==>
          groups[g].ConnectedGroups[i] < |groups|)
  }

  /** Tile positions tell cells apart. */
  lemma CellPositionInjective(a: Cell, b: Cell, y: real)
    requires CellPosition(a, y) == CellPosition(b, y)
    ensures a == b
  {
  }

  /**
   * In a well-formed map the lookup of a cell's centre in the cell's group
   * finds that cell's tile.
   */
  lemma LookupFindsCell(groups: seq<GroupData>, tiles: map<Cell, TileData>, rtm: array2<int>, c: Cell)
    requires WellFormed(groups, tiles, rtm) && c in tiles
    ensures TryGetTileByPosition(tiles, groups[rtm[c.z, c.x]].Tiles, CellPosition(c, 0.0)) == Some(c)
  {
    var cells := groups[rtm[c.z, c.x]].Tiles;
    var i :| 0 <= i < |cells| && cells[i] == c;
    var r := TryGetTileByPosition(tiles, cells, CellPosition(c, 0.0));
    assert r.Some?;
    CellPositionInjective(r.value, c, 0.0);
  }
}
