# Dungeon generator: a verified model of its core

This project models the core of a Unity dungeon generator written in C#. It covers:

- the binary space partitioning of the dungeon rectangle into rooms, and door placement on the seam between two rooms (`DungeonGenerator`);
- the two Prim-style spanning-tree selections: over a plain edge list, and over the door nodes of the dungeon graph;
- the two adjacency-list graphs, in which a door is itself a node, with their breadth-first and depth-first searches and the "still connected without v" test;
- the room and door link objects, with their equality, other-room lookup, detachment, and the room-removal connectivity search;
- the best-first tile and group searches of the path finder, the map of tiles and groups they search, and the building of that map;
- the combinatorial part of the Delaunay triangulation: edge and triangle equality and hashing, cancellation of almost-equal polygon edges, and unique-edge collection.

## Files

Each Dafny module follows one source file, or one shared theory:

- `geometry.dfy` (`Geometry`): `RectInt`; C#'s truncating `/ 2` and `(int)` cast; `Mathf.Lerp` and `Mathf.Clamp` on exact reals.
- `collections.dfy`, `reach.dfy`, `selection.dfy`: helpers for sequences; reachability avoiding a blocked set; "first strict minimum among the qualifying entries".
- `generic_graph.dfy` (`GenericGraph`): `Assets/Scripts/Graph.cs`.
- `search.dfy` (`Search`): the queue-based breadth-first search and the stack-based depth-first search both graph classes run.
- `door_graph.dfy` (`DoorGraph`): `Assets/Scripts/DungeonGeneration/Graph/Graph.cs`.
- `room_links.dfy` (`RoomLinks`): `RoomNode.cs` and `DoorNode.cs`.
- `edge_spanning_tree.dfy` (`EdgeSpanningTree`): `DungeonGenerator.MinimumSpanningTree`.
- `door_spanning_tree.dfy` (`DoorSpanningTree`): `MinimumSpanningTree.GetMinimumSpanningTree`.
- `dungeon_generator.dfy` (`DungeonGenerator`): `RecursionSplit`, `GenerateDoor`, `GenerateDungeon`, and the split-tree `RoomNode`.
- `path_finding.dfy`, `path_finder_init.dfy`, `best_first.dfy`, `path_finder.dfy`: the path finder.
  - The map's tiles and groups.
  - `CreatePathFindingMap` and `TryAddTileConnections`.
  - The shared best-first frontier loop.
  - The tile and group searches and the two strategies.
- `triangulation.dfy` (`Triangulation`): `DTriangulation.cs`.

## Modelling choices

- **Objects the source updates in place are classes.** The two `Graph` classes have an adjacency map and the dictionary's key order. `RoomNode` (both kinds) and `DoorNode` are classes, as are the path-finding map, the triangulation and the generator. Their methods state the whole new state.
- **Loops are `while` loops** with invariants. Each is proved against a pure specification function whose properties are lemmas, for example:
  - `Plan`, the split tree;
  - `Prim` and `DoorPrim`, the greedy choices;
  - `ReachSet`, reachability;
  - `Collected` and `Survivors`, the triangulation passes.
- **`System.Random` is a fixed stream of draws** `Noise(0), Noise(1), …`. The generator counts the draws it has used in `Drawn`.
- **Floats are exact reals.** `Vector3.Distance`, `DoorEdgeDistance` and `Edge.Distance` become weight functions passed as parameters.
- **A `Dictionary`'s key order is a sequence kept in insertion order.** The spanning tree and the connectivity test read the first key.
- **Hash sets follow the element type's equality.**
  - Rooms compare by rectangle, so a set of rooms is a set of rectangles.
  - A door's hash code is computed from its rectangle and the reference of its room array, so two door objects never share that pair. The model also takes their hash codes to differ, although `HashCode.Combine` could collide. A set of doors therefore holds door objects by identity; this is a modelling choice.
  - A `HashSet<Edge>` keeps an edge when no stored edge both `Equals` it and has the same hash.

## Model

| member | source | states |
|---|---|---|
| GenericGraph.WithNode | Assets/Scripts/Graph.cs:37-43 | AddNode's effect: the keys gain the node; an existing key changes nothing (idempotent); a new key gets an empty set; the closure invariant is kept |
| GenericGraph.WithEdgeLinks | Assets/Scripts/Graph.cs:57-77 | after AddEdge(from, to, e) all three are keys, e is linked both ways with from and with to, and no other link changes |
| GenericGraph.WithEdgeClosed | Assets/Scripts/Graph.cs:57-77 | AddEdge keeps every neighbour a key |
| GenericGraph.WithoutNode | Assets/Scripts/Graph.cs:19-30 | after RemoveNode(n), n is no key and in no set; every other key stays with n dropped from its set; closure kept |
| GenericGraph.WithoutEdge | Assets/Scripts/Graph.cs:45-55 | RemoveEdge(a, b) drops b from a's set and a from b's set where those keys exist, touches no other set and keeps closure |
| GenericGraph.Graph.constructor | Assets/Scripts/Graph.cs:9-12 | a new graph is empty and closed |
| GenericGraph.Graph.Clear | Assets/Scripts/Graph.cs:14-17 | the adjacency list becomes empty |
| GenericGraph.Graph.RemoveNode | Assets/Scripts/Graph.cs:19-30 | the new adjacency list is WithoutNode of the old; closure kept |
| GenericGraph.Graph.AddNode | Assets/Scripts/Graph.cs:37-43 | the new adjacency list is WithNode of the old; closure kept |
| GenericGraph.Graph.RemoveEdge | Assets/Scripts/Graph.cs:45-55 | the new adjacency list is WithoutEdge of the old; closure kept |
| GenericGraph.Graph.AddEdge | Assets/Scripts/Graph.cs:57-77 | the new adjacency list is WithEdge of the old; closure kept |
| GenericGraph.Graph.GetNodes | Assets/Scripts/Graph.cs:32-35 | the keys, each once |
| GenericGraph.Graph.GetNeighbors | Assets/Scripts/Graph.cs:79-82 | the node's neighbour set, each once |
| GenericGraph.Graph.GetNodeCount | Assets/Scripts/Graph.cs:84-87 | the number of keys |
| GenericGraph.Graph.BFS | Assets/Scripts/Graph.cs:98-119 | visits v first, each node once, and exactly the nodes reachable from v |
| GenericGraph.Graph.DFS | Assets/Scripts/Graph.cs:122-141 | visits v first, each node once, and exactly the nodes reachable from v |
| Search.Dequeue | Assets/Scripts/Graph.cs:106-118 | one round of the queue loop: a neighbour is marked discovered before it is enqueued, so it is enqueued at most once; the frontier invariant holds and the measure of unvisited work drops |
| Search.BreadthFirst | Assets/Scripts/Graph.cs:98-119 | the queue-based search from s with a pre-discovered blocked set visits s first, each node once, and exactly the nodes reachable from s avoiding the blocked set |
| Search.PushNeighbours | Assets/Scripts/Graph.cs:135-138 | pushing every neighbour of the newly marked node restores the stack invariant |
| Search.Pop | Assets/Scripts/Graph.cs:128-139 | one pop of the stack loop keeps the invariant and marks a node when it is popped, shrinking the unvisited set |
| Search.DepthFirst | Assets/Scripts/Graph.cs:122-141 | the stack-based search visits s first, each reachable node exactly once, and nothing else |
| Reach.ReachWithinClosed | Assets/Scripts/Graph.cs:98-119 | a set closed under the unblocked neighbour relation that contains the start holds everything the search reaches |
| Reach.BlockedUnreached | Assets/Scripts/DungeonGeneration/Graph/Graph.cs:182-206 | a node pre-marked as discovered is never reached |
| Reach.CountMeansAll | Assets/Scripts/DungeonGeneration/Graph/Graph.cs:204-205 | counting the discovered set against the node count means "every node other than v was reached" |
| DoorGraph.WithoutNodeAndDoorsMeaning | Assets/Scripts/DungeonGeneration/Graph/Graph.cs:21-53 | RemoveNode(n) drops n and every door node that had n as a neighbour, as keys and from every remaining set; nothing else changes |
| DoorGraph.WithoutNodeAndDoorsClosed | Assets/Scripts/DungeonGeneration/Graph/Graph.cs:21-53 | RemoveNode keeps every neighbour a key |
| DoorGraph.RemoveNodeSteps | Assets/Scripts/DungeonGeneration/Graph/Graph.cs:21-53 | removing the key, stripping n from every set, then pruning the collected doors, in the source's order, gives the intended result |
| DoorGraph.RemoveNodeValid | Assets/Scripts/DungeonGeneration/Graph/Graph.cs:21-53 | the key order loses exactly n and its doors, and stays distinct and in step with the keys |
| DoorGraph.AddEdgeValid | Assets/Scripts/DungeonGeneration/Graph/Graph.cs:87-110 | AddEdge's appended key order still lists each key exactly once |
| DoorGraph.IsolationStart | Assets/Scripts/DungeonGeneration/Graph/Graph.cs:187 | the search start is a key and, with distinct keys, never v itself |
| DoorGraph.Graph.constructor | Assets/Scripts/DungeonGeneration/Graph/Graph.cs:11-14 | an empty, valid graph |
| DoorGraph.Graph.Clear | Assets/Scripts/DungeonGeneration/Graph/Graph.cs:16-19 | no keys remain, so the node count is 0 |
| DoorGraph.Graph.CollectDoors | Assets/Scripts/DungeonGeneration/Graph/Graph.cs:28-38 | the first loop strips n from every set and collects exactly the door nodes whose set held n, each once |
| DoorGraph.Graph.RemoveFromAllSets | Assets/Scripts/DungeonGeneration/Graph/Graph.cs:48-51 | x is dropped from every set and nothing else changes |
| DoorGraph.Graph.RemoveCollected | Assets/Scripts/DungeonGeneration/Graph/Graph.cs:40-52 | every collected door is removed as a key, from the key order and from every set |
| DoorGraph.Graph.RemoveNode | Assets/Scripts/DungeonGeneration/Graph/Graph.cs:21-53 | the new state is WithoutNodeAndDoors of the old, with the key order filtered alike; validity kept |
| DoorGraph.Graph.GetNodes | Assets/Scripts/DungeonGeneration/Graph/Graph.cs:56-59 | the keys in dictionary order, each once |
| DoorGraph.Graph.GetNodeByIndex | Assets/Scripts/DungeonGeneration/Graph/Graph.cs:61-64 | the key at that position of the dictionary order |
| DoorGraph.Graph.AddNode | Assets/Scripts/DungeonGeneration/Graph/Graph.cs:66-72 | idempotent WithNode, a new key appended to the key order; validity kept |
| DoorGraph.Graph.RemoveEdge | Assets/Scripts/DungeonGeneration/Graph/Graph.cs:74-85 | WithoutEdge of the old adjacency, key order unchanged; validity kept |
| DoorGraph.Graph.AddEdge | Assets/Scripts/DungeonGeneration/Graph/Graph.cs:87-110 | WithEdge of the old adjacency, new keys appended in the order from, to, e; validity kept |
| DoorGraph.Graph.GetNeighbors | Assets/Scripts/DungeonGeneration/Graph/Graph.cs:112-115 | the node's neighbour set, each once |
| DoorGraph.Graph.GetNodeCount | Assets/Scripts/DungeonGeneration/Graph/Graph.cs:117-120 | the number of keys |
| DoorGraph.Graph.BFS | Assets/Scripts/DungeonGeneration/Graph/Graph.cs:137-158 | visits v first, each node once, exactly the reachable nodes |
| DoorGraph.Graph.DFS | Assets/Scripts/DungeonGeneration/Graph/Graph.cs:161-180 | visits v first, each node once, exactly the reachable nodes |
| DoorGraph.Graph.IsConnectedWhenRemoving | Assets/Scripts/DungeonGeneration/Graph/Graph.cs:182-206 | true iff the search from the first key other than v, with v pre-discovered, counts every key; for a key v, true iff every other key is reachable from that start without passing through v |
| DoorGraph.IsolationMeaning | Assets/Scripts/DungeonGeneration/Graph/Graph.cs:182-206 | the count test is equivalent to "every node other than v is reachable while avoiding v" |
| RoomLinks.DoorNode.constructor | Assets/Scripts/DungeonGeneration/Graph/DoorNode.cs:11-14 | the door keeps its rectangle and a fresh two-slot array with both rooms unset |
| RoomLinks.OtherOfFirst | Assets/Scripts/DungeonGeneration/Graph/DoorNode.cs:22-25 | GetOtherRoom of a room equal to the first slot is the second slot |
| RoomLinks.OtherOfNonFirst | Assets/Scripts/DungeonGeneration/Graph/DoorNode.cs:22-28 | for any other argument, GetOtherRoom is the first slot |
| RoomLinks.OtherRoomTwice | Assets/Scripts/DungeonGeneration/Graph/DoorNode.cs:22-28 | for a door between two different rooms, GetOtherRoom of either gives the other, and applying it twice gives the room back |
| RoomLinks.DoorSameIsPairCover | Assets/Scripts/DungeonGeneration/Graph/DoorNode.cs:30-36 | == holds iff the rooms of the left door are among those of the right; between doors on two distinct rooms it is unordered-pair equality, and symmetric |
| RoomLinks.DoorSameSwapped | Assets/Scripts/DungeonGeneration/Graph/DoorNode.cs:30-36 | a door on (a, b) equals a door on (b, a), both ways |
| RoomLinks.DoorDifferIsNotSame | Assets/Scripts/DungeonGeneration/Graph/DoorNode.cs:38-44 | != is exactly the negation of == |
| RoomLinks.DoorEqualsAgrees | Assets/Scripts/DungeonGeneration/Graph/DoorNode.cs:46-65 | both Equals overloads agree with == for a door argument; Equals(object) is false for anything else |
| RoomLinks.EqualDoorsHashApart | Assets/Scripts/DungeonGeneration/Graph/DoorNode.cs:67-70 | two door objects with their own room arrays never share a hash key (the pair the hash code is computed from), even when == holds |
| RoomLinks.RoomEqualityAgrees | Assets/Scripts/DungeonGeneration/Graph/RoomNode.cs:67-95 | room ==, != and both Equals overloads all compare the rectangles; Equals(object) is false for a non-room; equal rooms share a hash key |
| RoomLinks.RoomNode.constructor | Assets/Scripts/DungeonGeneration/Graph/RoomNode.cs:12-15 | a room with its rectangle and no doors |
| RoomLinks.RoomNode.GetConnectedRooms | Assets/Scripts/DungeonGeneration/Graph/RoomNode.cs:23-31 | one entry per door of the room, that door's other room |
| RoomLinks.ConnectedRoomsMeaning | Assets/Scripts/DungeonGeneration/Graph/RoomNode.cs:23-31 | the rectangles of the connected rooms are exactly the room's neighbours in the room graph |
| RoomLinks.RoomNode.ClearConnections | Assets/Scripts/DungeonGeneration/Graph/RoomNode.cs:33-39 | the room has no doors left; each former door is gone from its other room's set; other rooms keep their remaining doors; the links stay consistent |
| RoomLinks.StartRoom | Assets/Scripts/DungeonGeneration/Graph/RoomNode.cs:46 | the search starts at list[0], or at list[1] when list[0] equals this room; with distinct rectangles that start is never this room |
| RoomLinks.RoomNode.CanBeRemovedWithoutConnectionsSeparation | Assets/Scripts/DungeonGeneration/Graph/RoomNode.cs:41-65 | true iff the breadth-first search from the start room, with this room pre-discovered, discovers as many rooms as the list holds |
| RoomLinks.SearchAround | Assets/Scripts/DungeonGeneration/Graph/RoomNode.cs:46-62 | the discovered set of the search is the start, the blocked room and everything reachable from the start without passing the blocked room |
| RoomLinks.DequeueRoom | Assets/Scripts/DungeonGeneration/Graph/RoomNode.cs:53-61 | one round of the queue loop keeps the search state and shrinks the work left |
| RoomLinks.EnqueueUndiscovered | Assets/Scripts/DungeonGeneration/Graph/RoomNode.cs:54-61 | exactly the not-yet-discovered connected rooms are enqueued, in order, and all become discovered |
| RoomLinks.RemovableMeansConnected | Assets/Scripts/DungeonGeneration/Graph/RoomNode.cs:41-65 | for a list of all rooms, the result is true iff every other room can be reached from the start room without passing through this room |
| RoomLinks.CountIsReach | Assets/Scripts/DungeonGeneration/Graph/RoomNode.cs:64 | the count comparison means "all rooms but v are reachable avoiding v" |
| EdgeSpanningTree.CheapestIsFirstMinimum | Assets/Scripts/DungeonGenerator.cs:500-513 | the chosen edge has exactly one endpoint outside the closed set, no such edge has a smaller distance, and every earlier such edge has a larger one: first in list order on ties |
| EdgeSpanningTree.PrimIsGreedy | Assets/Scripts/DungeonGenerator.cs:494-521 | every edge the loop keeps is the greedy choice for the closed set at that moment |
| EdgeSpanningTree.GreedyGrowsByOne | Assets/Scripts/DungeonGenerator.cs:515-520 | each kept edge adds exactly one new vertex to the closed set, so no edge repeats and there is no cycle |
| EdgeSpanningTree.ClosedNotChosen | Assets/Scripts/DungeonGenerator.cs:500-513 | an edge with both ends already closed is never chosen |
| EdgeSpanningTree.PrimStops | Assets/Scripts/DungeonGenerator.cs:494-521 | when the loop stops, every vertex is closed or no edge leaves the closed set by exactly one end |
| EdgeSpanningTree.SpanningWhenConnected | Assets/Scripts/DungeonGenerator.cs:479-524 | for a connected edge list that contains start, the result closes every vertex and has one edge fewer than there are vertices |
| EdgeSpanningTree.ChooseEdge | Assets/Scripts/DungeonGenerator.cs:496-513 | the inner loop finds an edge iff a candidate exists, and finds the first cheapest one |
| EdgeSpanningTree.MinimumSpanningTree | Assets/Scripts/DungeonGenerator.cs:479-524 | the result is the greedy sequence Prim of the edges, starting with only start closed |
| DoorSpanningTree.DoorNodes | Assets/Scripts/DungeonGeneration/MinimumSpanningTree.cs:14 | the candidates are exactly the door keys, in key order |
| DoorSpanningTree.CheapestDoorIsFirstMinimum | Assets/Scripts/DungeonGeneration/MinimumSpanningTree.cs:35-51 | a chosen door has exactly one neighbour outside the closed set and the least weight among such doors, first on ties |
| DoorSpanningTree.DoorPrimIsGreedy | Assets/Scripts/DungeonGeneration/MinimumSpanningTree.cs:29-60 | every kept door is the greedy choice for the closed set at that moment |
| DoorSpanningTree.GreedyDoorsGrowByOne | Assets/Scripts/DungeonGeneration/MinimumSpanningTree.cs:55-59 | each kept door closes exactly one new vertex; no door appears twice; every kept door is a candidate |
| DoorSpanningTree.ClosedDoorNotChosen | Assets/Scripts/DungeonGeneration/MinimumSpanningTree.cs:35-51 | a door whose neighbours are all closed is never chosen |
| DoorSpanningTree.DoorCountBound | Assets/Scripts/DungeonGeneration/MinimumSpanningTree.cs:29-59 | the kept doors are distinct candidates, and they never outnumber the distinct vertices they join |
| DoorSpanningTree.DoorPrimStops | Assets/Scripts/DungeonGeneration/MinimumSpanningTree.cs:29-53 | the loop stops once the open set is empty or no door has exactly one open neighbour |
| DoorSpanningTree.CountOpen | Assets/Scripts/DungeonGeneration/MinimumSpanningTree.cs:37-43 | counts the door's neighbours outside the closed set |
| DoorSpanningTree.ChooseDoor | Assets/Scripts/DungeonGeneration/MinimumSpanningTree.cs:35-51 | throws iff a candidate door has fewer than two neighbours (DoorEdgeDistance reads the second); otherwise finds a door iff a candidate exists, and finds the first cheapest one |
| DoorSpanningTree.AllEndpoints | Assets/Scripts/DungeonGeneration/MinimumSpanningTree.cs:16-23 | the open set starts as the union of the doors' neighbour sets |
| DoorSpanningTree.CloseDoor | Assets/Scripts/DungeonGeneration/MinimumSpanningTree.cs:55-59 | the chosen door's neighbours leave the open set and join the closed set |
| DoorSpanningTree.Round | Assets/Scripts/DungeonGeneration/MinimumSpanningTree.cs:31-59 | one round throws exactly when its inner loop meets a one-neighbour candidate, or stops with the remaining greedy sequence empty, or moves the next greedy door to the result and shrinks the open set; whether a later round throws is unchanged |
| DoorSpanningTree.TwoEndedDoorsNeverThrow | Assets/Scripts/DungeonGeneration/Graph/Graph.cs:128-132 | when every door has at least two neighbours, as the dungeon's doors do, no round throws in DoorEdgeDistance |
| DoorSpanningTree.LoneNeighbourThrows | Assets/Scripts/DungeonGeneration/Graph/Graph.cs:128-132 | a candidate door with a single neighbour makes the first round throw |
| DoorSpanningTree.GetMinimumSpanningTree | Assets/Scripts/DungeonGeneration/MinimumSpanningTree.cs:9-63 | an empty graph throws at GetNodeByIndex(0); otherwise it throws iff DoorPrimThrows, and else returns DoorPrim over the door keys with the first key closed; the graph is only read |
| DungeonGenerator.HorizontalSplitShape | Assets/Scripts/DungeonGenerator.cs:66-82 | both children keep x and the width; the first starts at the parent's y; the second ends at its top; the heights sum to the parent's plus twice the half wall |
| DungeonGenerator.VerticalSplitShape | Assets/Scripts/DungeonGenerator.cs:83-99 | the same on the width and x |
| DungeonGenerator.ChoiceOtherAxis | Assets/Scripts/DungeonGenerator.cs:101-148 | a split is kept only if both children exceed the minimum on the split axis; otherwise the other axis is tried; if that fails too the room stays a leaf |
| DungeonGenerator.ChoiceRuleShrinks | Assets/Scripts/DungeonGenerator.cs:101-148 | under the termination condition on the wall, every kept split makes both children strictly smaller, above the smaller minimal size |
| DungeonGenerator.WideWallKeepsParentSize | Assets/Scripts/DungeonGenerator.cs:66-81 | without the wall condition a kept split can give a child as large as its parent (wall 4, minimal height 3, a room 10 high cut at 8) |
| DungeonGenerator.PlannedIsPlan | Assets/Scripts/DungeonGenerator.cs:56-184 | the tree the recursive methods build step by step is exactly the split tree Plan |
| DungeonGenerator.SizeIsTwiceLeavesMinusOne | Assets/Scripts/DungeonGenerator.cs:58 | every node is a leaf or has two children, so the number of calls is twice the number of rooms minus one |
| DungeonGenerator.PlanLeavesWithin | Assets/Scripts/DungeonGenerator.cs:56-184 | every leaf room of the split tree lies inside the room the split started from |
| DungeonGenerator.RoomNode.constructor | Assets/Scripts/DungeonGenerator.cs:529-533 | a split-tree node with its rectangle and no children |
| DungeonGenerator.DoorRejected | Assets/Scripts/DungeonGenerator.cs:367-389 | a door is rejected exactly when the seam minus two walls is shorter than the door along the seam |
| DungeonGenerator.HorizontalDoorIsFixed | Assets/Scripts/DungeonGenerator.cs:367-382 | on a horizontal seam an accepted door is at (intersect.x + wall, intersect.y), with the configured size, whatever the draw |
| DungeonGenerator.VerticalDoorInRange | Assets/Scripts/DungeonGenerator.cs:383-397 | on a vertical seam an accepted door is at intersect.x with the configured size, and its y lies between one wall above the seam's bottom and two walls below its top when that range is not empty |
| DungeonGenerator.Generator.constructor | Assets/Scripts/DungeonGenerator.cs:13-36 | a generator with the given settings and draw stream, no rooms, and no draws used |
| DungeonGenerator.Generator.GenerateDungeon | Assets/Scripts/DungeonGenerator.cs:46-52 | the root room's split tree is Plan of the dungeon rectangle; Rooms gains its leaves in left-to-right order; the call count and the draws used both grow by the tree's size |
| DungeonGenerator.Generator.RecursionSplit | Assets/Scripts/DungeonGenerator.cs:56-184 | the Room1/Room2 links below the start room form the planned split tree; Rooms gains exactly its leaves in order; one draw and one count per node |
| DungeonGenerator.Generator.SplitRooms | Assets/Scripts/DungeonGenerator.cs:61-148 | a split is kept iff the split rule keeps one; then the two children are the rule's, and both are strictly smaller |
| DungeonGenerator.Generator.SplitChildren | Assets/Scripts/DungeonGenerator.cs:168-182 | the two new children are linked as Room1 and Room2, and the first is split with the axis flipped |
| DungeonGenerator.Generator.SplitSecondChild | Assets/Scripts/DungeonGenerator.cs:183 | the second child is split with the axis flipped, after the draws of the first |
| DungeonGenerator.Generator.GenerateDoor | Assets/Scripts/DungeonGenerator.cs:354-409 | consumes exactly one draw before any rejection test; the result is the door placement for that draw, and placed iff a door is returned; nothing else changes |
| Geometry.HalfTowardZero | Assets/Scripts/DungeonGenerator.cs:75 | C#'s `_wallWidth / 2`: twice the result is within one of n, truncated toward zero for negative n |
| Geometry.TruncateToInt | Assets/Scripts/DungeonGenerator.cs:68 | the `(int)` cast of a float: the greatest integer not above a non-negative value, the least not below a negative one |
| Geometry.Clamp | Assets/Scripts/DungeonGenerator.cs:393 | Mathf.Clamp: inside the bounds when they are ordered, and the value itself when it already lies between them |
| PathFinding.TryGetTileByPosition | Assets/Scripts/Pathfinding/PathFinder.cs:197-198 | finds a tile of the group at the target position iff one exists |
| PathFinding.PathFindingMap.constructor | Assets/Scripts/Pathfinding/PathFinder.cs:62 | an empty map |
| PathFinding.LookupFindsCell | Assets/Scripts/Pathfinding/PathFinder.cs:110-115 | in a built map, looking up a cell's centre in the cell's group finds that cell's tile |
| PathFinderInit.DirectionsCoverage | Assets/Scripts/Pathfinding/PathFinder.cs:90-97 | the eight offsets list forward+right twice, omit forward+left, and otherwise cover every neighbouring cell |
| PathFinderInit.ConnectedNeighbour | Assets/Scripts/Pathfinding/PathFinder.cs:107-118 | the lookup TryAddTileConnections does finds the neighbouring cell's tile exactly when that cell is inside the grid |
| PathFinderInit.TryAddTileConnections | Assets/Scripts/Pathfinding/PathFinder.cs:107-118 | an out-of-range target changes nothing; otherwise the two tiles are linked in both directions; the groups are unchanged |
| PathFinderInit.TryDirection | Assets/Scripts/Pathfinding/PathFinder.cs:90-97 | one try along an offset links the tile with its neighbour that way when that cell is in the grid, and does nothing otherwise |
| PathFinderInit.ConnectStraight | Assets/Scripts/Pathfinding/PathFinder.cs:90-93 | the back, forward, left and right tries, in that order |
| PathFinderInit.ConnectDiagonal | Assets/Scripts/Pathfinding/PathFinder.cs:94-97 | the four diagonal tries as written, forward+right twice |
| PathFinderInit.LinkedLinks | Assets/Scripts/Pathfinding/PathFinder.cs:115-116 | one successful call adds exactly the link pair between the two tiles, both ways |
| PathFinderInit.ConnectTile | Assets/Scripts/Pathfinding/PathFinder.cs:88-98 | the eight tries for one tile, in order |
| PathFinderInit.ConnectGroupTiles | Assets/Scripts/Pathfinding/PathFinder.cs:88-98 | the eight tries for every tile of group i, in the group's order |
| PathFinderInit.LinkGroup | Assets/Scripts/Pathfinding/PathFinder.cs:81-99 | one round of the third loop: the group's connected groups are set and its tiles linked |
| PathFinderInit.LinkAllLinks | Assets/Scripts/Pathfinding/PathFinder.cs:88-98 | the eight tries add exactly the links between the tile and its in-grid neighbours along the eight offsets |
| PathFinderInit.SpokesOfGrid | Assets/Scripts/Pathfinding/PathFinder.cs:81-99 | because links go both ways, the offsets of all tiles together link every pair of touching cells, despite the missing offset |
| PathFinderInit.AddGroups | Assets/Scripts/Pathfinding/PathFinder.cs:65-68 | one group per room, in room order, at the room's centre with no tiles |
| PathFinderInit.AddTiles | Assets/Scripts/Pathfinding/PathFinder.cs:70-79 | one tile per grid cell at the cell's centre, walkable iff the tile map holds 0 there, listed by the group the room-index map names |
| PathFinderInit.AddTile | Assets/Scripts/Pathfinding/PathFinder.cs:74-77 | one new tile for cell (z, x), at its centre, walkable iff 0, added to its room's group |
| PathFinderInit.AddConnectedGroups | Assets/Scripts/Pathfinding/PathFinder.cs:83-86 | group i gets the given connected groups, nothing else changes |
| PathFinderInit.LinkGroups | Assets/Scripts/Pathfinding/PathFinder.cs:81-99 | the third loop over the groups, as a fold of the per-group steps |
| PathFinderInit.CreatePathFindingMap | Assets/Scripts/Pathfinding/PathFinder.cs:60-102 | one group per room, one tile per cell in its room's group, at the cell centre, walkable iff 0; two tiles are linked iff their cells touch |
| BestFirst.InsertDesc | Assets/Scripts/Pathfinding/PathFinder.cs:371-372 | inserting an entry adds exactly it to the frontier's contents |
| BestFirst.SortDesc | Assets/Scripts/Pathfinding/PathFinder.cs:372 | OrderByDescending permutes the frontier |
| BestFirst.AppendThenSort | Assets/Scripts/Pathfinding/PathFinder.cs:371-372 | appending to a sorted frontier and re-sorting is a stable insertion, and the frontier stays sorted descending |
| BestFirst.PoppedIsLowest | Assets/Scripts/Pathfinding/PathFinder.cs:342-343 | the popped last entry has the lowest priority |
| BestFirst.NewestWinsTies | Assets/Scripts/Pathfinding/PathFinder.cs:371-372 | the new entry goes after every entry of equal priority, so among ties the newest is popped first |
| BestFirst.InsertIndexBetween | Assets/Scripts/Pathfinding/PathFinder.cs:372 | where the stable sort puts the new entry: after every entry of greater or equal priority and before every lower one |
| BestFirst.BackIsWalk | Assets/Scripts/Pathfinding/PathFinder.cs:383-397 | the parent chain read backwards from a discovered node is a walk from the start along links out of expandable nodes |
| BestFirst.Visit | Assets/Scripts/Pathfinding/PathFinder.cs:356-372 | a neighbour enters discovered once and gets its cost and parent only then; the `else if (c[w] > newCost)` branch never runs |
| BestFirst.Expand | Assets/Scripts/Pathfinding/PathFinder.cs:354-373 | expanding the popped node discovers all its neighbours and keeps the search invariant |
| BestFirst.Advance | Assets/Scripts/Pathfinding/PathFinder.cs:342-373 | one round: pop the lowest entry; a non-walkable node is not expanded; the invariant holds and the search makes progress |
| BestFirst.Explore | Assets/Scripts/Pathfinding/PathFinder.cs:340-377 | finds end iff end is reachable through expandable nodes; then the parents form a tree rooted at start; at most one pop per node plus one |
| BestFirst.GoalPopped | Assets/Scripts/Pathfinding/PathFinder.cs:345-349 | when end is popped its parent chain reaches the start (end may itself be non-walkable) |
| BestFirst.Exhausted | Assets/Scripts/Pathfinding/PathFinder.cs:376-377 | an exhausted frontier that never popped end means end is unreachable |
| PathFinder.TileLookup | Assets/Scripts/Pathfinding/PathFinder.cs:197-198 | the look-up of a position: out of range iff its cell is off the grid; otherwise the tile found at the target, or proof that none exists |
| PathFinder.ReconstructPathPart | Assets/Scripts/Pathfinding/PathFinder.cs:383-397 | the positions of the parent chain from start to end, in walking order |
| PathFinder.ChainPositions | Assets/Scripts/Pathfinding/PathFinder.cs:388-394 | the loop collects the positions of the parent chain from end back to start |
| PathFinder.FindTilePath | Assets/Scripts/Pathfinding/PathFinder.cs:331-378 | empty iff end is unreachable; otherwise a route from start to end along links whose tiles before the last are walkable; [start.Position] when start == end; at most #tiles + 1 pops |
| PathFinder.GroupOf | Assets/Scripts/Pathfinding/PathFinder.cs:244-245 | the group the room-index map names for a tile holds that tile |
| PathFinder.LinkDoorTiles | Assets/Scripts/Pathfinding/PathFinder.cs:302-311 | the first loop and line 311 build the tile-parent links from end through the door tiles to start, or fail when a door tile is missing |
| PathFinder.WalkTileParents | Assets/Scripts/Pathfinding/PathFinder.cs:313-321 | the second loop and the reversal give the waypoint chain from start to end |
| PathFinder.ReconstructGroupPath | Assets/Scripts/Pathfinding/PathFinder.cs:290-322 | returns iff every door tile on the group chain is found, and then the waypoints start, door tiles, end, with repeats cut out |
| PathFinder.GroupWaypoints | Assets/Scripts/Pathfinding/PathFinder.cs:290-322 | those waypoints run from start to end through distinct tiles of the map |
| PathFinder.FindGroupPath | Assets/Scripts/Pathfinding/PathFinder.cs:242-285 | empty iff the end group is unreachable; otherwise ReconstructGroupPath along the group chain, which then runs from start to end; [start] when start == end |
| PathFinder.JoinSegments | Assets/Scripts/Pathfinding/PathFinder.cs:225-232 | the result is the concatenation of one tile-search segment per pair of consecutive waypoints |
| PathFinder.AStar | Assets/Scripts/Pathfinding/PathFinder.cs:195-206 | null when an end tile is not found (not the empty list the doc comment promises); an exception when its index is off the map; otherwise the tile search between the two tiles |
| PathFinder.GroupedAStar | Assets/Scripts/Pathfinding/PathFinder.cs:211-235 | the same end-tile outcomes; then an exception exactly when the group search fails (groupPath[0] on an empty list) or a door tile is missing; otherwise the joined segments between waypoints that run from start to end |
| PathFinder.GroupedBetween | Assets/Scripts/Pathfinding/PathFinder.cs:223-234 | from two found end tiles: an exception exactly when the group search fails or a door tile is missing, else the joined segments between the waypoints |
| PathFinder.FindPath | Assets/Scripts/Pathfinding/PathFinder.cs:172-190 | dispatches to AStar or GroupedAStar and returns its outcome |
| PathFinder.JoinRepeatsWaypoint | Assets/Scripts/Pathfinding/PathFinder.cs:227-232 | an inner waypoint appears twice in a row in the joined path when the segments on both sides of it are non-empty |
| Triangulation.AlmostEqualFloat | Assets/Scripts/DTriangulation.cs:146-150 | the relative-epsilon test alone, since the float.MinValue disjunct never holds; reflexive; only 0 is almost equal to 0 |
| Triangulation.AlmostEqualVertex | Assets/Scripts/DTriangulation.cs:152-155 | both coordinates almost equal; true for equal positions |
| Triangulation.AlmostEqualEdge | Assets/Scripts/DTriangulation.cs:197-201 | the endpoints almost equal in either order; true for an edge and itself or its reversal |
| Triangulation.AlmostEqualEdgeSymmetric | Assets/Scripts/DTriangulation.cs:197-201 | Edge.AlmostEqual is symmetric |
| Triangulation.EdgeEq | Assets/Scripts/DTriangulation.cs:172-175 | == holds iff the left endpoints are among the right ones: unordered-pair equality for a proper edge; every edge equals itself |
| Triangulation.EdgeNe | Assets/Scripts/DTriangulation.cs:177-179 | != is the negation of == |
| Triangulation.EdgeEquals | Assets/Scripts/DTriangulation.cs:181-191 | Equals agrees with == for an edge and is false for anything else |
| Triangulation.EdgeHash | Assets/Scripts/DTriangulation.cs:193-195 | the XOR of the endpoint hashes; 0 for a degenerate edge |
| Triangulation.EdgeReversal | Assets/Scripts/DTriangulation.cs:172-195 | Edge(a, b) == Edge(b, a) both ways, with the same hash |
| Triangulation.EdgeEqProper | Assets/Scripts/DTriangulation.cs:172-195 | for a proper edge == is symmetric and equal edges hash alike |
| Triangulation.DegenerateEdgeEq | Assets/Scripts/DTriangulation.cs:172-175 | Edge(x, x) == Edge(x, y) but not the reverse, and their hashes can differ: == is not symmetric on degenerate edges |
| Triangulation.TriangleEq | Assets/Scripts/DTriangulation.cs:248-252 | == holds iff the corners of the left are among those of the right |
| Triangulation.TriangleNe | Assets/Scripts/DTriangulation.cs:254-256 | != is the negation of == |
| Triangulation.TriangleEquals | Assets/Scripts/DTriangulation.cs:258-268 | Equals agrees with == for a triangle and is false for anything else |
| Triangulation.TrianglePermutation | Assets/Scripts/DTriangulation.cs:248-272 | == holds both ways under any reordering of the corners, and the XOR hash does not change |
| Triangulation.Where | Assets/Scripts/DTriangulation.cs:79 | RemoveAll/Where keeps exactly the elements with the wanted flag |
| Triangulation.CollectedApart | Assets/Scripts/DTriangulation.cs:109-131 | no two collected edges are equal with equal hashes |
| Triangulation.CollectedCovers | Assets/Scripts/DTriangulation.cs:109-131 | every side offered has an equal collected edge with the same hash |
| Triangulation.CollectedEdgesDiffer | Assets/Scripts/DTriangulation.cs:109-131 | for proper triangles the collected edges join pairwise different vertex pairs |
| Triangulation.CollectedEdgesCover | Assets/Scripts/DTriangulation.cs:109-131 | for proper triangles every side of every triangle has a collected edge on the same vertex pair |
| Triangulation.SurvivorsMeaning | Assets/Scripts/DTriangulation.cs:82-94 | a polygon edge survives iff no other polygon edge is almost equal to it; the survivors are pairwise not almost equal |
| Triangulation.CancelAlmostEqual | Assets/Scripts/DTriangulation.cs:82-94 | the marking loops and the removal leave exactly the survivors |
| Triangulation.Swept | Assets/Scripts/DTriangulation.cs:63-102 | the triangles left after the vertex loop: those of the start whose circumcircle holds no vertex |
| Triangulation.DTriangulation.constructor | Assets/Scripts/DTriangulation.cs:15-19 | empty vertices, edges and triangles |
| Triangulation.DTriangulation.BreakBadTriangles | Assets/Scripts/DTriangulation.cs:65-79 | the bad triangles are removed and their sides form the polygon |
| Triangulation.DTriangulation.CollectEdges | Assets/Scripts/DTriangulation.cs:109-131 | Edges gains exactly the unique-edge collection of the triangles' sides |
| Triangulation.DTriangulation.Offer | Assets/Scripts/DTriangulation.cs:117-130 | HashSet.Add: the edge is added iff no stored edge equals it with the same hash |
| Triangulation.DTriangulation.Triangulate | Assets/Scripts/DTriangulation.cs:30-132 | with no vertices, indexing Vertices[0] throws and nothing changes; otherwise the swept triangles without the super-triangle's remain, and Edges gains their unique sides |
| Triangulation.TriangulateGraph | Assets/Scripts/DTriangulation.cs:21-28 | the static entry point always throws, because it empties Vertices before triangulating |
| Triangulation.NoTrianglesCreated | Assets/Scripts/DTriangulation.cs:59 | with triangle creation commented out, a triangulation that starts empty ends with no triangles and no edges |

## Left out

- Triangulation geometry is left out: the circumcircle test (`Assets/Scripts/DTriangulation.cs:228-247`), the super-triangle's bounds (36-56) and `ContainsVertex` with its 0.01 tolerance (221-226). They are floating-point geometry. They become the predicates `inCircle` and `superTouch`, passed as parameters.
- `FillGraph` (`Assets/Scripts/DungeonGenerator.cs:186-352`) is left out. It is float geometry around the triangulation, plus a debug search.
- `DualLinkedVertex` and the `GraphNode` classes of `DTriangulation.cs` are left out. Vertices are abstract node values with a position.
- Floats are exact reals, with no rounding, no NaN and no infinity.
  - The `float.MinValue` disjunct of the almost-equal test is kept as written; `Triangulation.AlmostEqualFloat` shows it never holds.
  - `Vector3.Distance` (`Cost` and `Heuristic`), `DoorEdgeDistance` and `Edge.Distance` are parameters. The index error `DoorEdgeDistance` raises on a door with fewer than two neighbours is modelled.
  - `GetClosestNodeToPosition` (`Assets/Scripts/Pathfinding/PathFinder.cs:406-428`) is a parameter `closest`.
  - The door position that `GetDoorTileConnectingGroups` (436-448) computes is a parameter `doorAt`.
- `PathFindingMap`, `PathFindingGroup` and `PathFindingTile` are not part of this model. They get the least behaviour the searches use. `GetGroupByPosition` becomes the `connected` list of group indexes passed to `CreatePathFindingMap`.
- `AlgorithmsUtils.Intersect` is not part of this model. `Geometry.Intersect` assumes it is the axis-aligned overlap of two rectangles.
- `System.Random` is a stream of draws given to the generator. `Mathf.Lerp` and `Mathf.Clamp` are written out on reals.
- Engine and async plumbing is left out: `Update`, `Traverse`, `Task.Delay`, debug drawing and logging, `PrintGraph`, `BatchMapDebug` and the discovered-points list. These are visualisation or timing.
- `ModifyReadWrite.cs`, `DungeonFiller.cs` and `AgentController.cs` are not part of this model. They are editor file I/O, GameObject instancing and coroutine movement.
- `DungeonGenerator.Generator.RecursionSplit`: requires `Shrinking`: twice the half wall (the wall width divided by 2, truncated toward zero) is at most the minimal room size on both axes. Negative walls and negative minimal sizes are accepted when this holds. Without it a kept split can give a child as large as its parent (`WideWallKeepsParentSize`), and then the source can split forever. `GenerateDungeon`, `SplitRooms`, `SplitChildren` and `SplitSecondChild` require the same.
- `GenericGraph.Graph.BFS`, `GenericGraph.Graph.DFS`, `DoorGraph.Graph.BFS`, `DoorGraph.Graph.DFS`: require a start that is a key. On any other start the source throws a `KeyNotFoundException` on the first neighbour look-up; that path is not modelled.
- `GenericGraph.Graph.GetNeighbors`, `DoorGraph.Graph.GetNeighbors`: require a key, for the same reason.
- `DoorGraph.Graph.IsConnectedWhenRemoving`: requires a valid graph and a second key when the first key is v. The source reads `keys[1]` then and throws otherwise; the throwing path is not modelled.
- `RoomLinks.RoomNode.CanBeRemovedWithoutConnectionsSeparation`: requires a list of at least one room, and of two when the first is this room, for the same reason. It also requires the room links to be consistent.
- `RoomLinks.RoomNode.ClearConnections`: requires consistent links and no door that leads back to the same room.
- `DoorGraph.Graph.RemoveNode` and the other mutators: require the graph's validity invariant. The key-order sequence lists each key once and every neighbour is a key. The constructor establishes it and every mutator keeps it.
- Dictionary enumeration order is insertion order with removals deleted in place. The reuse of freed slots by .NET's `Dictionary` after a removal is not modelled.
- `Triangulation.DTriangulation.Triangulate`: the instance method starts from the vertices it is given. The static `Triangulate` empties them first, which `TriangulateGraph` models.
