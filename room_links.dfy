/**
 * Assets/Scripts/DungeonGeneration/Graph/RoomNode.cs and DoorNode.cs: the
 * room and door objects that link the rooms of a finished dungeon. A room
 * keeps the set of its doors; a door keeps a two-slot array of the rooms it
 * joins. Rooms compare by their rectangle (the overloaded `==`, `Equals` and
 * `GetHashCode` all look only at `Dimensions`), so a HashSet of rooms is a
 * set of rectangles. Doors compare as unordered pairs of rooms, but their
 * hash code mixes in the reference of the array, so a HashSet of doors
 * holds door objects by identity: that is how `DoorNodes` is modelled.
 *
 * A C# `object` argument of `Equals` is the datatype `Object` below.
 */
module RoomLinks {
  import opened Geometry
  import opened Collections
  import opened Reach
  import opened Search

  /** What an `Equals(object)` argument can be: a room, a door, or anything else (null included). */
  datatype Object = RoomObject(room: RoomNode) | DoorObject(door: DoorNode) | OtherObject

  class DoorNode {
    const Dimensions: RectInt
    /** The two rooms the door joins; filled in by the code that builds the dungeon's doors. */
    const ConnectedRooms: array<RoomNode?>

    constructor (dimensions: RectInt)
      ensures Dimensions == dimensions
      ensures fresh(ConnectedRooms) && ConnectedRooms.Length == 2
      ensures ConnectedRooms[0] == null && ConnectedRooms[1] == null
    {
      Dimensions := dimensions;
      ConnectedRooms := new RoomNode?[2](_ => null);
    }

    /** GetOtherRoom compares its argument with the first slot, which throws when that slot is empty. */
    ghost predicate Attached()
      reads ConnectedRooms
    {
      ConnectedRooms.Length == 2 && ConnectedRooms[0] != null
    }

    /** Both slots are filled: the door joins two rooms. The equality operators read all four slots. */
    ghost predicate Wired()
      reads ConnectedRooms
    {
      Attached() && ConnectedRooms[1] != null
    }

    /** The second room when `roomNode` equals (by rectangle) the first, the first room otherwise. */
    function GetOtherRoom(roomNode: RoomNode): RoomNode?
      requires Attached()
      reads ConnectedRooms
    {
      if RoomNode.Same(ConnectedRooms[0], roomNode) then ConnectedRooms[1] else ConnectedRooms[0]
    }

    /** operator ==: each room of `left` is one of the rooms of `right`. */
    static function Same(left: DoorNode, right: DoorNode): bool
      requires left.Wired() && right.Wired()
      reads left.ConnectedRooms, right.ConnectedRooms
    {
      (RoomNode.Same(left.ConnectedRooms[0], right.ConnectedRooms[0]) ||
       RoomNode.Same(left.ConnectedRooms[0], right.ConnectedRooms[1])) &&
      (RoomNode.Same(left.ConnectedRooms[1], right.ConnectedRooms[0]) ||
       RoomNode.Same(left.ConnectedRooms[1], right.ConnectedRooms[1]))
    }

    /** operator !=, written out on its own in the source. */
    static function Differ(left: DoorNode, right: DoorNode): bool
      requires left.Wired() && right.Wired()
      reads left.ConnectedRooms, right.ConnectedRooms
    {
      (RoomNode.Differ(left.ConnectedRooms[0], right.ConnectedRooms[0]) &&
       RoomNode.Differ(left.ConnectedRooms[0], right.ConnectedRooms[1])) ||
      (RoomNode.Differ(left.ConnectedRooms[1], right.ConnectedRooms[0]) &&
       RoomNode.Differ(left.ConnectedRooms[1], right.ConnectedRooms[1]))
    }

    /** The protected Equals(DoorNode). */
    function EqualsDoor(other: DoorNode): bool
      requires Wired() && other.Wired()
      reads ConnectedRooms, other.ConnectedRooms
    {
      (RoomNode.Same(ConnectedRooms[0], other.ConnectedRooms[0]) ||
       RoomNode.Same(ConnectedRooms[0], other.ConnectedRooms[1])) &&
      (RoomNode.Same(ConnectedRooms[1], other.ConnectedRooms[0]) ||
       RoomNode.Same(ConnectedRooms[1], other.ConnectedRooms[1]))
    }

    /** Equals(object): the pair comparison for a door, false for anything else. */
    function Equals(obj: Object): bool
      requires Wired() && (obj.DoorObject? ==> obj.door.Wired())
      reads ConnectedRooms, if obj.DoorObject? then {obj.door.ConnectedRooms} else {}
    {
      match obj
      case DoorObject(d) =>
        (RoomNode.Same(ConnectedRooms[0], d.ConnectedRooms[0]) ||
         RoomNode.Same(ConnectedRooms[0], d.ConnectedRooms[1])) &&
        (RoomNode.Same(ConnectedRooms[1], d.ConnectedRooms[0]) ||
         RoomNode.Same(ConnectedRooms[1], d.ConnectedRooms[1]))
      case _ => false
    }

    /** What GetHashCode combines: the rectangle and the reference of the room array. */
    function HashKey(): (RectInt, array<RoomNode?>) {
      (Dimensions, ConnectedRooms)
    }
  }

  /** The first room of the door is given its second room back, and vice versa. */
  lemma OtherOfFirst(d: DoorNode, x: RoomNode)
    requires d.Attached() && RoomNode.Same(d.ConnectedRooms[0], x)
    ensures d.GetOtherRoom(x) == d.ConnectedRooms[1]
  {
  }

  /** Any room that differs from the first room by rectangle is given the first room. */
  lemma OtherOfNonFirst(d: DoorNode, x: RoomNode)
    requires d.Attached() && !RoomNode.Same(d.ConnectedRooms[0], x)
    ensures d.GetOtherRoom(x) == d.ConnectedRooms[0]
  {
  }

  /**
   * For a door between two rooms with different rectangles, GetOtherRoom
   * swaps them, so asking twice gives the room one started from.
   */
  lemma OtherRoomTwice(d: DoorNode, x: RoomNode)
    requires d.Wired() && !RoomNode.Same(d.ConnectedRooms[0], d.ConnectedRooms[1])
    requires x == d.ConnectedRooms[0] || x == d.ConnectedRooms[1]
    ensures d.GetOtherRoom(x) != null && d.GetOtherRoom(x) != x
    ensures d.GetOtherRoom(x) == d.ConnectedRooms[0] || d.GetOtherRoom(x) == d.ConnectedRooms[1]
    ensures d.GetOtherRoom(d.GetOtherRoom(x)) == x
  {
  }

  /** The rectangles of a door's two rooms, as a set. */
  ghost function Ends(d: DoorNode): set<RectInt>
    requires d.Wired()
    reads d.ConnectedRooms
  {
    {d.ConnectedRooms[0].Dimensions, d.ConnectedRooms[1].Dimensions}
  }

  /**
   * operator == holds exactly when the rooms of `left` are among the rooms
   * of `right`. When both doors join two rooms with different rectangles
   * that is equality of the two unordered pairs, so the order of the slots
   * does not matter and the operator is symmetric.
   */
  lemma DoorSameIsPairCover(left: DoorNode, right: DoorNode)
    requires left.Wired() && right.Wired()
    ensures DoorNode.Same(left, right) <==> Ends(left) <= Ends(right)
    ensures |Ends(left)| == 2 && |Ends(right)| == 2 ==>
              (DoorNode.Same(left, right) <==> Ends(left) == Ends(right))
    ensures |Ends(left)| == 2 && |Ends(right)| == 2 ==>
              DoorNode.Same(left, right) == DoorNode.Same(right, left)
  {
    if |Ends(left)| == 2 && |Ends(right)| == 2 && Ends(left) <= Ends(right) {
    }
  }

  /** A door on (a, b) equals a door on (b, a). */
  lemma DoorSameSwapped(left: DoorNode, right: DoorNode)
    requires left.Wired() && right.Wired()
    requires RoomNode.Same(left.ConnectedRooms[0], right.ConnectedRooms[1])
    requires RoomNode.Same(left.ConnectedRooms[1], right.ConnectedRooms[0])
    ensures DoorNode.Same(left, right) && DoorNode.Same(right, left)
  {
  }

  /** operator != is the negation of operator == (De Morgan). */
  lemma DoorDifferIsNotSame(left: DoorNode, right: DoorNode)
    requires left.Wired() && right.Wired()
    ensures DoorNode.Differ(left, right) == !DoorNode.Same(left, right)
  {
  }

  /** Both Equals overloads agree with operator ==; Equals(object) is false for a non-door. */
  lemma DoorEqualsAgrees(d: DoorNode, obj: Object)
    requires d.Wired() && (obj.DoorObject? ==> obj.door.Wired())
    ensures obj.DoorObject? ==> d.Equals(obj) == DoorNode.Same(d, obj.door) == d.EqualsDoor(obj.door)
    ensures !obj.DoorObject? ==> !d.Equals(obj)
  {
  }

  /**
   * Two door objects with their own room arrays never share a hash key,
   * even when operator == holds between them: a HashSet of doors tells
   * door objects apart by identity.
   */
  lemma EqualDoorsHashApart(left: DoorNode, right: DoorNode)
    requires left != right && left.ConnectedRooms != right.ConnectedRooms
    ensures left.HashKey() != right.HashKey()
  {
  }

  /**
   * The room comparisons all look at the rectangle alone: operator !=
   * negates operator ==, both Equals overloads agree with it, Equals(object)
   * is false for anything but a room, and equal rooms share a hash key.
   */
  lemma RoomEqualityAgrees(left: RoomNode, right: RoomNode, obj: Object)
    ensures RoomNode.Same(left, right) <==> left.Dimensions == right.Dimensions
    ensures RoomNode.Differ(left, right) == !RoomNode.Same(left, right)
    ensures left.Equals(RoomObject(right)) == RoomNode.Same(left, right) == left.EqualsRoom(right)
    ensures !obj.RoomObject? ==> !left.Equals(obj)
    ensures RoomNode.Same(left, right) ==> left.HashKey() == right.HashKey()
  {
  }

  class RoomNode {
    /** The doors of the room: a HashSet of doors, which holds door objects by identity. */
    var DoorNodes: set<DoorNode>
    const Dimensions: RectInt

    constructor (dimensions: RectInt)
      ensures Dimensions == dimensions && DoorNodes == {}
    {
      Dimensions := dimensions;
      DoorNodes := {};
    }

    /** operator ==: the same rectangle. */
    static function Same(left: RoomNode, right: RoomNode): bool {
      left.Dimensions == right.Dimensions
    }

    /** operator !=. */
    static function Differ(left: RoomNode, right: RoomNode): bool {
      left.Dimensions != right.Dimensions
    }

    /** Equals(object). */
    function Equals(obj: Object): bool {
      match obj
      case RoomObject(r) => Dimensions == r.Dimensions
      case _ => false
    }

    /** The protected Equals(RoomNode). */
    function EqualsRoom(other: RoomNode): bool {
      Dimensions == other.Dimensions
    }

    /** What GetHashCode combines: the rectangle alone. */
    function HashKey(): RectInt {
      Dimensions
    }

    /**
     * One entry per door, in the set's enumeration order: that door's other
     * room. `doors` is the enumeration order, each door once.
     */
    method GetConnectedRooms() returns (connectedRooms: seq<RoomNode?>, ghost doors: seq<DoorNode>)
      requires forall d :: d in DoorNodes ==> d.Attached()
      ensures Distinct(doors) && Elems(doors) == DoorNodes && |connectedRooms| == |doors|
      ensures forall i :: 0 <= i < |doors| ==> connectedRooms[i] == doors[i].GetOtherRoom(this)
    {
      connectedRooms, doors := [], [];
      var rest := DoorNodes;
      while rest != {}
        invariant rest <= DoorNodes && Elems(doors) == DoorNodes - rest && Distinct(doors)
        invariant |connectedRooms| == |doors|
        invariant forall i :: 0 <= i < |doors| ==> doors[i] in DoorNodes
        invariant forall i :: 0 <= i < |doors| ==> connectedRooms[i] == doors[i].GetOtherRoom(this)
        decreases rest
      {
        var door :| door in rest;
        AppendFresh(doors, door);
        connectedRooms := connectedRooms + [door.GetOtherRoom(this)];
        doors := doors + [door];
        rest := rest - {door};
      }
    }

    /**
     * Removes every door of this room from the other room it leads to, then
     * empties this room's own set. The source removes from the other room's
     * set while it enumerates this one, which throws unless the other room
     * is a different object.
     */
    method ClearConnections(ghost rooms: set<RoomNode>)
      requires Linked(rooms) && this in rooms
      requires forall d :: d in DoorNodes ==> d.GetOtherRoom(this) != this
      modifies rooms
      ensures DoorNodes == {} && Linked(rooms)
      ensures forall r :: r in rooms && r != this ==>
                r.DoorNodes == old(r.DoorNodes) - old(DoorsTo(DoorNodes, this, r))
      ensures forall d :: d in old(DoorNodes) ==> d !in d.GetOtherRoom(this).DoorNodes
    {
      var rest := DoorNodes;
      while rest != {}
        invariant rest <= old(DoorNodes) && DoorNodes == old(DoorNodes)
        invariant forall r :: r in rooms && r != this ==>
                    r.DoorNodes == old(r.DoorNodes) - DoorsTo(old(DoorNodes) - rest, this, r)
        decreases rest
      {
        var door :| door in rest;
        var other := door.GetOtherRoom(this);
        other.DoorNodes := other.DoorNodes - {door};
        rest := rest - {door};
      }
      DoorNodes := {};
      forall r, d | r in rooms && d in r.DoorNodes
        ensures d.Attached() && d.GetOtherRoom(r) in rooms
      {
        assert d in old(r.DoorNodes);
      }
    }

    /**
     * A breadth-first search over the rooms from the first room of `list`
     * (its second when the first equals this room), with this room
     * pre-marked as discovered; true when the search discovers as many
     * rooms as `list` holds. HashSet<RoomNode> compares rooms by rectangle,
     * so the discovered set is a set of rectangles, and `adj` is the
     * dungeon as an adjacency list over rectangles.
     */
    method CanBeRemovedWithoutConnectionsSeparation(list: seq<RoomNode>, ghost rooms: set<RoomNode>,
                                                    ghost adj: map<RectInt, set<RectInt>>)
      returns (separable: bool)
      requires |list| >= 1 && (Same(list[0], this) ==> |list| >= 2)
      requires Describes(adj, rooms) && this in rooms && StartRoom(list, this) in rooms
      ensures separable <==> |Discovered(adj, StartRoom(list, this).Dimensions, Dimensions)| == |list|
    {
      var startNode := if Same(list[0], this) then list[1] else list[0];
      var discovered := SearchAround(rooms, adj, startNode, this);
      separable := |discovered| == |list|;
    }
  }

  /**
   * The search of CanBeRemovedWithoutConnectionsSeparation: breadth-first
   * from `startNode`, with the rectangles of `startNode` and then of `v`
   * marked discovered before the loop starts.
   */
  method SearchAround(ghost rooms: set<RoomNode>, ghost adj: map<RectInt, set<RectInt>>, startNode: RoomNode,
                      v: RoomNode)
    returns (discovered: set<RectInt>)
    requires Describes(adj, rooms) && startNode in rooms
    ensures discovered == Discovered(adj, startNode.Dimensions, v.Dimensions)
  {
    DescribesClosed(adj, rooms);
    ghost var s := startNode.Dimensions;
    ghost var blocked := {v.Dimensions} - {s};
    discovered := {};
    var Q: seq<RoomNode> := [startNode];
    ghost var visited: seq<RectInt> := [];
    discovered := discovered + {startNode.Dimensions};
    discovered := discovered + {v.Dimensions};
    assert s in Rects(rooms);
    SearchStart(adj, s, v.Dimensions);
    assert visited + DimsOf(Q) == [s];
    ghost var done;
    discovered, done := SearchQueue(rooms, adj, s, blocked, Q, discovered);
    assert done + DimsOf([]) == done;
    SearchEnd(adj, s, v.Dimensions, done, discovered);
  }

  /** The loop of the search: dequeue rooms until the queue is empty. */
  method SearchQueue(ghost rooms: set<RoomNode>, ghost adj: map<RectInt, set<RectInt>>, ghost s: RectInt,
                     ghost blocked: set<RectInt>, Q0: seq<RoomNode>, discovered0: set<RectInt>)
    returns (discovered: set<RectInt>, ghost visited: seq<RectInt>)
    requires Describes(adj, rooms) && Closed(adj)
    requires SearchState(rooms, adj, s, blocked, [], Q0, discovered0)
    ensures SearchState(rooms, adj, s, blocked, visited, [], discovered)
  {
    var Q := Q0;
    discovered, visited := discovered0, [];
    while |Q| > 0
      invariant unchanged(rooms) && unchanged(DoorArrays(rooms))
      invariant SearchState(rooms, adj, s, blocked, visited, Q, discovered)
      decreases SearchLeft(adj, visited, Q)
    {
      ghost var u := Q[0].Dimensions;
      Q, discovered := DequeueRoom(rooms, adj, s, blocked, visited, Q, discovered);
      visited := visited + [u];
    }
  }

  /** The facts the search keeps: its queue holds rooms, and visited-then-queued is its frontier. */
  ghost predicate SearchState(rooms: set<RoomNode>, adj: map<RectInt, set<RectInt>>, s: RectInt,
                              blocked: set<RectInt>, visited: seq<RectInt>, Q: seq<RoomNode>, discovered: set<RectInt>)
  {
    && Elems(Q) <= rooms
    && Frontier(adj, s, blocked, visited + DimsOf(Q), discovered)
    && Expanded(adj, visited, discovered)
  }

  /** What the search has left to do: the rooms not yet reached, and the queue. */
  ghost function SearchLeft(adj: map<RectInt, set<RectInt>>, visited: seq<RectInt>, Q: seq<RoomNode>): nat {
    |adj.Keys - Elems(visited + DimsOf(Q))| + |Q|
  }

  lemma SearchStart(adj: map<RectInt, set<RectInt>>, s: RectInt, v: RectInt)
    requires Closed(adj) && s in adj
    ensures Frontier(adj, s, {v} - {s}, [s], {s} + {v})
    ensures Expanded(adj, [], {s} + {v})
  {
    ReachStart(adj, s, {v} - {s});
  }

  lemma SearchEnd(adj: map<RectInt, set<RectInt>>, s: RectInt, v: RectInt, visited: seq<RectInt>,
                  discovered: set<RectInt>)
    requires Closed(adj) && Frontier(adj, s, {v} - {s}, visited, discovered)
    requires Expanded(adj, visited, discovered)
    ensures discovered == Discovered(adj, s, v)
  {
    ReachWithinClosed(adj, s, {v} - {s}, Elems(visited));
    assert s in Elems(visited);
  }

  /** The room the search starts from: the first of `list`, or the second when the first equals `v`. */
  function StartRoom(list: seq<RoomNode>, v: RoomNode): (r: RoomNode)
    requires |list| >= 1 && (RoomNode.Same(list[0], v) ==> |list| >= 2)
    ensures r in list
    ensures Distinct(DimsOf(list)) && v in list ==> !RoomNode.Same(r, v)
  {
    assert DimsOf(list)[0] == list[0].Dimensions;
    assert |list| >= 2 ==> DimsOf(list)[1] == list[1].Dimensions;
    if RoomNode.Same(list[0], v) then list[1] else list[0]
  }

  /** The arrays of the doors of the rooms of `rooms`. */
  ghost function DoorArrays(rooms: set<RoomNode>): set<array<RoomNode?>>
    reads rooms
  {
    set r, d | r in rooms && d in r.DoorNodes :: d.ConnectedRooms
  }

  /**
   * The rooms of a dungeon as the room methods need them: every door of a
   * room can answer GetOtherRoom and leads to a room of the dungeon, and no
   * two rooms share a rectangle.
   */
  ghost predicate Linked(rooms: set<RoomNode>)
    reads rooms, DoorArrays(rooms)
  {
    && (forall r, d :: r in rooms && d in r.DoorNodes ==> d.Attached() && d.GetOtherRoom(r) in rooms)
    && (forall a, b :: a in rooms && b in rooms && a.Dimensions == b.Dimensions ==> a == b)
  }

  /** The doors of `doors` that lead from `from` to `r`. */
  ghost function DoorsTo(doors: set<DoorNode>, from: RoomNode, r: RoomNode): set<DoorNode>
    requires forall d :: d in doors ==> d.Attached()
    reads set d | d in doors :: d.ConnectedRooms
  {
    set d | d in doors && d.GetOtherRoom(from) == r
  }

  /** The rectangles of the rooms a room's doors lead to. */
  ghost function Neighbours(r: RoomNode): set<RectInt>
    requires forall d :: d in r.DoorNodes ==> d.Attached() && d.GetOtherRoom(r) != null
    reads r, set d | d in r.DoorNodes :: d.ConnectedRooms
  {
    set d | d in r.DoorNodes :: d.GetOtherRoom(r).Dimensions
  }

  ghost function Rects(rooms: set<RoomNode>): set<RectInt> {
    set r | r in rooms :: r.Dimensions
  }

  /** `adj` is the dungeon `rooms` as an adjacency list over rectangles. */
  ghost predicate Describes(adj: map<RectInt, set<RectInt>>, rooms: set<RoomNode>)
    reads rooms, DoorArrays(rooms)
  {
    && Linked(rooms)
    && adj.Keys == Rects(rooms)
    && forall r {:trigger adj[r.Dimensions]} :: r in rooms ==> adj[r.Dimensions] == Neighbours(r)
  }

  /** Every dungeon has its adjacency list. */
  lemma DescribedBy(rooms: set<RoomNode>)
    requires Linked(rooms)
    ensures Describes(map r | r in rooms :: r.Dimensions := Neighbours(r), rooms)
  {
  }

  /** The rectangles CanBeRemovedWithoutConnectionsSeparation discovers. */
  ghost function Discovered(adj: map<RectInt, set<RectInt>>, s: RectInt, v: RectInt): set<RectInt> {
    ReachSet(adj, s, {v} - {s}) + {v}
  }

  lemma DescribesClosed(adj: map<RectInt, set<RectInt>>, rooms: set<RoomNode>)
    requires Describes(adj, rooms)
    ensures Closed(adj)
  {
    forall k, n | k in adj && n in adj[k]
      ensures n in adj
    {
      var r :| r in rooms && r.Dimensions == k;
      var d :| d in r.DoorNodes && d.GetOtherRoom(r).Dimensions == n;
      assert d.GetOtherRoom(r) in rooms;
    }
  }

  /** The rectangles of a sequence of rooms. */
  function DimsOf(rs: seq<RoomNode?>): (r: seq<RectInt>)
    requires forall i :: 0 <= i < |rs| ==> rs[i] != null
    ensures |r| == |rs| && forall i :: 0 <= i < |rs| ==> r[i] == rs[i].Dimensions
  {
    seq(|rs|, i requires 0 <= i < |rs| => rs[i].Dimensions)
  }

  lemma DimsAppend(rs: seq<RoomNode>, w: RoomNode)
    ensures DimsOf(rs + [w]) == DimsOf(rs) + [w.Dimensions]
  {
  }

  /** The rooms GetConnectedRooms returns are rooms of the dungeon, and their rectangles are the room's neighbours. */
  lemma ConnectedRoomsMeaning(adj: map<RectInt, set<RectInt>>, rooms: set<RoomNode>, u: RoomNode,
                              connected: seq<RoomNode?>, doors: seq<DoorNode>)
    requires Describes(adj, rooms) && u in rooms
    requires Distinct(doors) && Elems(doors) == u.DoorNodes && |connected| == |doors|
    requires forall i :: 0 <= i < |doors| ==> connected[i] == doors[i].GetOtherRoom(u)
    ensures u.Dimensions in adj && forall i :: 0 <= i < |connected| ==> connected[i] in rooms
    ensures Elems(DimsOf(connected)) == adj[u.Dimensions]
  {
    assert u.Dimensions in Rects(rooms);
    forall i | 0 <= i < |connected|
      ensures connected[i] in rooms && connected[i].Dimensions in adj[u.Dimensions]
    {
      assert doors[i] in u.DoorNodes;
    }
    forall x | x in adj[u.Dimensions]
      ensures x in Elems(DimsOf(connected))
    {
      var d :| d in u.DoorNodes && d.GetOtherRoom(u).Dimensions == x;
      var i :| 0 <= i < |doors| && doors[i] == d;
      assert DimsOf(connected)[i] == x;
    }
  }

  /**
   * The keys of `ks` that the inner loop of the search enqueues: those
   * neither discovered before (`D`) nor met earlier in `ks`, in order.
   */
  ghost function NewKeys<T>(ks: seq<T>, D: set<T>): seq<T> {
    if |ks| == 0 then []
    else
      var init := ks[..|ks| - 1];
      NewKeys(init, D) + (if ks[|ks| - 1] in D + Elems(init) then [] else [ks[|ks| - 1]])
  }

  lemma NewKeysStep<T>(ks: seq<T>, i: int, D: set<T>)
    requires 0 <= i < |ks|
    ensures Elems(ks[..i + 1]) == Elems(ks[..i]) + {ks[i]}
    ensures NewKeys(ks[..i + 1], D) == NewKeys(ks[..i], D) + (if ks[i] in D + Elems(ks[..i]) then [] else [ks[i]])
  {
    ElemsTakeOneMore(ks, i);
    assert ks[..i + 1][..i] == ks[..i];
  }

  /** Enqueueing the new keys among the neighbours of a reached key `u` keeps the frontier facts. */
  lemma {:induction false} DiscoverAll<T(!new)>(adj: map<T, set<T>>, s: T, blocked: set<T>, done: seq<T>,
                                                Qd: seq<T>, D: set<T>, u: T, ks: seq<T>)
    requires Closed(adj) && Frontier(adj, s, blocked, done + Qd, D)
    requires u in adj && u in ReachSet(adj, s, blocked) && Elems(ks) <= adj[u]
    ensures Frontier(adj, s, blocked, done + (Qd + NewKeys(ks, D)), D + Elems(ks))
    ensures |adj.Keys - Elems(done + (Qd + NewKeys(ks, D)))| + |Qd + NewKeys(ks, D)|
            == |adj.Keys - Elems(done + Qd)| + |Qd|
  {
    if |ks| == 0 {
      assert Qd + NewKeys(ks, D) == Qd && D + Elems(ks) == D;
    } else {
      var init, w := ks[..|ks| - 1], ks[|ks| - 1];
      assert ks == init + [w];
      var Q1, D1 := Qd + NewKeys(init, D), D + Elems(init);
      var Q2, D2 := Qd + NewKeys(ks, D), D + Elems(ks);
      assert D2 == D1 + {w};
      assert Elems(init) <= Elems(ks);
      if w in D1 {
        assert Q2 == Q1 && D2 == D1;
        DiscoverAll(adj, s, blocked, done, Qd, D, u, init);
      } else {
        ConcatAssoc(Qd, NewKeys(init, D), [w]);
        assert Q2 == Q1 + [w];
        DiscoverAll(adj, s, blocked, done, Qd, D, u, init);
        Discover(adj, s, blocked, done, Q1, D1, u, w);
      }
    }
  }

  /**
   * One round of the search loop: dequeue a room, mark and enqueue every
   * room GetConnectedRooms returns that is not yet discovered. `visited`
   * holds the rectangles of the rooms dequeued so far.
   */
  method DequeueRoom(ghost rooms: set<RoomNode>, ghost adj: map<RectInt, set<RectInt>>, ghost s: RectInt,
                     ghost blocked: set<RectInt>, ghost visited: seq<RectInt>, Q: seq<RoomNode>,
                     discovered: set<RectInt>)
    returns (Q': seq<RoomNode>, discovered': set<RectInt>)
    requires Describes(adj, rooms) && Closed(adj) && |Q| > 0
    requires SearchState(rooms, adj, s, blocked, visited, Q, discovered)
    ensures SearchState(rooms, adj, s, blocked, visited + [Q[0].Dimensions], Q', discovered')
    ensures SearchLeft(adj, visited + [Q[0].Dimensions], Q') < SearchLeft(adj, visited, Q)
  {
    var v := Q[0];
    var connected, doors := v.GetConnectedRooms();
    assert unchanged(rooms) && unchanged(DoorArrays(rooms));
    ConnectedRoomsMeaning(adj, rooms, v, connected, doors);
    Q', discovered' := EnqueueUndiscovered(rooms, connected, Q[1..], discovered);
    DequeueStep(rooms, adj, s, blocked, visited, Q, discovered, DimsOf(connected), Q', discovered');
  }

  /** One dequeue keeps the search's facts and shortens what it has left to do. */
  lemma DequeueStep(rooms: set<RoomNode>, adj: map<RectInt, set<RectInt>>, s: RectInt, blocked: set<RectInt>,
                    visited: seq<RectInt>, Q: seq<RoomNode>, discovered: set<RectInt>, ks: seq<RectInt>,
                    Q': seq<RoomNode>, discovered': set<RectInt>)
    requires Closed(adj) && |Q| > 0 && SearchState(rooms, adj, s, blocked, visited, Q, discovered)
    requires Q[0].Dimensions in adj && Elems(ks) <= adj[Q[0].Dimensions]
    requires Elems(Q') <= rooms && DimsOf(Q') == DimsOf(Q[1..]) + NewKeys(ks, discovered)
    requires discovered' == discovered + Elems(ks) && adj[Q[0].Dimensions] <= discovered'
    ensures SearchState(rooms, adj, s, blocked, visited + [Q[0].Dimensions], Q', discovered')
    ensures SearchLeft(adj, visited + [Q[0].Dimensions], Q') < SearchLeft(adj, visited, Q)
  {
    var u := Q[0].Dimensions;
    DequeueFrontier(adj, s, blocked, visited, Q, discovered, ks, Q');
    ExpandedAppend(adj, visited, u, discovered, discovered');
  }

  lemma DequeueFrontier(adj: map<RectInt, set<RectInt>>, s: RectInt, blocked: set<RectInt>, visited: seq<RectInt>,
                        Q: seq<RoomNode>, discovered: set<RectInt>, ks: seq<RectInt>, Q': seq<RoomNode>)
    requires Closed(adj) && |Q| > 0 && Frontier(adj, s, blocked, visited + DimsOf(Q), discovered)
    requires Q[0].Dimensions in adj && Elems(ks) <= adj[Q[0].Dimensions]
    requires DimsOf(Q') == DimsOf(Q[1..]) + NewKeys(ks, discovered)
    ensures Frontier(adj, s, blocked, visited + [Q[0].Dimensions] + DimsOf(Q'), discovered + Elems(ks))
    ensures SearchLeft(adj, visited + [Q[0].Dimensions], Q') < SearchLeft(adj, visited, Q)
  {
    var u := Q[0].Dimensions;
    var done := visited + [u];
    var rest := DimsOf(Q[1..]);
    assert visited + DimsOf(Q) == done + rest by {
      assert DimsOf(Q) == [u] + rest;
    }
    assert u in Elems(visited + DimsOf(Q));
    DiscoverAll(adj, s, blocked, done, rest, discovered, u, ks);
    assert done + DimsOf(Q') == done + (rest + NewKeys(ks, discovered));
    SearchLeftAfter(adj, visited, u, rest, Q, Q', NewKeys(ks, discovered));
  }

  lemma SearchLeftAfter(adj: map<RectInt, set<RectInt>>, visited: seq<RectInt>, u: RectInt, rest: seq<RectInt>,
                        Q: seq<RoomNode>, Q': seq<RoomNode>, ks: seq<RectInt>)
    requires DimsOf(Q) == [u] + rest && DimsOf(Q') == rest + ks
    requires |adj.Keys - Elems(visited + [u] + (rest + ks))| + |rest + ks|
             == |adj.Keys - Elems(visited + [u] + rest)| + |rest|
    ensures SearchLeft(adj, visited + [u], Q') < SearchLeft(adj, visited, Q)
  {
    assert visited + DimsOf(Q) == visited + [u] + rest;
    assert visited + [u] + DimsOf(Q') == visited + [u] + (rest + ks);
  }

  /**
   * The inner loop of the search: every room of `connected` whose rectangle
   * is not yet discovered is marked and enqueued, in the list's order.
   */
  method EnqueueUndiscovered(ghost rooms: set<RoomNode>, connected: seq<RoomNode?>, Q: seq<RoomNode>,
                             discovered: set<RectInt>)
    returns (Q': seq<RoomNode>, discovered': set<RectInt>)
    requires Elems(Q) <= rooms && forall i :: 0 <= i < |connected| ==> connected[i] in rooms
    ensures Elems(Q') <= rooms
    ensures DimsOf(Q') == DimsOf(Q) + NewKeys(DimsOf(connected), discovered)
    ensures discovered' == discovered + Elems(DimsOf(connected))
  {
    ghost var ks := DimsOf(connected);
    Q', discovered' := Q, discovered;
    var i := 0;
    assert ks[..0] == [];
    while i < |connected|
      invariant 0 <= i <= |connected|
      invariant Elems(Q') <= rooms
      invariant DimsOf(Q') == DimsOf(Q) + NewKeys(ks[..i], discovered)
      invariant discovered' == discovered + Elems(ks[..i])
    {
      var w := connected[i];
      NewKeysStep(ks, i, discovered);
      if w.Dimensions !in discovered' {
        DimsAppend(Q', w);
        ElemsConcat(Q', [w]);
        ConcatAssoc(DimsOf(Q), NewKeys(ks[..i], discovered), [w.Dimensions]);
        Q' := Q' + [w];
        discovered' := discovered' + {w.Dimensions};
      }
      i := i + 1;
    }
    assert ks[..i] == ks;
  }

  /**
   * What the count means when `list` holds every room of the dungeon once
   * and this room `v` among them: the search finds as many rooms as the
   * list holds exactly when every other room can be reached from the start
   * room through doors without passing through `v`.
   */
  lemma RemovableMeansConnected(adj: map<RectInt, set<RectInt>>, rooms: set<RoomNode>, list: seq<RoomNode>,
                                v: RoomNode)
    requires Describes(adj, rooms) && Distinct(list) && Elems(list) == rooms && v in rooms && |list| >= 2
    ensures var s := StartRoom(list, v).Dimensions;
      |Discovered(adj, s, v.Dimensions)| == |list| <==>
      forall r :: r in rooms && r != v ==> r.Dimensions in ReachSet(adj, s, {v.Dimensions})
  {
    ListDims(adj, rooms, list);
    var s := StartRoom(list, v).Dimensions;
    DescribesClosed(adj, rooms);
    assert v.Dimensions in Rects(rooms) && s in Rects(rooms);
    CountIsReach(adj, s, v.Dimensions);
    var R := ReachSet(adj, s, {v.Dimensions});
    if forall r :: r in rooms && r != v ==> r.Dimensions in R {
      forall k | k in adj.Keys - {v.Dimensions}
        ensures k in R
      {
        var r :| r in rooms && r.Dimensions == k;
      }
    }
  }

  /** The count test of the search over rectangles: all found exactly when all other keys are reached. */
  lemma CountIsReach(adj: map<RectInt, set<RectInt>>, s: RectInt, v: RectInt)
    requires Closed(adj) && s in adj && v in adj && s != v
    ensures |Discovered(adj, s, v)| == |adj.Keys| <==> adj.Keys - {v} <= ReachSet(adj, s, {v})
  {
    assert {v} - {s} == {v};
    ReachWithinKeys(adj, s, {v});
    CountMeansAll(ReachSet(adj, s, {v}), v, adj.Keys);
  }

  /** A list of all rooms, each once, lists every rectangle of the dungeon once. */
  lemma ListDims(adj: map<RectInt, set<RectInt>>, rooms: set<RoomNode>, list: seq<RoomNode>)
    requires Describes(adj, rooms) && Distinct(list) && Elems(list) == rooms
    ensures Distinct(DimsOf(list)) && Elems(DimsOf(list)) == adj.Keys && |adj.Keys| == |list|
  {
    var dims := DimsOf(list);
    forall i, j | 0 <= i < j < |list|
      ensures dims[i] != dims[j]
    {
      assert list[i] in rooms && list[j] in rooms && list[i] != list[j];
    }
    forall k | k in adj.Keys
      ensures k in Elems(dims)
    {
      var r :| r in rooms && r.Dimensions == k;
      var i :| 0 <= i < |list| && list[i] == r;
      assert dims[i] == k;
    }
    DistinctCard(dims);
  }
}
