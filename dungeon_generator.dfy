/**
 * Assets/Scripts/DungeonGenerator.cs: binary space partitioning of the
 * dungeon rectangle into rooms (RecursionSplit), and door placement on the
 * seam where two rooms overlap (GenerateDoor).
 *
 * System.Random is a fixed stream of draws `Noise(0), Noise(1), ...` (each
 * a NextDouble value); the generator keeps the index `Drawn` of the next
 * draw. Floats are exact reals. Every call of RecursionSplit and of
 * GenerateDoor consumes exactly one draw. RecursionSplit is proved against
 * the split tree `Plan`, a pure function of the room, the axis and the
 * position in the stream.
 */
module DungeonGenerator {
  import opened Geometry
  import opened Collections

  /** The serialized fields of the generator that the splitting and the doors read. */
  datatype Settings = Settings(dungeon: RectInt, minimalWidth: int, minimalHeight: int, wallWidth: int,
                               lowBound: real, highBound: real, doorWidth: int, doorHeight: int)

  /**
   * The settings under which RecursionSplit terminates: the half wall fits
   * twice into the minimal room size on both axes (a negative wall always
   * does when the minimal sizes are not negative). Every kept split then
   * makes both children strictly smaller, and no child is at or below
   * Floor(s).
   */
  predicate Shrinking(s: Settings) {
    && 2 * HalfTowardZero(s.wallWidth) <= s.minimalWidth
    && 2 * HalfTowardZero(s.wallWidth) <= s.minimalHeight
  }

  /** The smaller minimal room size: every child of a kept split is larger on both axes. */
  function Floor(s: Settings): int {
    if s.minimalWidth <= s.minimalHeight then s.minimalWidth else s.minimalHeight
  }

  /** `(int)Mathf.Lerp(size * low, size * high, t)`: where the cut falls. */
  function Cut(size: int, s: Settings, t: real): int {
    TruncateToInt(Lerp(size as real * s.lowBound, size as real * s.highBound, t))
  }

  /** The two rooms of a horizontal split at height `h`. */
  function HorizontalSplit(r: RectInt, h: int, wall: int): (RectInt, RectInt) {
    var ww2 := HalfTowardZero(wall);
    (RectInt(r.x, r.y, r.width, h + ww2), RectInt(r.x, r.y + h - ww2, r.width, r.height - h + ww2))
  }

  /**
   * Without Shrinking a kept split can give back the parent: with a wall of
   * 4 and a minimal height of 3, a room 10 high cut at 8 has children 10
   * and 4 high, both above the minimum.
   */
  lemma WideWallKeepsParentSize()
    ensures var s := Settings(RectInt(0, 0, 5, 10), 3, 3, 4, 0.0, 1.0, 1, 1);
      var c := HorizontalSplit(s.dungeon, 8, s.wallWidth);
      && !Shrinking(s) && HeightsFit(c, s) && c.0 == s.dungeon
  {
  }

  /** The two rooms of a vertical split at width `w`. */
  function VerticalSplit(r: RectInt, w: int, wall: int): (RectInt, RectInt) {
    var ww2 := HalfTowardZero(wall);
    (RectInt(r.x, r.y, w + ww2, r.height), RectInt(r.x + w - ww2, r.y, r.width - w + ww2, r.height))
  }

  /**
   * A horizontal split: both children keep x and the width, the first
   * starts at the parent's bottom, the second ends at its top, the two
   * overlap by twice the half wall, and their heights add up to the
   * parent's plus that overlap.
   */
  lemma HorizontalSplitShape(r: RectInt, h: int, wall: int)
    ensures var c := HorizontalSplit(r, h, wall);
      && c.0.x == r.x && c.1.x == r.x && c.0.width == r.width && c.1.width == r.width
      && c.0.y == r.y && c.1.YMax() == r.YMax()
      && c.0.YMax() - c.1.y == 2 * HalfTowardZero(wall)
      && c.0.height + c.1.height == r.height + 2 * HalfTowardZero(wall)
  {
  }

  /** A vertical split: the same on the other axis. */
  lemma VerticalSplitShape(r: RectInt, w: int, wall: int)
    ensures var c := VerticalSplit(r, w, wall);
      && c.0.y == r.y && c.1.y == r.y && c.0.height == r.height && c.1.height == r.height
      && c.0.x == r.x && c.1.XMax() == r.XMax()
      && c.0.XMax() - c.1.x == 2 * HalfTowardZero(wall)
      && c.0.width + c.1.width == r.width + 2 * HalfTowardZero(wall)
  {
  }

  predicate HeightsFit(c: (RectInt, RectInt), s: Settings) {
    c.0.height > s.minimalHeight && c.1.height > s.minimalHeight
  }

  predicate WidthsFit(c: (RectInt, RectInt), s: Settings) {
    c.0.width > s.minimalWidth && c.1.width > s.minimalWidth
  }

  /**
   * The split RecursionSplit keeps for draw `t`, or None when the room
   * stays a leaf. Starting horizontally: the horizontal split if both
   * heights exceed the minimum, else the vertical one if both widths do.
   * Starting vertically: the vertical split if both widths fit, else the
   * horizontal one if the parent's and both children's heights fit.
   */
  function Choice(r: RectInt, horizontal: bool, t: real, s: Settings, cut: (int, real) -> int)
    : Option<(RectInt, RectInt)>
  {
    var hc := HorizontalSplit(r, cut(r.height, t), s.wallWidth);
    var vc := VerticalSplit(r, cut(r.width, t), s.wallWidth);
    if horizontal then
      if HeightsFit(hc, s) then Some(hc) else if WidthsFit(vc, s) then Some(vc) else None
    else
      if WidthsFit(vc, s) then Some(vc)
      else if r.height > s.minimalHeight && HeightsFit(hc, s) then Some(hc)
      else None
  }

  /** Under Shrinking, both starting axes follow one rule: the preferred axis, else the other, else a leaf. */
  lemma ChoiceOtherAxis(r: RectInt, horizontal: bool, t: real, s: Settings, cut: (int, real) -> int)
    requires Shrinking(s)
    ensures var hc := HorizontalSplit(r, cut(r.height, t), s.wallWidth);
      var vc := VerticalSplit(r, cut(r.width, t), s.wallWidth);
      var first := if horizontal then hc else vc;
      var second := if horizontal then vc else hc;
      Choice(r, horizontal, t, s, cut) ==
        if (if horizontal then HeightsFit(hc, s) else WidthsFit(vc, s)) then Some(first)
        else if (if horizontal then WidthsFit(vc, s) else HeightsFit(hc, s)) then Some(second)
        else None
  {
    var hc := HorizontalSplit(r, cut(r.height, t), s.wallWidth);
    HorizontalSplitShape(r, cut(r.height, t), s.wallWidth);
    if HeightsFit(hc, s) {
      assert r.height > s.minimalHeight;
    }
  }

  /** How far the room's sides reach above `floor`. */
  function Measure(r: RectInt, floor: int): nat {
    Max(r.width - floor, 0) + Max(r.height - floor, 0)
  }

  /** `a` lies inside `b`. */
  predicate Within(a: RectInt, b: RectInt) {
    b.x <= a.x && a.XMax() <= b.XMax() && b.y <= a.y && a.YMax() <= b.YMax()
  }

  /** Under Shrinking, a horizontal split whose heights fit stays inside the parent and is shorter. */
  lemma HorizontalShrinks(r: RectInt, h: int, s: Settings)
    requires Shrinking(s) && HeightsFit(HorizontalSplit(r, h, s.wallWidth), s)
    ensures var c := HorizontalSplit(r, h, s.wallWidth);
      && Within(c.0, r) && Within(c.1, r) && Measure(c.0, Floor(s)) < Measure(r, Floor(s)) && Measure(c.1, Floor(s)) < Measure(r, Floor(s))
  {
    HorizontalSplitShape(r, h, s.wallWidth);
  }

  /** Under Shrinking, a vertical split whose widths fit stays inside the parent and is narrower. */
  lemma VerticalShrinks(r: RectInt, w: int, s: Settings)
    requires Shrinking(s) && WidthsFit(VerticalSplit(r, w, s.wallWidth), s)
    ensures var c := VerticalSplit(r, w, s.wallWidth);
      && Within(c.0, r) && Within(c.1, r) && Measure(c.0, Floor(s)) < Measure(r, Floor(s)) && Measure(c.1, Floor(s)) < Measure(r, Floor(s))
  {
    VerticalSplitShape(r, w, s.wallWidth);
  }

  /** Under Shrinking, a kept split gives two children inside the parent, each strictly smaller. */
  lemma ChoiceShrinks(r: RectInt, horizontal: bool, t: real, s: Settings, cut: (int, real) -> int)
    requires Shrinking(s)
    ensures var c := Choice(r, horizontal, t, s, cut);
      c.Some? ==> && Within(c.value.0, r) && Within(c.value.1, r)
                  && Measure(c.value.0, Floor(s)) < Measure(r, Floor(s)) && Measure(c.value.1, Floor(s)) < Measure(r, Floor(s))
  {
    var hc := HorizontalSplit(r, cut(r.height, t), s.wallWidth);
    var vc := VerticalSplit(r, cut(r.width, t), s.wallWidth);
    if HeightsFit(hc, s) {
      HorizontalShrinks(r, cut(r.height, t), s);
    }
    if WidthsFit(vc, s) {
      VerticalShrinks(r, cut(r.width, t), s);
    }
  }

  /** A rule that picks the split of a room for an axis and a draw, or None for a leaf. */
  type Chooser = (RectInt, bool, real) -> Option<(RectInt, RectInt)>

  /** `choose` is the split rule Choice of the settings. */
  ghost predicate ChoosesLike(choose: Chooser, s: Settings, cut: (int, real) -> int) {
    forall r, horizontal, t :: choose(r, horizontal, t) == Choice(r, horizontal, t, s, cut)
  }

  /** A kept split gives two children inside the parent, each strictly smaller above `floor`. */
  predicate Shrunk(r: RectInt, choice: Option<(RectInt, RectInt)>, floor: int) {
    choice.Some? ==>
      && Within(choice.value.0, r) && Within(choice.value.1, r)
      && Measure(choice.value.0, floor) < Measure(r, floor) && Measure(choice.value.1, floor) < Measure(r, floor)
  }

  /** Every split the rule keeps shrinks the room above `floor`. */
  ghost predicate ShrinksAbove(choose: Chooser, floor: int) {
    forall r, horizontal, t :: Shrunk(r, choose(r, horizontal, t), floor)
  }

  /** Every split the rule keeps shrinks the room, above some floor. */
  ghost predicate Shrinks(choose: Chooser) {
    exists floor :: ShrinksAbove(choose, floor)
  }

  /** A floor above which the rule shrinks every room it splits. */
  ghost function ShrinkFloor(choose: Chooser): (floor: int)
    requires Shrinks(choose)
    ensures ShrinksAbove(choose, floor)
  {
    var floor :| ShrinksAbove(choose, floor); floor
  }

  lemma ShrinksAt(choose: Chooser, r: RectInt, horizontal: bool, t: real)
    requires Shrinks(choose)
    ensures Shrunk(r, choose(r, horizontal, t), ShrinkFloor(choose))
  {
  }

  /** Under Shrinking, the split rule of RecursionSplit shrinks, so the recursion ends. */
  lemma ChoiceRuleShrinks(choose: Chooser, s: Settings, cut: (int, real) -> int)
    requires Shrinking(s) && ChoosesLike(choose, s, cut)
    ensures Shrinks(choose)
  {
    forall r, horizontal, t
      ensures Shrunk(r, choose(r, horizontal, t), Floor(s))
    {
      ChoiceShrinks(r, horizontal, t, s, cut);
    }
    assert ShrinksAbove(choose, Floor(s));
  }

  /** The tree of rooms that RecursionSplit builds. */
  datatype SplitTree = Leaf(room: RectInt) | Split(room: RectInt, left: SplitTree, right: SplitTree)

  /** The number of RecursionSplit calls: one per node of the tree. */
  function Size(t: SplitTree): nat {
    match t
    case Leaf(_) => 1
    case Split(_, l, r) => 1 + Size(l) + Size(r)
  }

  /** The leaves, left to right: the rooms appended to `Rooms`. */
  function Leaves(t: SplitTree): seq<RectInt> {
    match t
    case Leaf(room) => [room]
    case Split(_, l, r) => Leaves(l) + Leaves(r)
  }

  /**
   * The split tree of RecursionSplit(room, horizontal) when the next draw
   * of the stream is `noise(k)` and `choose` picks the splits: the first
   * child is split with the following draws, the second child after all
   * of those.
   */
  function Plan(r: RectInt, horizontal: bool, k: nat, noise: nat -> real, choose: Chooser): (t: SplitTree)
    requires Shrinks(choose)
    decreases Measure(r, ShrinkFloor(choose))
  {
    ShrinksAt(choose, r, horizontal, noise(k));
    match choose(r, horizontal, noise(k))
    case None => Leaf(r)
    case Some(c) =>
      var left := Plan(c.0, !horizontal, k + 1, noise, choose);
      Split(r, left, Plan(c.1, !horizontal, k + 1 + Size(left), noise, choose))
  }

  /**
   * `t` is the tree RecursionSplit builds below a room when `choose` picks
   * the splits: its root is the room, it is a leaf when no split is kept,
   * and otherwise its subtrees are built from the two children with the
   * following draws. Unlike Plan it needs no termination argument, so the
   * recursive methods can state it step by step.
   */
  ghost predicate Planned(t: SplitTree, r: RectInt, horizontal: bool, k: nat, noise: nat -> real, choose: Chooser)
    decreases t, 1
  {
    PlanStep(t, r, horizontal, k, noise, choose, choose(r, horizontal, noise(k)))
  }

  /** Planned, for the split `choice` that was kept (None for a leaf). */
  ghost predicate PlanStep(t: SplitTree, r: RectInt, horizontal: bool, k: nat, noise: nat -> real, choose: Chooser,
                           choice: Option<(RectInt, RectInt)>)
    decreases t, 0
  {
    && t.room == r
    && match choice
       case None => t.Leaf?
       case Some(c) =>
         && t.Split?
         && Planned(t.left, c.0, !horizontal, k + 1, noise, choose)
         && Planned(t.right, c.1, !horizontal, k + 1 + Size(t.left), noise, choose)
  }

  /** One kept split: the tree of a split room is the two children's trees. */
  lemma PlannedSplit(r: RectInt, horizontal: bool, k: nat, noise: nat -> real, choose: Chooser,
                     c1: RectInt, c2: RectInt, t1: SplitTree, t2: SplitTree)
    requires choose(r, horizontal, noise(k)) == Some((c1, c2))
    requires Planned(t1, c1, !horizontal, k + 1, noise, choose)
    requires Planned(t2, c2, !horizontal, k + 1 + Size(t1), noise, choose)
    ensures Planned(Split(r, t1, t2), r, horizontal, k, noise, choose)
  {
  }

  /** The tree Plan is Planned. */
  lemma {:induction false} PlanIsPlanned(r: RectInt, horizontal: bool, k: nat, noise: nat -> real, choose: Chooser)
    requires Shrinks(choose)
    ensures Planned(Plan(r, horizontal, k, noise, choose), r, horizontal, k, noise, choose)
    decreases Measure(r, ShrinkFloor(choose))
  {
    ShrinksAt(choose, r, horizontal, noise(k));
    match choose(r, horizontal, noise(k))
    case None =>
    case Some(c) =>
      var left := Plan(c.0, !horizontal, k + 1, noise, choose);
      PlanIsPlanned(c.0, !horizontal, k + 1, noise, choose);
      PlanIsPlanned(c.1, !horizontal, k + 1 + Size(left), noise, choose);
  }

  /** A Planned tree is the tree Plan. */
  lemma {:induction false} PlannedOnlyPlan(t: SplitTree, r: RectInt, horizontal: bool, k: nat, noise: nat -> real,
                                           choose: Chooser)
    requires Shrinks(choose) && Planned(t, r, horizontal, k, noise, choose)
    ensures t == Plan(r, horizontal, k, noise, choose)
    decreases t
  {
    match choose(r, horizontal, noise(k))
    case None =>
    case Some(c) =>
      PlannedOnlyPlan(t.left, c.0, !horizontal, k + 1, noise, choose);
      PlannedOnlyPlan(t.right, c.1, !horizontal, k + 1 + Size(t.left), noise, choose);
  }

  /** Plan is the one tree that is Planned. */
  lemma PlannedIsPlan(t: SplitTree, r: RectInt, horizontal: bool, k: nat, noise: nat -> real, choose: Chooser)
    requires Shrinks(choose)
    ensures Planned(t, r, horizontal, k, noise, choose) <==> t == Plan(r, horizontal, k, noise, choose)
  {
    PlanIsPlanned(r, horizontal, k, noise, choose);
    if Planned(t, r, horizontal, k, noise, choose) {
      PlannedOnlyPlan(t, r, horizontal, k, noise, choose);
    }
  }

  /** Every call either becomes a leaf or makes two calls, so the calls number 2 * |Rooms| - 1. */
  lemma {:induction false} SizeIsTwiceLeavesMinusOne(t: SplitTree)
    ensures Size(t) == 2 * |Leaves(t)| - 1
  {
    match t
    case Leaf(_) =>
    case Split(_, l, r) =>
      SizeIsTwiceLeavesMinusOne(l);
      SizeIsTwiceLeavesMinusOne(r);
  }

  /** A tree whose every child lies inside its parent. */
  predicate Nested(t: SplitTree) {
    match t
    case Leaf(_) => true
    case Split(room, l, r) => Within(l.room, room) && Within(r.room, room) && Nested(l) && Nested(r)
  }

  /** Within is transitive. */
  lemma WithinTrans(a: RectInt, b: RectInt, c: RectInt)
    requires Within(a, b) && Within(b, c)
    ensures Within(a, c)
  {
  }

  /** In a nested tree every room of a leaf lies inside the root room. */
  lemma {:induction false} LeavesWithin(t: SplitTree)
    requires Nested(t)
    ensures forall i :: 0 <= i < |Leaves(t)| ==> Within(Leaves(t)[i], t.room)
  {
    match t
    case Leaf(_) =>
    case Split(room, l, r) =>
      LeavesWithin(l);
      LeavesWithin(r);
      forall i | 0 <= i < |Leaves(t)|
        ensures Within(Leaves(t)[i], room)
      {
        if i < |Leaves(l)| {
          WithinTrans(Leaves(t)[i], l.room, room);
        } else {
          assert Leaves(t)[i] == Leaves(r)[i - |Leaves(l)|];
          WithinTrans(Leaves(t)[i], r.room, room);
        }
      }
  }

  /** Every room of the plan lies inside its parent, so every leaf lies inside the start room. */
  lemma {:induction false} PlanNested(r: RectInt, horizontal: bool, k: nat, noise: nat -> real, choose: Chooser)
    requires Shrinks(choose)
    ensures Nested(Plan(r, horizontal, k, noise, choose))
    decreases Measure(r, ShrinkFloor(choose))
  {
    ShrinksAt(choose, r, horizontal, noise(k));
    match choose(r, horizontal, noise(k))
    case None =>
    case Some(c) =>
      var left := Plan(c.0, !horizontal, k + 1, noise, choose);
      PlanNested(c.0, !horizontal, k + 1, noise, choose);
      PlanNested(c.1, !horizontal, k + 1 + Size(left), noise, choose);
  }

  /** Every room the split leaves as a leaf lies inside the room it started from. */
  lemma PlanLeavesWithin(r: RectInt, horizontal: bool, k: nat, noise: nat -> real, choose: Chooser)
    requires Shrinks(choose)
    ensures var t := Plan(r, horizontal, k, noise, choose);
      forall i :: 0 <= i < |Leaves(t)| ==> Within(Leaves(t)[i], r)
  {
    var t := Plan(r, horizontal, k, noise, choose);
    ShrinksAt(choose, r, horizontal, noise(k));
    assert t.room == r;
    PlanNested(r, horizontal, k, noise, choose);
    LeavesWithin(t);
  }

  /** The dimensions of a list of split-tree nodes. */
  function RoomValues(rs: seq<RoomNode>): (v: seq<RectInt>)
    ensures |v| == |rs|
  {
    if |rs| == 0 then [] else [rs[0].RoomValue] + RoomValues(rs[1..])
  }

  lemma {:induction false} RoomValuesConcat(a: seq<RoomNode>, b: seq<RoomNode>)
    ensures RoomValues(a + b) == RoomValues(a) + RoomValues(b)
  {
    if |a| > 0 {
      assert (a + b)[1..] == a[1..] + b;
      RoomValuesConcat(a[1..], b);
    } else {
      assert a + b == b;
    }
  }

  /** The split-tree node of DungeonGenerator.cs: a room and, once it is split, its two halves. */
  class RoomNode {
    const RoomValue: RectInt
    var Room1: RoomNode?
    var Room2: RoomNode?

    constructor (roomValue: RectInt)
      ensures RoomValue == roomValue && Room1 == null && Room2 == null
    {
      RoomValue := roomValue;
      Room1 := null;
      Room2 := null;
    }
  }

  /**
   * The nodes in `S` reachable from `n` form the tree `t`: a leaf has no
   * children, a split node has the two subtrees as Room1 and Room2.
   */
  ghost predicate Mirrors(n: RoomNode, t: SplitTree, S: set<RoomNode>)
    reads S
    decreases t
  {
    && n in S && n.RoomValue == t.room
    && match t
       case Leaf(_) => n.Room1 == null && n.Room2 == null
       case Split(_, l, r) =>
         n.Room1 != null && n.Room2 != null && Mirrors(n.Room1, l, S) && Mirrors(n.Room2, r, S)
  }

  lemma {:induction false} MirrorsGrow(n: RoomNode, t: SplitTree, S: set<RoomNode>, S': set<RoomNode>)
    requires S <= S' && Mirrors(n, t, S)
    ensures Mirrors(n, t, S')
    decreases t
  {
    match t
    case Leaf(_) =>
    case Split(_, l, r) =>
      MirrorsGrow(n.Room1, l, S, S');
      MirrorsGrow(n.Room2, r, S, S');
  }

  /** Door placement for draw `t`: None when the seam is too short for a door, else the door rectangle. */
  function DoorAt(room1: RectInt, room2: RectInt, s: Settings, t: real): Option<RectInt> {
    var i := Intersect(room1, room2);
    var wall := s.wallWidth;
    if i.width > i.height then
      if i.width - wall * 2 < s.doorWidth then None
      else
        var lo := (i.x + wall) as real;
        Some(RectInt(TruncateToInt(Clamp(Lerp(lo, (i.x + i.width - wall * 2) as real, t), lo, lo)),
                     i.y, s.doorWidth, s.doorHeight))
    else
      if i.height - wall * 2 < s.doorHeight then None
      else
        var lo := (i.y + wall) as real;
        var hi := (i.y + i.height - wall * 2) as real;
        Some(RectInt(i.x, TruncateToInt(Clamp(Lerp(lo, hi, t), lo, hi)), s.doorWidth, s.doorHeight))
  }

  /** A door is rejected exactly when the seam minus two walls is shorter than the door along it. */
  lemma DoorRejected(room1: RectInt, room2: RectInt, s: Settings, t: real)
    ensures var i := Intersect(room1, room2);
      DoorAt(room1, room2, s, t).None? <==>
        if i.width > i.height then i.width - 2 * s.wallWidth < s.doorWidth
        else i.height - 2 * s.wallWidth < s.doorHeight
  {
  }

  /**
   * On a horizontal seam the clamp has equal bounds, so an accepted door
   * always starts one wall in from the seam's left end, whatever the draw.
   */
  lemma HorizontalDoorIsFixed(room1: RectInt, room2: RectInt, s: Settings, t: real)
    requires var i := Intersect(room1, room2);
      i.width > i.height && i.width - 2 * s.wallWidth >= s.doorWidth
    ensures var i := Intersect(room1, room2);
      DoorAt(room1, room2, s, t) == Some(RectInt(i.x + s.wallWidth, i.y, s.doorWidth, s.doorHeight))
  {
    var i := Intersect(room1, room2);
    assert TruncateToInt((i.x + s.wallWidth) as real) == i.x + s.wallWidth;
  }

  /**
   * On a vertical seam an accepted door starts at the seam's x, has the
   * configured size, and its y lies between one wall above the seam's
   * bottom and two walls below its top, when that range is not empty.
   */
  lemma VerticalDoorInRange(room1: RectInt, room2: RectInt, s: Settings, t: real)
    requires var i := Intersect(room1, room2);
      !(i.width > i.height) && i.height - 2 * s.wallWidth >= s.doorHeight
    ensures var i := Intersect(room1, room2);
      var d := DoorAt(room1, room2, s, t);
      && d.Some? && d.value.x == i.x && d.value.width == s.doorWidth && d.value.height == s.doorHeight
      && (i.y + s.wallWidth <= i.y + i.height - 2 * s.wallWidth ==>
            i.y + s.wallWidth <= d.value.y <= i.y + i.height - 2 * s.wallWidth)
  {
    var i := Intersect(room1, room2);
    var lo := i.y + s.wallWidth;
    var hi := i.y + i.height - 2 * s.wallWidth;
    if lo <= hi {
      var v := Clamp(Lerp(lo as real, hi as real, t), lo as real, hi as real);
      TruncateWithin(v, lo, hi);
    }
  }

  /** Truncating a value between two integers stays between them. */
  lemma TruncateWithin(v: real, lo: int, hi: int)
    requires lo as real <= v <= hi as real
    ensures lo <= TruncateToInt(v) <= hi
  {
  }

  /** The state of the generator that RecursionSplit and GenerateDoor read and change. */
  class Generator {
    const settings: Settings
    /** The draws of `new Random(seed)`, in order; `Drawn` of them are used. */
    const Noise: nat -> real
    /** Where a room of the given size is cut for a draw: the truncated Lerp of Cut. */
    const CutAt: (int, real) -> int
    /** The split rule Choice for these settings and CutAt. */
    const ChooseAt: Chooser
    var RootNode: RoomNode?
    var Rooms: seq<RoomNode>
    var RoomsAmount: int
    var Drawn: nat

    constructor (settings: Settings, noise: nat -> real)
      ensures this.settings == settings && Noise == noise
      ensures forall size, t :: CutAt(size, t) == Cut(size, settings, t)
      ensures ChoosesLike(ChooseAt, settings, CutAt)
      ensures RootNode == null && Rooms == [] && RoomsAmount == 0 && Drawn == 0
    {
      this.settings := settings;
      Noise := noise;
      CutAt := (size, t) => Cut(size, settings, t);
      ChooseAt := (r, horizontal, t) => Choice(r, horizontal, t, settings, (size, t) => Cut(size, settings, t));
      RootNode := null;
      Rooms := [];
      RoomsAmount := 0;
      Drawn := 0;
    }

    /**
     * Seeds the stream again, splits the whole dungeon starting with a
     * vertical split, and appends the leaves to `Rooms` (which is not
     * cleared, as in the source).
     */
    method GenerateDungeon() returns (ghost plan: SplitTree, ghost nodes: set<RoomNode>)
      requires Shrinking(settings) && ChoosesLike(ChooseAt, settings, CutAt)
      modifies this
      ensures Shrinks(ChooseAt) && plan == Plan(settings.dungeon, false, 0, Noise, ChooseAt)
      ensures RootNode != null && fresh(RootNode)
      ensures Drawn == Size(plan) && RoomsAmount == old(RoomsAmount) + Size(plan)
      ensures RoomValues(Rooms) == RoomValues(old(Rooms)) + Leaves(plan)
      ensures Mirrors(RootNode, plan, nodes) && fresh(nodes)
    {
      Drawn := 0;
      var root := new RoomNode(settings.dungeon);
      RootNode := root;
      ghost var leafNodes;
      plan, nodes, leafNodes := RecursionSplit(root, false, 0);
      RoomValuesConcat(old(Rooms), leafNodes);
      ChoiceRuleShrinks(ChooseAt, settings, CutAt);
      PlannedIsPlan(plan, settings.dungeon, false, 0, Noise, ChooseAt);
    }

    /**
     * One call of the recursive split: consumes a draw, counts itself, and
     * either appends the room to `Rooms` as a leaf or sets its two children
     * and splits each with the axis flipped. `plan` is the tree the call
     * builds below `startRoom`.
     */
    method RecursionSplit(startRoom: RoomNode, doHorizontalSplit: bool, ghost k: nat)
      returns (ghost plan: SplitTree, ghost nodes: set<RoomNode>, ghost leafNodes: seq<RoomNode>)
      requires Shrinking(settings) && ChoosesLike(ChooseAt, settings, CutAt)
      requires startRoom.Room1 == null && startRoom.Room2 == null
      requires Drawn == k
      modifies this, startRoom
      ensures Planned(plan, startRoom.RoomValue, doHorizontalSplit, k, Noise, ChooseAt)
      ensures RootNode == old(RootNode)
      ensures Drawn == old(Drawn) + Size(plan) && RoomsAmount == old(RoomsAmount) + Size(plan)
      ensures Rooms == old(Rooms) + leafNodes
      ensures RoomValues(leafNodes) == Leaves(plan)
      ensures Mirrors(startRoom, plan, nodes)
      ensures startRoom in nodes && fresh(nodes - {startRoom})
      decreases Measure(startRoom.RoomValue, Floor(settings)), 2
    {
      RoomsAmount := RoomsAmount + 1;
      var r := startRoom.RoomValue;
      var randomNumber := Noise(Drawn);
      Drawn := Drawn + 1;

      var split, newRoom1, newRoom2 := SplitRooms(r, doHorizontalSplit, randomNumber);
      if !split {
        Rooms := Rooms + [startRoom];
        plan, nodes, leafNodes := Leaf(r), {startRoom}, [startRoom];
        assert RoomValues(leafNodes) == [r] + RoomValues([]);
        return;
      }
      plan, nodes, leafNodes := SplitChildren(startRoom, doHorizontalSplit, k, newRoom1, newRoom2);
    }

    /**
     * The second half of RecursionSplit for a room that is split: the two
     * child nodes are created and linked, then the first child is split
     * with the axis flipped; SplitSecondChild goes on with the second.
     */
    method SplitChildren(startRoom: RoomNode, doHorizontalSplit: bool, ghost k: nat, newRoom1: RectInt, newRoom2: RectInt)
      returns (ghost plan: SplitTree, ghost nodes: set<RoomNode>, ghost leafNodes: seq<RoomNode>)
      requires Shrinking(settings) && ChoosesLike(ChooseAt, settings, CutAt)
      requires startRoom.Room1 == null && startRoom.Room2 == null
      requires ChooseAt(startRoom.RoomValue, doHorizontalSplit, Noise(k)) == Some((newRoom1, newRoom2))
      requires Measure(newRoom1, Floor(settings)) < Measure(startRoom.RoomValue, Floor(settings))
      requires Measure(newRoom2, Floor(settings)) < Measure(startRoom.RoomValue, Floor(settings))
      requires Drawn == k + 1
      modifies this, startRoom
      ensures Planned(plan, startRoom.RoomValue, doHorizontalSplit, k, Noise, ChooseAt)
      ensures RootNode == old(RootNode)
      ensures Drawn == k + Size(plan) && RoomsAmount == old(RoomsAmount) + Size(plan) - 1
      ensures Rooms == old(Rooms) + leafNodes
      ensures RoomValues(leafNodes) == Leaves(plan)
      ensures Mirrors(startRoom, plan, nodes)
      ensures startRoom in nodes && fresh(nodes - {startRoom})
      decreases Measure(startRoom.RoomValue, Floor(settings)), 1
    {
      var roomNode1 := new RoomNode(newRoom1);
      var roomNode2 := new RoomNode(newRoom2);
      startRoom.Room1 := roomNode1;
      startRoom.Room2 := roomNode2;
      var plan1, nodes1, leaves1 := RecursionSplit(roomNode1, !doHorizontalSplit, k + 1);
      assert fresh(nodes1);
      plan, nodes, leafNodes := SplitSecondChild(startRoom, doHorizontalSplit, k, roomNode1, roomNode2, plan1, nodes1, leaves1, old(Rooms));
    }

    /**
     * The second recursive call of RecursionSplit, once the first child's
     * subtree `plan1` is built: splits the second child with the following
     * draws and puts the two subtrees together.
     */
    method SplitSecondChild(startRoom: RoomNode, doHorizontalSplit: bool, ghost k: nat, roomNode1: RoomNode, roomNode2: RoomNode,
                            ghost plan1: SplitTree, ghost nodes1: set<RoomNode>, ghost leaves1: seq<RoomNode>,
                            ghost rooms0: seq<RoomNode>)
      returns (ghost plan: SplitTree, ghost nodes: set<RoomNode>, ghost leafNodes: seq<RoomNode>)
      requires Shrinking(settings) && ChoosesLike(ChooseAt, settings, CutAt)
      requires startRoom.Room1 == roomNode1 && startRoom.Room2 == roomNode2
      requires roomNode2.Room1 == null && roomNode2.Room2 == null
      requires ChooseAt(startRoom.RoomValue, doHorizontalSplit, Noise(k)) == Some((roomNode1.RoomValue, roomNode2.RoomValue))
      requires Measure(roomNode2.RoomValue, Floor(settings)) < Measure(startRoom.RoomValue, Floor(settings))
      requires Planned(plan1, roomNode1.RoomValue, !doHorizontalSplit, k + 1, Noise, ChooseAt)
      requires Drawn == k + 1 + Size(plan1)
      requires Mirrors(roomNode1, plan1, nodes1)
      requires startRoom !in nodes1 && roomNode2 !in nodes1 && startRoom != roomNode2
      requires Rooms == rooms0 + leaves1 && RoomValues(leaves1) == Leaves(plan1)
      modifies this, roomNode2
      ensures Planned(plan, startRoom.RoomValue, doHorizontalSplit, k, Noise, ChooseAt)
      ensures RootNode == old(RootNode)
      ensures Drawn == k + Size(plan) && RoomsAmount == old(RoomsAmount) + Size(plan) - 1 - Size(plan1)
      ensures Rooms == rooms0 + leafNodes
      ensures RoomValues(leafNodes) == Leaves(plan)
      ensures Mirrors(startRoom, plan, nodes)
      ensures nodes == {startRoom, roomNode2} + nodes1 + (nodes - nodes1 - {startRoom, roomNode2})
      ensures fresh(nodes - nodes1 - {startRoom, roomNode2})
      decreases Measure(startRoom.RoomValue, Floor(settings)), 0
    {
      var plan2, nodes2, leaves2 := RecursionSplit(roomNode2, !doHorizontalSplit, k + 1 + Size(plan1));
      PlannedSplit(startRoom.RoomValue, doHorizontalSplit, k, Noise, ChooseAt,
                   roomNode1.RoomValue, roomNode2.RoomValue, plan1, plan2);
      plan, nodes, leafNodes := Split(startRoom.RoomValue, plan1, plan2), {startRoom} + nodes1 + nodes2, leaves1 + leaves2;
      MirrorsGrow(roomNode1, plan1, nodes1, nodes);
      MirrorsGrow(roomNode2, plan2, nodes2, nodes);
      ConcatAssoc(rooms0, leaves1, leaves2);
      RoomValuesConcat(leaves1, leaves2);
    }

    /**
     * The first half of RecursionSplit: the two raw rooms for the draw, the
     * retry on the other axis when they are too small, and the decision
     * to keep the room as a leaf.
     */
    method SplitRooms(r: RectInt, doHorizontalSplit: bool, randomNumber: real)
      returns (split: bool, newRoom1: RectInt, newRoom2: RectInt)
      requires Shrinking(settings)
      ensures split <==> Choice(r, doHorizontalSplit, randomNumber, settings, CutAt).Some?
      ensures split ==> Choice(r, doHorizontalSplit, randomNumber, settings, CutAt) == Some((newRoom1, newRoom2))
      ensures split ==> Measure(newRoom1, Floor(settings)) < Measure(r, Floor(settings))
      ensures split ==> Measure(newRoom2, Floor(settings)) < Measure(r, Floor(settings))
    {
      ChoiceShrinks(r, doHorizontalSplit, randomNumber, settings, CutAt);
      var ww2 := HalfTowardZero(settings.wallWidth);
      if doHorizontalSplit {
        var newHeight := CutAt(r.height, randomNumber);
        newRoom1 := RectInt(r.x, r.y, r.width, newHeight + ww2);
        newRoom2 := RectInt(r.x, r.y + newHeight - ww2, r.width, r.height - newHeight + ww2);
      } else {
        var newWidth := CutAt(r.width, randomNumber);
        newRoom1 := RectInt(r.x, r.y, newWidth + ww2, r.height);
        newRoom2 := RectInt(r.x + newWidth - ww2, r.y, r.width - newWidth + ww2, r.height);
      }

      if newRoom1.height <= settings.minimalHeight || newRoom2.height <= settings.minimalHeight {
        var newWidth := CutAt(r.width, randomNumber);
        newRoom1 := RectInt(r.x, r.y, newWidth + ww2, r.height);
        newRoom2 := RectInt(r.x + newWidth - ww2, r.y, r.width - newWidth + ww2, r.height);
        if newRoom1.width <= settings.minimalWidth || newRoom2.width <= settings.minimalWidth {
          return false, newRoom1, newRoom2;
        }
      }

      if newRoom1.width <= settings.minimalWidth || newRoom2.width <= settings.minimalWidth {
        var newHeight := CutAt(r.height, randomNumber);
        newRoom1 := RectInt(r.x, r.y, r.width, newHeight + ww2);
        newRoom2 := RectInt(r.x, r.y + newHeight - ww2, r.width, r.height - newHeight + ww2);
        if newRoom1.height <= settings.minimalHeight || newRoom2.height <= settings.minimalHeight {
          return false, newRoom1, newRoom2;
        }
      }

      split := true;
    }

    /**
     * Consumes one draw before any test, then places the door on the seam
     * of the two rooms, or rejects it.
     */
    method GenerateDoor(room1: RectInt, room2: RectInt) returns (placed: bool, door: Option<RectInt>)
      modifies this
      ensures Drawn == old(Drawn) + 1
      ensures door == DoorAt(room1, room2, settings, Noise(old(Drawn))) && placed == door.Some?
      ensures Rooms == old(Rooms) && RoomsAmount == old(RoomsAmount) && RootNode == old(RootNode)
    {
      var random := Noise(Drawn);
      Drawn := Drawn + 1;
      door := DoorAt(room1, room2, settings, random);
      placed := door.Some?;
    }
  }
}
