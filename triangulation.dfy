/**
 * The combinatorial part of the Delaunay triangulation in
 * Assets/Scripts/DTriangulation.cs: edge and triangle equality and hashing,
 * the float "almost equal" comparison, the per-vertex polygon of bad
 * triangles and the cancellation of its almost-equal edges, and the
 * collection of unique triangle sides through a HashSet.
 *
 * Graph nodes are compared by identity (a type parameter N); a node's
 * default hash code and its vertex position are supplied functions. Floats
 * are exact reals. The circumcircle test and the super-triangle test are
 * supplied predicates.
 */
module Triangulation {

  /** Vector2 with exact real coordinates. */
  datatype Vec2 = Vec2(x: real, y: real)

  /** Edge: two graph nodes. Its IsBad flag lives beside the polygon (see CancelAlmostEqual). */
  datatype Edge<N> = Edge(A: N, B: N)

  /** Triangle: three graph nodes. */
  datatype Triangle<N> = Triangle(A: N, B: N, C: N)

  /** What Equals(object) can be handed: an edge, a triangle, or anything else (null included). */
  datatype Object<N> = EdgeObject(edge: Edge<N>) | TriangleObject(triangle: Triangle<N>) | OtherObject

  /** How Triangulate ends. */
  datatype Outcome = Completed | IndexOutOfRange

  /** float.Epsilon, the least positive single-precision value. */
  const FloatEpsilon: real := 1.401298e-45
  /** float.MinValue, the most negative single-precision value. */
  const FloatMinValue: real := -3.40282347e38

  function Abs(x: real): real {
    if x < 0.0 then -x else x
  }

  // ---------------------------------------------------------------------
  // Almost-equality
  // ---------------------------------------------------------------------

  /**
   * Vertex.AlmostEqual(float, float). Its second disjunct compares a
   * distance with float.MinValue, which is negative, so only the relative
   * test can hold; and that test admits zero only next to zero.
   */
  function AlmostEqualFloat(x: real, y: real): (r: bool)
    ensures r <==> Abs(x - y) <= 2.0 * FloatEpsilon * Abs(x + y)
    ensures x == y ==> r
    ensures r && x == 0.0 ==> y == 0.0
  {
    Abs(x - y) <= FloatEpsilon * Abs(x + y) * 2.0 || Abs(x - y) < FloatMinValue
  }

  /** Vertex.AlmostEqual(Vertex, Vertex): both coordinates almost equal. */
  function AlmostEqualVertex<N>(pos: N -> Vec2, a: N, b: N): (r: bool)
    ensures pos(a) == pos(b) ==> r
    ensures r <==> AlmostEqualFloat(pos(b).x, pos(a).x) && AlmostEqualFloat(pos(b).y, pos(a).y)
  {
    AlmostEqualFloat(pos(a).x, pos(b).x) && AlmostEqualFloat(pos(a).y, pos(b).y)
  }

  /** Edge.AlmostEqual: the endpoints almost coincide in order or reversed. */
  function AlmostEqualEdge<N>(pos: N -> Vec2, l: Edge<N>, r: Edge<N>): (b: bool)
    ensures l == r || l == Edge(r.B, r.A) ==> b
    ensures b <==> ((AlmostEqualVertex(pos, r.A, l.A) && AlmostEqualVertex(pos, r.B, l.B))
                    || (AlmostEqualVertex(pos, r.B, l.A) && AlmostEqualVertex(pos, r.A, l.B)))
  {
    (AlmostEqualVertex(pos, l.A, r.A) && AlmostEqualVertex(pos, l.B, r.B))
    || (AlmostEqualVertex(pos, l.A, r.B) && AlmostEqualVertex(pos, l.B, r.A))
  }

  /** Edge.AlmostEqual does not depend on the order of its arguments. */
  lemma AlmostEqualEdgeSymmetric<N>(pos: N -> Vec2, l: Edge<N>, r: Edge<N>)
    ensures AlmostEqualEdge(pos, l, r) <==> AlmostEqualEdge(pos, r, l)
  {
  }

  // ---------------------------------------------------------------------
  // Edge equality and hashing
  // ---------------------------------------------------------------------

  /**
   * Edge operator ==: each endpoint of `l` is an endpoint of `r`. This is
   * unordered-pair equality when `l` has two different endpoints.
   */
  function EdgeEq<N(==)>(l: Edge<N>, r: Edge<N>): (b: bool)
    ensures b <==> {l.A, l.B} <= {r.A, r.B}
    ensures l.A != l.B ==> (b <==> {l.A, l.B} == {r.A, r.B})
    ensures l == r ==> b
  {
    (l.A == r.A || l.A == r.B) && (l.B == r.A || l.B == r.B)
  }

  /** Edge operator !=. */
  function EdgeNe<N(==)>(l: Edge<N>, r: Edge<N>): (b: bool)
    ensures b <==> !({l.A, l.B} <= {r.A, r.B})
  {
    !EdgeEq(l, r)
  }

  /** Edge.Equals(object): false for anything but an edge, == otherwise. */
  function EdgeEquals<N(==)>(self: Edge<N>, obj: Object<N>): (b: bool)
    ensures !obj.EdgeObject? ==> !b
    ensures b <==> obj.EdgeObject? && {self.A, self.B} <= {obj.edge.A, obj.edge.B}
  {
    if obj.EdgeObject? then EdgeEq(self, obj.edge) else false
  }

  /** Edge.GetHashCode: the 32-bit exclusive or of the endpoints' hash codes. */
  function EdgeHash<N>(hash: N -> bv32, e: Edge<N>): (h: bv32)
    ensures h == hash(e.B) ^ hash(e.A)
    ensures e.A == e.B ==> h == 0
  {
    hash(e.A) ^ hash(e.B)
  }

  /** Swapping the endpoints keeps both == and the hash code. */
  lemma EdgeReversal<N>(hash: N -> bv32, a: N, b: N)
    ensures EdgeEq(Edge(a, b), Edge(b, a)) && EdgeEq(Edge(b, a), Edge(a, b))
    ensures EdgeHash(hash, Edge(a, b)) == EdgeHash(hash, Edge(b, a))
  {
  }

  /** For edges with two different endpoints, == is symmetric and agrees with the hash code. */
  lemma {:induction false} EdgeEqProper<N>(hash: N -> bv32, l: Edge<N>, r: Edge<N>)
    requires l.A != l.B && EdgeEq(l, r)
    ensures r.A != r.B && EdgeEq(r, l)
    ensures EdgeHash(hash, l) == EdgeHash(hash, r)
  {
    if l.A == r.A {
      assert l.B == r.B;
    } else {
      assert l.A == r.B && l.B == r.A;
    }
  }

  /**
   * For an edge whose endpoints coincide, == is not symmetric and the hash
   * code disagrees with it: Edge(x, x) == Edge(x, y) but not the reverse.
   */
  lemma DegenerateEdgeEq<N>(hash: N -> bv32, x: N, y: N)
    requires x != y && hash(y) != hash(x)
    ensures EdgeEq(Edge(x, x), Edge(x, y)) && !EdgeEq(Edge(x, y), Edge(x, x))
    ensures EdgeHash(hash, Edge(x, x)) != EdgeHash(hash, Edge(x, y))
  {
    assert EdgeHash(hash, Edge(x, x)) == 0;
    assert hash(x) ^ hash(y) != 0;
  }

  // ---------------------------------------------------------------------
  // Triangle equality and hashing
  // ---------------------------------------------------------------------

  /** Triangle operator ==: each corner of `l` is a corner of `r`. */
  function TriangleEq<N(==)>(l: Triangle<N>, r: Triangle<N>): (b: bool)
    ensures b <==> {l.A, l.B, l.C} <= {r.A, r.B, r.C}
  {
    (l.A == r.A || l.A == r.B || l.A == r.C)
    && (l.B == r.A || l.B == r.B || l.B == r.C)
    && (l.C == r.A || l.C == r.B || l.C == r.C)
  }

  /** Triangle operator !=. */
  function TriangleNe<N(==)>(l: Triangle<N>, r: Triangle<N>): (b: bool)
    ensures b <==> !({l.A, l.B, l.C} <= {r.A, r.B, r.C})
  {
    !TriangleEq(l, r)
  }

  /** Triangle.Equals(object): false for anything but a triangle, == otherwise. */
  function TriangleEquals<N(==)>(self: Triangle<N>, obj: Object<N>): (b: bool)
    ensures !obj.TriangleObject? ==> !b
    ensures b <==> obj.TriangleObject?
                   && {self.A, self.B, self.C} <= {obj.triangle.A, obj.triangle.B, obj.triangle.C}
  {
    if obj.TriangleObject? then TriangleEq(self, obj.triangle) else false
  }

  /** Triangle.GetHashCode: the exclusive or of the corners' hash codes. */
  function TriangleHash<N>(hash: N -> bv32, t: Triangle<N>): bv32
  {
    hash(t.A) ^ hash(t.B) ^ hash(t.C)
  }

  /** Three corners listed in another order: the six permutations. */
  predicate Reordered<N(==)>(t: Triangle<N>, u: Triangle<N>) {
    || u == t
    || u == Triangle(t.A, t.C, t.B)
    || u == Triangle(t.B, t.A, t.C)
    || u == Triangle(t.B, t.C, t.A)
    || u == Triangle(t.C, t.A, t.B)
    || u == Triangle(t.C, t.B, t.A)
  }

  /** Two pairs with the same elements, counted with multiplicity, are equal up to order. */
  lemma SamePair<N>(a: N, b: N, x: N, y: N)
    requires multiset{a, b} == multiset{x, y}
    ensures (x == a && y == b) || (x == b && y == a)
  {
    assert x in multiset{a, b};
    if x == a {
      assert multiset{b} == multiset{a, b} - multiset{a};
      assert multiset{y} == multiset{x, y} - multiset{x};
      assert y in multiset{b};
    } else {
      assert x == b;
      assert multiset{a} == multiset{a, b} - multiset{b};
      assert multiset{y} == multiset{x, y} - multiset{x};
      assert y in multiset{a};
    }
  }

  /** Taking one corner off both sides of an equality of corner multisets. */
  lemma DropCorner<N>(a: N, b: N, c: N, x: N, y: N)
    requires multiset{a, b, c} == multiset{a, x, y}
    ensures multiset{b, c} == multiset{x, y}
  {
    assert multiset{b, c} == multiset{a, b, c} - multiset{a};
    assert multiset{x, y} == multiset{a, x, y} - multiset{a};
  }

  /** Two triangles with the same corners, counted with multiplicity, are the same up to order. */
  lemma {:induction false} SameCornersReordered<N>(t: Triangle<N>, u: Triangle<N>)
    requires multiset{t.A, t.B, t.C} == multiset{u.A, u.B, u.C}
    ensures Reordered(t, u)
  {
    assert u.A in multiset{t.A, t.B, t.C};
    if u.A == t.A {
      DropCorner(t.A, t.B, t.C, u.B, u.C);
      SamePair(t.B, t.C, u.B, u.C);
    } else if u.A == t.B {
      assert multiset{t.B, t.A, t.C} == multiset{t.A, t.B, t.C};
      DropCorner(t.B, t.A, t.C, u.B, u.C);
      SamePair(t.A, t.C, u.B, u.C);
    } else {
      assert u.A == t.C;
      assert multiset{t.C, t.A, t.B} == multiset{t.A, t.B, t.C};
      DropCorner(t.C, t.A, t.B, u.B, u.C);
      SamePair(t.A, t.B, u.B, u.C);
    }
  }

  /**
   * Listing the corners in any order gives a triangle that is == in both
   * directions and has the same hash code.
   */
  lemma {:induction false} TrianglePermutation<N>(hash: N -> bv32, t: Triangle<N>, u: Triangle<N>)
    requires multiset{t.A, t.B, t.C} == multiset{u.A, u.B, u.C}
    ensures TriangleEq(t, u) && TriangleEq(u, t)
    ensures TriangleHash(hash, t) == TriangleHash(hash, u)
  {
    SameCornersReordered(t, u);
    ReorderedHash(hash, t, u);
  }

  lemma ReorderedHash<N>(hash: N -> bv32, t: Triangle<N>, u: Triangle<N>)
    requires Reordered(t, u)
    ensures TriangleHash(hash, t) == TriangleHash(hash, u)
  {
    var a, b, c := t.A, t.B, t.C;
    HashSwapLast(hash, a, b, c);
    HashRotate(hash, a, b, c);
    HashRotate(hash, b, c, a);
    HashSwapLast(hash, b, c, a);
    HashSwapLast(hash, c, a, b);
  }

  /** Swapping the last two corners keeps the hash code. */
  lemma HashSwapLast<N>(hash: N -> bv32, a: N, b: N, c: N)
    ensures TriangleHash(hash, Triangle(a, b, c)) == TriangleHash(hash, Triangle(a, c, b))
  {
  }

  /** Rotating the corners keeps the hash code. */
  lemma HashRotate<N>(hash: N -> bv32, a: N, b: N, c: N)
    ensures TriangleHash(hash, Triangle(a, b, c)) == TriangleHash(hash, Triangle(b, c, a))
  {
  }

  // ---------------------------------------------------------------------
  // Filtering and triangle sides
  // ---------------------------------------------------------------------

  /** The elements `x` of `s` with `p(x) == want`, in order (List.RemoveAll with `want` false). */
  function Where<T>(s: seq<T>, p: T -> bool, want: bool): (r: seq<T>)
    ensures |r| <= |s|
    ensures forall i :: 0 <= i < |r| ==> r[i] in s && p(r[i]) == want
    ensures forall i :: 0 <= i < |s| && p(s[i]) == want ==> s[i] in r
  {
    if |s| == 0 then []
    else
      var r := Where(s[..|s| - 1], p, want);
      assert s == s[..|s| - 1] + [s[|s| - 1]];
      if p(s[|s| - 1]) == want then r + [s[|s| - 1]] else r
  }

  lemma WhereStep<T>(s: seq<T>, p: T -> bool, want: bool, i: int)
    requires 0 <= i < |s|
    ensures Where(s[..i + 1], p, want) == if p(s[i]) == want then Where(s[..i], p, want) + [s[i]] else Where(s[..i], p, want)
  {
    assert s[..i + 1][..i] == s[..i];
  }

  /** The three sides that Triangulate builds for a triangle: AB, BC and CA. */
  function Sides<N>(t: Triangle<N>): seq<Edge<N>> {
    [Edge(t.A, t.B), Edge(t.B, t.C), Edge(t.C, t.A)]
  }

  /** The sides of the triangles, triangle by triangle. */
  function AllSides<N>(ts: seq<Triangle<N>>): (r: seq<Edge<N>>)
    ensures |r| == 3 * |ts|
  {
    if |ts| == 0 then [] else AllSides(ts[..|ts| - 1]) + Sides(ts[|ts| - 1])
  }

  /** `e` is a side of one of the triangles. */
  predicate SideOf<N(==)>(ts: seq<Triangle<N>>, e: Edge<N>) {
    exists i :: 0 <= i < |ts| && e in Sides(ts[i])
  }

  /** The sides listed are exactly the sides of the triangles. */
  lemma {:induction false} AllSidesMembers<N>(ts: seq<Triangle<N>>)
    ensures forall i, k :: 0 <= i < |ts| && 0 <= k < 3 ==> Sides(ts[i])[k] in AllSides(ts)
    ensures forall j :: 0 <= j < |AllSides(ts)| ==> SideOf(ts, AllSides(ts)[j])
  {
    if |ts| > 0 {
      var n := |ts| - 1;
      AllSidesMembers(ts[..n]);
      assert forall i :: 0 <= i < n ==> ts[..n][i] == ts[i];
      var r := AllSides(ts);
      var prev := AllSides(ts[..n]);
      forall j | 0 <= j < |r|
        ensures SideOf(ts, r[j])
      {
        if j < |prev| {
          assert r[j] == prev[j];
          var i :| 0 <= i < n && prev[j] in Sides(ts[..n][i]);
          assert r[j] in Sides(ts[i]);
        } else {
          assert r[j] in Sides(ts[n]);
        }
      }
    }
  }

  lemma AllSidesStep<N>(ts: seq<Triangle<N>>, i: int)
    requires 0 <= i < |ts|
    ensures AllSides(ts[..i + 1]) == AllSides(ts[..i]) + Sides(ts[i])
  {
    assert ts[..i + 1][..i] == ts[..i];
  }

  // ---------------------------------------------------------------------
  // Unique edges through a HashSet
  // ---------------------------------------------------------------------

  /**
   * How HashSet<Edge>.Add compares the stored edge `x` with the new edge
   * `e`: equal hash codes, then x.Equals(e), which is x == e.
   */
  predicate SetMatch<N(==)>(hash: N -> bv32, x: Edge<N>, e: Edge<N>) {
    EdgeHash(hash, x) == EdgeHash(hash, e) && EdgeEq(x, e)
  }

  /** Whether HashSet.Add finds `e` already present among `stored`. */
  predicate Found<N(==)>(hash: N -> bv32, stored: seq<Edge<N>>, e: Edge<N>) {
    exists k :: 0 <= k < |stored| && SetMatch(hash, stored[k], e)
  }

  /**
   * The edges that the HashSet accepts, in order, when `sides` are offered
   * one after the other to an empty set: each side is kept unless it
   * matches one kept before it.
   */
  function Collected<N(==)>(hash: N -> bv32, sides: seq<Edge<N>>): (r: seq<Edge<N>>)
    ensures |r| <= |sides|
  {
    if |sides| == 0 then []
    else
      var prev := Collected(hash, sides[..|sides| - 1]);
      var e := sides[|sides| - 1];
      assert sides == sides[..|sides| - 1] + [e];
      if Found(hash, prev, e) then prev else prev + [e]
  }

  /** The set accepts only edges it was offered. */
  lemma {:induction false} CollectedFromSides<N>(hash: N -> bv32, sides: seq<Edge<N>>)
    ensures forall i :: 0 <= i < |Collected(hash, sides)| ==> Collected(hash, sides)[i] in sides
  {
    if |sides| > 0 {
      var s := sides[..|sides| - 1];
      CollectedFromSides(hash, s);
      assert sides == s + [sides[|sides| - 1]];
    }
  }

  lemma CollectedStep<N>(hash: N -> bv32, sides: seq<Edge<N>>, e: Edge<N>)
    ensures Collected(hash, sides + [e])
         == if Found(hash, Collected(hash, sides), e) then Collected(hash, sides) else Collected(hash, sides) + [e]
  {
    assert (sides + [e])[..|sides|] == sides;
  }

  /** No edge that the set accepted matches an edge it accepted earlier. */
  lemma {:induction false} CollectedApart<N>(hash: N -> bv32, sides: seq<Edge<N>>)
    ensures forall i, j :: 0 <= i < j < |Collected(hash, sides)| ==>
              !SetMatch(hash, Collected(hash, sides)[i], Collected(hash, sides)[j])
  {
    if |sides| > 0 {
      var s := sides[..|sides| - 1];
      var e := sides[|sides| - 1];
      assert sides == s + [e];
      CollectedApart(hash, s);
      CollectedStep(hash, s, e);
    }
  }

  /** Every side offered matches some edge the set holds afterwards. */
  lemma {:induction false} CollectedCovers<N>(hash: N -> bv32, sides: seq<Edge<N>>)
    ensures forall k :: 0 <= k < |sides| ==> Found(hash, Collected(hash, sides), sides[k])
  {
    if |sides| > 0 {
      var s := sides[..|sides| - 1];
      var e := sides[|sides| - 1];
      assert sides == s + [e];
      CollectedCovers(hash, s);
      CollectedStep(hash, s, e);
      var r := Collected(hash, sides);
      var prev := Collected(hash, s);
      assert r[..|prev|] == prev;
      forall k | 0 <= k < |sides|
        ensures Found(hash, r, sides[k])
      {
        if k < |s| {
          assert sides[k] == s[k];
          var m :| 0 <= m < |prev| && SetMatch(hash, prev[m], s[k]);
          assert r[m] == prev[m];
        } else if !Found(hash, prev, e) {
          assert SetMatch(hash, r[|prev|], e);
        }
      }
    }
  }

  /** Offering the three sides of the next triangle, one after the other. */
  lemma SidesStep<N>(hash: N -> bv32, ts: seq<Triangle<N>>, i: int)
    requires 0 <= i < |ts|
    ensures var before := AllSides(ts[..i]);
            var t := ts[i];
            var s0 := Collected(hash, before);
            var s1 := if Found(hash, s0, Edge(t.A, t.B)) then s0 else s0 + [Edge(t.A, t.B)];
            var s2 := if Found(hash, s1, Edge(t.B, t.C)) then s1 else s1 + [Edge(t.B, t.C)];
            Collected(hash, AllSides(ts[..i + 1]))
              == if Found(hash, s2, Edge(t.C, t.A)) then s2 else s2 + [Edge(t.C, t.A)]
  {
    var before := AllSides(ts[..i]);
    var t := ts[i];
    AllSidesStep(ts, i);
    assert AllSides(ts[..i + 1]) == before + [Edge(t.A, t.B)] + [Edge(t.B, t.C)] + [Edge(t.C, t.A)];
    CollectedStep(hash, before, Edge(t.A, t.B));
    CollectedStep(hash, before + [Edge(t.A, t.B)], Edge(t.B, t.C));
    CollectedStep(hash, before + [Edge(t.A, t.B)] + [Edge(t.B, t.C)], Edge(t.C, t.A));
  }

  /** A triangle whose three corners are different nodes. */
  predicate Proper<N(==)>(t: Triangle<N>) {
    t.A != t.B && t.B != t.C && t.C != t.A
  }

  /** Two edges with the same endpoints, in order or reversed. */
  predicate SameEnds<N(==)>(l: Edge<N>, r: Edge<N>) {
    (l.A == r.A && l.B == r.B) || (l.A == r.B && l.B == r.A)
  }

  /** Between edges with two different endpoints each, the HashSet's test is unordered-pair equality. */
  lemma ProperMatch<N>(hash: N -> bv32, x: Edge<N>, e: Edge<N>)
    requires x.A != x.B && e.A != e.B
    ensures SetMatch(hash, x, e) <==> SameEnds(x, e)
  {
    if SameEnds(x, e) {
      assert EdgeHash(hash, x) == EdgeHash(hash, e);
    }
  }

  /** The sides of triangles with three different corners have two different endpoints. */
  lemma ProperSides<N>(ts: seq<Triangle<N>>)
    requires forall i :: 0 <= i < |ts| ==> Proper(ts[i])
    ensures forall j :: 0 <= j < |AllSides(ts)| ==> AllSides(ts)[j].A != AllSides(ts)[j].B
  {
    var sides := AllSides(ts);
    AllSidesMembers(ts);
    forall j | 0 <= j < |sides|
      ensures sides[j].A != sides[j].B
    {
      var i :| 0 <= i < |ts| && sides[j] in Sides(ts[i]);
    }
  }

  /** For triangles with three different corners, no two collected edges join the same two nodes. */
  lemma {:induction false} CollectedEdgesDiffer<N>(hash: N -> bv32, ts: seq<Triangle<N>>)
    requires forall i :: 0 <= i < |ts| ==> Proper(ts[i])
    ensures forall i, j :: 0 <= i < j < |Collected(hash, AllSides(ts))| ==>
              !SameEnds(Collected(hash, AllSides(ts))[i], Collected(hash, AllSides(ts))[j])
  {
    var sides := AllSides(ts);
    var r := Collected(hash, sides);
    ProperSides(ts);
    CollectedApart(hash, sides);
    CollectedFromSides(hash, sides);
    forall i, j | 0 <= i < j < |r|
      ensures !SameEnds(r[i], r[j])
    {
      var a :| 0 <= a < |sides| && sides[a] == r[i];
      var b :| 0 <= b < |sides| && sides[b] == r[j];
      ProperMatch(hash, r[i], r[j]);
    }
  }

  /** Some edge of `edges` joins the endpoints of `e`. */
  predicate Joined<N(==)>(edges: seq<Edge<N>>, e: Edge<N>) {
    exists m :: 0 <= m < |edges| && SameEnds(edges[m], e)
  }

  /** For triangles with three different corners, every side offered joins the nodes of a collected edge. */
  lemma {:induction false} CollectedEdgesCover<N>(hash: N -> bv32, ts: seq<Triangle<N>>)
    requires forall i :: 0 <= i < |ts| ==> Proper(ts[i])
    ensures forall n :: 0 <= n < |AllSides(ts)| ==> Joined(Collected(hash, AllSides(ts)), AllSides(ts)[n])
  {
    ProperSides(ts);
    ProperCover(hash, AllSides(ts));
  }

  lemma {:induction false} ProperCover<N>(hash: N -> bv32, sides: seq<Edge<N>>)
    requires forall j :: 0 <= j < |sides| ==> sides[j].A != sides[j].B
    ensures forall n :: 0 <= n < |sides| ==> Joined(Collected(hash, sides), sides[n])
  {
    CollectedCovers(hash, sides);
    CollectedFromSides(hash, sides);
    forall n | 0 <= n < |sides|
      ensures Joined(Collected(hash, sides), sides[n])
    {
      var r := Collected(hash, sides);
      var m :| 0 <= m < |r| && SetMatch(hash, r[m], sides[n]);
      assert r[m] in sides;
      ProperMatch(hash, r[m], sides[n]);
    }
  }

  // ---------------------------------------------------------------------
  // Cancelling almost-equal polygon edges
  // ---------------------------------------------------------------------

  /**
   * After the pairs (i', j'), i' < j', that come before (n, m) in the
   * double loop: some such pair is almost equal and has `k` as a member.
   */
  ghost predicate Marked<N>(pos: N -> Vec2, p: seq<Edge<N>>, n: int, m: int, k: int) {
    exists i, j :: 0 <= i < j < |p| && (i < n || (i == n && j < m)) && (k == i || k == j)
                   && AlmostEqualEdge(pos, p[i], p[j])
  }

  /** Polygon edge `k` almost equals some other polygon edge. */
  ghost predicate Twinned<N>(pos: N -> Vec2, p: seq<Edge<N>>, k: int)
    requires 0 <= k < |p|
  {
    exists j :: 0 <= j < |p| && j != k && AlmostEqualEdge(pos, p[k], p[j])
  }

  lemma MarkedStep<N>(pos: N -> Vec2, p: seq<Edge<N>>, n: int, m: int, k: int)
    requires 0 <= n < m < |p|
    ensures Marked(pos, p, n, m + 1, k)
        <==> Marked(pos, p, n, m, k) || ((k == n || k == m) && AlmostEqualEdge(pos, p[n], p[m]))
  {
  }

  lemma MarkedRowStart<N>(pos: N -> Vec2, p: seq<Edge<N>>, n: int, k: int)
    ensures Marked(pos, p, n, n + 1, k) <==> Marked(pos, p, n, 0, k)
  {
  }

  lemma MarkedRowEnd<N>(pos: N -> Vec2, p: seq<Edge<N>>, n: int, k: int)
    ensures Marked(pos, p, n, |p|, k) <==> Marked(pos, p, n + 1, 0, k)
  {
  }

  /** Once every pair is visited, an edge is marked exactly when it almost equals another one. */
  lemma MarkedAll<N>(pos: N -> Vec2, p: seq<Edge<N>>, k: int)
    requires 0 <= k < |p|
    ensures Marked(pos, p, |p|, 0, k) <==> Twinned(pos, p, k)
  {
    if Twinned(pos, p, k) {
      var j :| 0 <= j < |p| && j != k && AlmostEqualEdge(pos, p[k], p[j]);
      AlmostEqualEdgeSymmetric(pos, p[k], p[j]);
      if j < k {
        assert AlmostEqualEdge(pos, p[j], p[k]);
      }
    }
  }

  /** `x` is an element of `p` whose flag is false. */
  ghost predicate Unflagged<T>(p: seq<T>, bad: seq<bool>, x: T)
    requires |bad| == |p|
  {
    exists k :: 0 <= k < |p| && !bad[k] && p[k] == x
  }

  lemma UnflaggedPrefix<T>(p: seq<T>, bad: seq<bool>, n: int, x: T)
    requires |bad| == |p| && 0 <= n <= |p| && Unflagged(p[..n], bad[..n], x)
    ensures Unflagged(p, bad, x)
  {
    var k :| 0 <= k < n && !bad[..n][k] && p[..n][k] == x;
    assert p[k] == x && !bad[k];
  }

  /** The elements `p[k]` whose flag is false, in order (List.RemoveAll over IsBad). */
  function Unmarked<T>(p: seq<T>, bad: seq<bool>): (r: seq<T>)
    requires |bad| == |p|
    ensures |r| <= |p|
    ensures forall k :: 0 <= k < |p| && !bad[k] ==> p[k] in r
    ensures forall i :: 0 <= i < |r| ==> Unflagged(p, bad, r[i])
  {
    if |p| == 0 then []
    else
      var n := |p| - 1;
      var r := Unmarked(p[..n], bad[..n]);
      assert forall k :: 0 <= k < n ==> p[..n][k] == p[k] && bad[..n][k] == bad[k];
      assert forall i :: 0 <= i < |r| ==> Unflagged(p, bad, r[i]) by {
        forall i | 0 <= i < |r| {
          UnflaggedPrefix(p, bad, n, r[i]);
        }
      }
      if bad[n] then r else r + [p[n]]
  }

  lemma UnmarkedStep<T>(p: seq<T>, bad: seq<bool>, n: int)
    requires |bad| == |p| && 0 <= n < |p|
    ensures Unmarked(p[..n + 1], bad[..n + 1])
         == if bad[n] then Unmarked(p[..n], bad[..n]) else Unmarked(p[..n], bad[..n]) + [p[n]]
  {
    assert p[..n + 1][..n] == p[..n] && bad[..n + 1][..n] == bad[..n];
  }

  /** The unflagged position that a position of the filtered list comes from. */
  lemma Origin<T>(p: seq<T>, bad: seq<bool>, i: int) returns (a: int)
    requires |bad| == |p| && 0 <= i < |Unmarked(p, bad)|
    ensures 0 <= a < |p| && !bad[a] && p[a] == Unmarked(p, bad)[i]
  {
    a :| 0 <= a < |p| && !bad[a] && p[a] == Unmarked(p, bad)[i];
  }

  /** Two different positions of the filtered list come from two different unflagged positions, in order. */
  lemma {:induction false} UnmarkedOrigins<T>(p: seq<T>, bad: seq<bool>, i: int, j: int) returns (a: int, b: int)
    requires |bad| == |p| && 0 <= i < j < |Unmarked(p, bad)|
    ensures 0 <= a < b < |p| && !bad[a] && !bad[b]
    ensures p[a] == Unmarked(p, bad)[i] && p[b] == Unmarked(p, bad)[j]
  {
    var n := |p| - 1;
    var q, f := p[..n], bad[..n];
    var r := Unmarked(q, f);
    assert Unmarked(p, bad) == if bad[n] then r else r + [p[n]];
    if j < |r| {
      a, b := UnmarkedOrigins(q, f, i, j);
      assert q[a] == p[a] && q[b] == p[b] && f[a] == bad[a] && f[b] == bad[b];
    } else {
      a := Origin(q, f, i);
      b := n;
      assert q[a] == p[a] && f[a] == bad[a];
    }
  }

  /** The IsBad flags the double loop leaves: an edge is bad exactly when it almost equals another. */
  ghost function TwinFlags<N>(pos: N -> Vec2, p: seq<Edge<N>>): (f: seq<bool>)
    ensures |f| == |p|
  {
    seq(|p|, k requires 0 <= k < |p| => Twinned(pos, p, k))
  }

  /** The polygon after cancellation: the edges that almost equal no other edge, in order. */
  ghost function Survivors<N>(pos: N -> Vec2, p: seq<Edge<N>>): seq<Edge<N>> {
    Unmarked(p, TwinFlags(pos, p))
  }

  /**
   * An edge of the polygon survives exactly when it almost equals no other
   * polygon edge, and the survivors are pairwise not almost equal.
   */
  lemma {:induction false} SurvivorsMeaning<N>(pos: N -> Vec2, p: seq<Edge<N>>)
    ensures forall k :: 0 <= k < |p| ==> (p[k] in Survivors(pos, p) <==> !Twinned(pos, p, k))
    ensures forall e :: e in Survivors(pos, p) ==> e in p
    ensures forall i, j :: 0 <= i < j < |Survivors(pos, p)| ==>
              !AlmostEqualEdge(pos, Survivors(pos, p)[i], Survivors(pos, p)[j])
  {
    var f := TwinFlags(pos, p);
    var r := Survivors(pos, p);
    forall k | 0 <= k < |p| && p[k] in r
      ensures !Twinned(pos, p, k)
    {
      var i :| 0 <= i < |r| && r[i] == p[k];
      var a := Origin(p, f, i);
      assert AlmostEqualEdge(pos, p[a], p[k]);
      assert a == k;
    }
    forall i, j | 0 <= i < j < |r|
      ensures !AlmostEqualEdge(pos, r[i], r[j])
    {
      var a, b := UnmarkedOrigins(p, f, i, j);
    }
    forall e | e in r
      ensures e in p
    {
      var i :| 0 <= i < |r| && r[i] == e;
      var a := Origin(p, f, i);
    }
  }

  /**
   * The polygon loop with its IsBad flags: for every pair i < j of polygon
   * edges that almost equal each other, both are flagged; the flagged edges
   * are then removed.
   */
  method CancelAlmostEqual<N>(pos: N -> Vec2, polygon: seq<Edge<N>>) returns (kept: seq<Edge<N>>)
    ensures kept == Survivors(pos, polygon)
    ensures forall i, j :: 0 <= i < j < |kept| ==> !AlmostEqualEdge(pos, kept[i], kept[j])
  {
    var bad := new bool[|polygon|](_ => false);
    var i := 0;
    while i < |polygon|
      invariant 0 <= i <= |polygon|
      invariant forall k :: 0 <= k < |polygon| ==> (bad[k] <==> Marked(pos, polygon, i, 0, k))
    {
      forall k | 0 <= k < |polygon| {
        MarkedRowStart(pos, polygon, i, k);
      }
      var j := i + 1;
      while j < |polygon|
        invariant i + 1 <= j <= |polygon|
        invariant forall k :: 0 <= k < |polygon| ==> (bad[k] <==> Marked(pos, polygon, i, j, k))
      {
        if AlmostEqualEdge(pos, polygon[i], polygon[j]) {
          bad[i] := true;
          bad[j] := true;
        }
        forall k | 0 <= k < |polygon| {
          MarkedStep(pos, polygon, i, j, k);
        }
        j := j + 1;
      }
      forall k | 0 <= k < |polygon| {
        MarkedRowEnd(pos, polygon, i, k);
      }
      i := i + 1;
    }
    forall k | 0 <= k < |polygon| {
      MarkedAll(pos, polygon, k);
    }
    assert bad[..] == TwinFlags(pos, polygon);
    kept := Unmarked(polygon, bad[..]);
    SurvivorsMeaning(pos, polygon);
  }

  // ---------------------------------------------------------------------
  // The triangulation object
  // ---------------------------------------------------------------------

  /**
   * The triangles left after the vertices of `vs`, one after the other,
   * have removed every triangle whose circumcircle contains them.
   */
  function Swept<N>(ts: seq<Triangle<N>>, vs: seq<Vec2>, inCircle: Vec2 -> Triangle<N> -> bool): (r: seq<Triangle<N>>)
    ensures forall i :: 0 <= i < |r| ==> r[i] in ts
    ensures forall i, n :: 0 <= i < |r| && 0 <= n < |vs| ==> !inCircle(vs[n])(r[i])
    ensures forall i :: 0 <= i < |ts| && (forall n :: 0 <= n < |vs| ==> !inCircle(vs[n])(ts[i])) ==> ts[i] in r
  {
    if |vs| == 0 then ts
    else
      var n := |vs| - 1;
      var prev := Swept(ts, vs[..n], inCircle);
      assert forall m :: 0 <= m < n ==> vs[..n][m] == vs[m];
      Where(prev, inCircle(vs[n]), false)
  }

  lemma SweptStep<N>(ts: seq<Triangle<N>>, vs: seq<Vec2>, inCircle: Vec2 -> Triangle<N> -> bool, n: int)
    requires 0 <= n < |vs|
    ensures Swept(ts, vs[..n + 1], inCircle) == Where(Swept(ts, vs[..n], inCircle), inCircle(vs[n]), false)
  {
    assert vs[..n + 1][..n] == vs[..n];
  }

  /** DTriangulation: its vertices, its unique edges and its triangles. */
  class DTriangulation<N(==)> {
    var Vertices: seq<Vec2>
    var Edges: seq<Edge<N>>
    var Triangles: seq<Triangle<N>>

    /** The private constructor; the vertex list is set by the caller. */
    constructor ()
      ensures Vertices == [] && Edges == [] && Triangles == []
    {
      Vertices := [];
      Edges := [];
      Triangles := [];
    }

    /**
     * For one vertex: every triangle whose circumcircle contains it is
     * flagged bad and gives its three sides to the polygon; the bad
     * triangles are then removed.
     */
    method BreakBadTriangles(v: Vec2, inCircle: Vec2 -> Triangle<N> -> bool) returns (polygon: seq<Edge<N>>)
      modifies this
      ensures Vertices == old(Vertices) && Edges == old(Edges)
      ensures Triangles == Where(old(Triangles), inCircle(v), false)
      ensures polygon == AllSides(Where(old(Triangles), inCircle(v), true))
    {
      var ts := Triangles;
      polygon := [];
      var i := 0;
      while i < |ts|
        invariant 0 <= i <= |ts|
        invariant polygon == AllSides(Where(ts[..i], inCircle(v), true))
        modifies {}
      {
        var t := ts[i];
        WhereStep(ts, inCircle(v), true, i);
        if inCircle(v)(t) {
          AllSidesStep(Where(ts[..i], inCircle(v), true) + [t], |Where(ts[..i], inCircle(v), true)|);
          polygon := polygon + [Edge(t.A, t.B), Edge(t.B, t.C), Edge(t.C, t.A)];
        }
        i := i + 1;
      }
      assert ts[..i] == ts;
      Triangles := Where(ts, inCircle(v), false);
    }

    /**
     * The unique-edge collection: the sides AB, BC and CA of every triangle,
     * in order, are offered to an empty HashSet, and each one it accepts is
     * appended to Edges.
     */
    method CollectEdges(hash: N -> bv32)
      modifies this
      ensures Vertices == old(Vertices) && Triangles == old(Triangles)
      ensures Edges == old(Edges) + Collected(hash, AllSides(Triangles))
    {
      var ts := Triangles;
      ghost var base := Edges;
      var edgeSet: seq<Edge<N>> := [];
      var i := 0;
      while i < |ts|
        invariant 0 <= i <= |ts|
        invariant Vertices == old(Vertices) && Triangles == old(Triangles)
        invariant edgeSet == Collected(hash, AllSides(ts[..i]))
        invariant Edges == base + edgeSet
      {
        var t := ts[i];
        SidesStep(hash, ts, i);
        edgeSet := Offer(hash, base, edgeSet, Edge(t.A, t.B));
        edgeSet := Offer(hash, base, edgeSet, Edge(t.B, t.C));
        edgeSet := Offer(hash, base, edgeSet, Edge(t.C, t.A));
        i := i + 1;
      }
      assert ts[..i] == ts;
    }

    /**
     * HashSet.Add on the edge set, followed by Edges.Add when it succeeds:
     * the edge is appended to both unless the set already holds a match.
     * Edges holds the edges listed before the collection, then the set's.
     */
    method Offer(hash: N -> bv32, ghost base: seq<Edge<N>>, edgeSet: seq<Edge<N>>, e: Edge<N>)
      returns (edgeSet': seq<Edge<N>>)
      requires Edges == base + edgeSet
      modifies this
      ensures Vertices == old(Vertices) && Triangles == old(Triangles)
      ensures edgeSet' == if Found(hash, edgeSet, e) then edgeSet else edgeSet + [e]
      ensures Edges == base + edgeSet'
    {
      edgeSet' := edgeSet;
      if !Found(hash, edgeSet, e) {
        edgeSet' := edgeSet + [e];
        Edges := Edges + [e];
      }
    }

    /**
     * Triangulate: reading the first vertex fails on an empty vertex list;
     * otherwise each vertex breaks the bad triangles and cancels the
     * polygon's almost-equal edges (no new triangle is created from the
     * polygon), the triangles touching the super-triangle are removed, and
     * the unique edges are collected.
     */
    method Triangulate(hash: N -> bv32, pos: N -> Vec2, inCircle: Vec2 -> Triangle<N> -> bool,
                       superTouch: Triangle<N> -> bool)
      returns (outcome: Outcome)
      modifies this
      ensures Vertices == old(Vertices)
      ensures |Vertices| == 0 ==> outcome == IndexOutOfRange && Triangles == old(Triangles) && Edges == old(Edges)
      ensures |Vertices| > 0 ==>
                && outcome == Completed
                && Triangles == Where(Swept(old(Triangles), Vertices, inCircle), superTouch, false)
                && Edges == old(Edges) + Collected(hash, AllSides(Triangles))
    {
      if |Vertices| == 0 {
        return IndexOutOfRange;
      }
      var vs := Vertices;
      ghost var ts := Triangles;
      var i := 0;
      while i < |vs|
        invariant 0 <= i <= |vs|
        invariant Vertices == vs && Edges == old(Edges)
        invariant Triangles == Swept(ts, vs[..i], inCircle)
      {
        var polygon := BreakBadTriangles(vs[i], inCircle);
        polygon := CancelAlmostEqual(pos, polygon);
        SweptStep(ts, vs, inCircle, i);
        i := i + 1;
      }
      assert vs[..i] == vs;
      Triangles := Where(Triangles, superTouch, false);
      CollectEdges(hash);
      outcome := Completed;
    }
  }

  /**
   * The static DTriangulation.Triangulate(graph): a new triangulation whose
   * vertex list is set to an empty list before triangulating, so it always
   * fails on its first vertex.
   */
  method TriangulateGraph<N(==)>(hash: N -> bv32, pos: N -> Vec2, inCircle: Vec2 -> Triangle<N> -> bool,
                                 superTouch: Triangle<N> -> bool)
    returns (d: DTriangulation<N>, outcome: Outcome)
    ensures outcome == IndexOutOfRange
    ensures d.Vertices == [] && d.Edges == [] && d.Triangles == []
  {
    d := new DTriangulation();
    d.Vertices := [];
    outcome := d.Triangulate(hash, pos, inCircle, superTouch);
  }

  /**
   * No triangle is ever created: starting without triangles, Triangulate
   * ends without triangles and without edges.
   */
  lemma NoTrianglesCreated<N>(hash: N -> bv32, vs: seq<Vec2>, inCircle: Vec2 -> Triangle<N> -> bool,
                                  superTouch: Triangle<N> -> bool)
    ensures Where(Swept([], vs, inCircle), superTouch, false) == []
    ensures Collected(hash, AllSides(Where(Swept([], vs, inCircle), superTouch, false))) == []
  {
  }
}
