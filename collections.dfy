/**
 * Sequence and set facts shared by the whole model: the elements of a
 * sequence, duplicate-freedom, removal of elements from a sequence that
 * keeps the order of the rest (how a .NET Dictionary's enumeration order
 * changes on Remove), and a few cardinality lemmas.
 */
module Collections {

  datatype Option<T> = None | Some(value: T)

  function Elems<T>(s: seq<T>): set<T> {
    set x | x in s
  }

  ghost predicate Distinct<T>(s: seq<T>) {
    forall i, j :: 0 <= i < j < |s| ==> s[i] != s[j]
  }

  /** `s` without every element of `R`, the others in their order. */
  function FilterOut<T(==)>(s: seq<T>, R: set<T>): seq<T> {
    if |s| == 0 then []
    else (if s[0] in R then [] else [s[0]]) + FilterOut(s[1..], R)
  }

  /** `s` with `x` appended unless it is already there (Dictionary insertion order). */
  function AppendNew<T(==)>(s: seq<T>, x: T): (r: seq<T>)
    ensures Elems(r) == Elems(s) + {x}
    ensures Distinct(s) ==> Distinct(r)
  {
    if x in s then s else (AppendFresh(s, x); s + [x])
  }

  lemma ConcatAssoc<T>(a: seq<T>, b: seq<T>, c: seq<T>)
    ensures (a + b) + c == a + (b + c)
  {
  }

  /** Taking one element more adds that element to the taken prefix's elements. */
  lemma ElemsTakeOneMore<T>(s: seq<T>, i: int)
    requires 0 <= i < |s|
    ensures s[..i + 1] == s[..i] + [s[i]] && Elems(s[..i + 1]) == Elems(s[..i]) + {s[i]}
  {
    assert s[..i + 1] == s[..i] + [s[i]];
  }

  lemma ElemsConcat<T>(a: seq<T>, b: seq<T>)
    ensures Elems(a + b) == Elems(a) + Elems(b)
  {
    assert forall x :: x in a + b <==> x in a || x in b;
  }

  lemma {:induction false} FilterOutElems<T>(s: seq<T>, R: set<T>)
    ensures Elems(FilterOut(s, R)) == Elems(s) - R
  {
    if |s| > 0 {
      FilterOutElems(s[1..], R);
      assert s == [s[0]] + s[1..];
      ElemsConcat([s[0]], s[1..]);
      ElemsConcat(if s[0] in R then [] else [s[0]], FilterOut(s[1..], R));
    }
  }

  lemma {:induction false} FilterOutDistinct<T>(s: seq<T>, R: set<T>)
    requires Distinct(s)
    ensures Distinct(FilterOut(s, R))
  {
    if |s| > 0 {
      assert Distinct(s[1..]);
      FilterOutDistinct(s[1..], R);
      FilterOutElems(s[1..], R);
      assert s[0] !in Elems(s[1..]);
      var t := FilterOut(s[1..], R);
      if s[0] !in R {
        assert FilterOut(s, R) == [s[0]] + t;
        assert s[0] !in Elems(t);
        assert forall i :: 0 < i < |[s[0]] + t| ==> ([s[0]] + t)[i] == t[i - 1];
      } else {
        assert FilterOut(s, R) == t;
      }
    }
  }

  /** Removing nothing that is there changes nothing. */
  lemma {:induction false} FilterOutNone<T>(s: seq<T>, R: set<T>)
    requires forall i :: 0 <= i < |s| ==> s[i] !in R
    ensures FilterOut(s, R) == s
  {
    if |s| > 0 {
      FilterOutNone(s[1..], R);
      assert s == [s[0]] + s[1..];
    }
  }

  /** Two removals in a row are one removal of both sets. */
  lemma {:induction false} FilterOutTwice<T>(s: seq<T>, A: set<T>, B: set<T>)
    ensures FilterOut(FilterOut(s, A), B) == FilterOut(s, A + B)
  {
    if |s| > 0 {
      FilterOutTwice(s[1..], A, B);
      var t := FilterOut(s[1..], A);
      if s[0] !in A {
        assert FilterOut(s, A) == [s[0]] + t;
        assert ([s[0]] + t)[1..] == t;
      } else {
        assert FilterOut(s, A) == t;
      }
    }
  }

  /** Appending a node that is not yet in a duplicate-free sequence keeps it duplicate-free. */
  lemma DistinctCons<T>(e: T, r: seq<T>)
    requires Distinct(r) && e !in r
    ensures Distinct([e] + r)
  {
    var s := [e] + r;
    forall i, j | 0 <= i < j < |s|
      ensures s[i] != s[j]
    {
      assert s[j] == r[j - 1];
      if i > 0 {
        assert s[i] == r[i - 1];
      }
    }
  }

  lemma AppendFresh<T>(s: seq<T>, x: T)
    requires x !in Elems(s)
    ensures Distinct(s) ==> Distinct(s + [x])
    ensures Elems(s + [x]) == Elems(s) + {x}
  {
    assert forall i :: 0 <= i < |s| ==> (s + [x])[i] == s[i];
  }

  lemma CardRemove<T>(S: set<T>, x: T)
    requires x in S
    ensures |S - {x}| == |S| - 1
  {
    assert S == (S - {x}) + {x};
  }

  lemma SingletonCard<T>(S: set<T>, x: T)
    requires |S| == 1 && x in S
    ensures S == {x}
  {
    CardRemove(S, x);
  }

  /** A subset has at most as many elements. */
  lemma {:induction false} SubsetCard<T>(A: set<T>, B: set<T>)
    requires A <= B
    ensures |A| <= |B|
    decreases |A|
  {
    if A != {} {
      var x :| x in A;
      SubsetCard(A - {x}, B - {x});
    }
  }

  /** A sequence without duplicates has as many elements as its set. */
  lemma {:induction false} DistinctCard<T>(s: seq<T>)
    requires Distinct(s)
    ensures |Elems(s)| == |s|
  {
    if |s| > 0 {
      var t := s[..|s| - 1];
      assert Distinct(t);
      DistinctCard(t);
      assert Elems(s) == Elems(t) + {s[|s| - 1]};
      assert s[|s| - 1] !in Elems(t);
    }
  }

  /** HashSet.ToList: the elements of `s`, each once, in some order. */
  method SetToSeq<T>(s: set<T>) returns (r: seq<T>)
    ensures Distinct(r) && Elems(r) == s
  {
    r := [];
    var rest := s;
    while rest != {}
      invariant rest <= s && Elems(r) == s - rest && Distinct(r)
      decreases rest
    {
      var x :| x in rest;
      AppendFresh(r, x);
      r := r + [x];
      rest := rest - {x};
    }
  }
}
