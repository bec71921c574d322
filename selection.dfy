/**
 * The selection rule shared by both spanning-tree loops: scan a list once,
 * keeping the first qualifying entry whose weight is strictly below the
 * best seen so far. The result is the first entry of least weight among
 * the qualifying ones.
 */
module Selection {
  import opened Collections

  /** What the scan looks at for one entry: whether it qualifies, and its weight. */
  datatype Score = Score(qualifies: bool, weight: real)

  /** The index the scan of `s[..n]` ends with, if any entry qualifies. */
  function FirstMin(s: seq<Score>, n: nat): (r: Option<nat>)
    requires n <= |s|
    ensures r.Some? ==> r.value < n && s[r.value].qualifies
  {
    if n == 0 then None
    else
      var best := FirstMin(s, n - 1);
      if s[n - 1].qualifies && (best.None? || s[n - 1].weight < s[best.value].weight)
      then Some(n - 1) else best
  }

  lemma {:induction false} FirstMinNone(s: seq<Score>, n: nat)
    requires n <= |s|
    ensures FirstMin(s, n).None? <==> forall j :: 0 <= j < n ==> !s[j].qualifies
  {
    if n > 0 {
      FirstMinNone(s, n - 1);
    }
  }

  lemma {:induction false} FirstMinLeast(s: seq<Score>, n: nat)
    requires n <= |s|
    ensures var r := FirstMin(s, n);
      r.Some? ==> forall j :: 0 <= j < n && s[j].qualifies ==> s[r.value].weight <= s[j].weight
  {
    if n > 0 {
      FirstMinLeast(s, n - 1);
      FirstMinNone(s, n - 1);
    }
  }

  lemma {:induction false} FirstMinFirst(s: seq<Score>, n: nat)
    requires n <= |s|
    ensures var r := FirstMin(s, n);
      r.Some? ==> forall j :: 0 <= j < r.value && s[j].qualifies ==> s[r.value].weight < s[j].weight
  {
    if n > 0 {
      FirstMinFirst(s, n - 1);
      FirstMinLeast(s, n - 1);
      FirstMinNone(s, n - 1);
    }
  }

  /**
   * The scan finds an entry iff one qualifies; the entry found weighs least
   * among the qualifying ones, and each qualifying entry before it weighs
   * strictly more.
   */
  lemma FirstMinIsFirstLeast(s: seq<Score>, n: nat)
    requires n <= |s|
    ensures var r := FirstMin(s, n);
      && (r.None? <==> forall j :: 0 <= j < n ==> !s[j].qualifies)
      && (r.Some? ==> forall j :: 0 <= j < n && s[j].qualifies ==> s[r.value].weight <= s[j].weight)
      && (r.Some? ==> forall j :: 0 <= j < r.value && s[j].qualifies ==> s[r.value].weight < s[j].weight)
  {
    FirstMinNone(s, n);
    FirstMinLeast(s, n);
    FirstMinFirst(s, n);
  }
}
