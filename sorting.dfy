/** Vocabulary shared by the models of gitopenlib/utils/sorts.py and by the
    other cores that sort integer lists: what "sorted" means, an in-place
    swap, and Python's built-in `sorted()` on a list of integers. */
module Sorting {

  /** Ascending order (Python's `<=` on integers). */
  predicate Sorted(s: seq<int>) {
    forall i, j :: 0 <= i < j < |s| ==> s[i] <= s[j]
  }

  /** Descending order, as `list.sort(reverse=True)` leaves a list. */
  predicate SortedDesc(s: seq<int>) {
    forall i, j :: 0 <= i < j < |s| ==> s[i] >= s[j]
  }

  /** `s[lo..hi]` is in ascending order (an empty or one-cell range is). */
  predicate SortedRange(s: seq<int>, lo: int, hi: int) {
    forall p, q :: lo <= p < q < hi && 0 <= p && q < |s| ==> s[p] <= s[q]
  }

  /** Every element of `s[lo..hi]` is at most every element of `s[hi..]`. */
  predicate Partitioned(s: seq<int>, lo: int, hi: int)
    requires 0 <= lo <= hi <= |s|
  {
    forall p, q :: lo <= p < hi <= q < |s| ==> s[p] <= s[q]
  }

  /** `a[i], a[j] = a[j], a[i]` */
  method Swap(a: array<int>, i: int, j: int)
    requires 0 <= i < a.Length && 0 <= j < a.Length
    modifies a
    ensures a[..] == old(a[..])[i := old(a[j])][j := old(a[i])]
    ensures multiset(a[..]) == multiset(old(a[..]))
  {
    a[i], a[j] := a[j], a[i];
  }

  /** Adding the same elements on both sides can be undone. */
  lemma MultisetCancel(a: multiset<int>, b: multiset<int>, c: multiset<int>, e: multiset<int>)
    requires a + b + c == a + e + c
    ensures b == e
  {
    forall x ensures b[x] == e[x] {
      assert (a + b + c)[x] == (a + e + c)[x];
    }
  }

  /** Adding the same elements in front can be undone. */
  lemma MultisetCancelLeft(a: multiset<int>, b: multiset<int>, e: multiset<int>)
    requires a + b == a + e
    ensures b == e
  {
    forall x ensures b[x] == e[x] {
      assert (a + b)[x] == (a + e)[x];
    }
  }

  /** The elements of a non-empty list are its head and those of its tail. */
  lemma MultisetCons(s: seq<int>)
    requires |s| > 0
    ensures multiset(s) == multiset{s[0]} + multiset(s[1..])
  {
    assert s == [s[0]] + s[1..];
  }

  /** The head of an ascending list is its least element. */
  lemma SortedHeadLeast(s: seq<int>, x: int)
    requires Sorted(s) && x in multiset(s)
    ensures s[0] <= x
  {
    var k :| 0 <= k < |s| && s[k] == x;
  }

  /** Two ascending lists with the same elements are equal: this is why a
      sort's result is determined by "sorted and a permutation". */
  lemma {:induction false} SortedUnique(s: seq<int>, t: seq<int>)
    requires Sorted(s) && Sorted(t) && multiset(s) == multiset(t)
    ensures s == t
    decreases |s|
  {
    assert |s| == |multiset(s)| == |multiset(t)| == |t|;
    if |s| > 0 {
      SameHeads(s, t);
      SortedUnique(s[1..], t[1..]);
      assert s == [s[0]] + s[1..];
      assert t == [t[0]] + t[1..];
    }
  }

  /** Two non-empty ascending lists with the same elements have the same
      head, and their tails have the same elements. */
  lemma SameHeads(s: seq<int>, t: seq<int>)
    requires |s| > 0 && |t| > 0
    requires Sorted(s) && Sorted(t) && multiset(s) == multiset(t)
    ensures s[0] == t[0] && multiset(s[1..]) == multiset(t[1..])
  {
    SortedHeadLeast(s, t[0]);
    SortedHeadLeast(t, s[0]);
    MultisetCons(s);
    MultisetCons(t);
    MultisetCancelLeft(multiset{s[0]}, multiset(s[1..]), multiset(t[1..]));
  }

  /** Inserts `x` into the ascending list `s` before the first larger element. */
  function Insert(x: int, s: seq<int>): (r: seq<int>)
    requires Sorted(s)
    ensures Sorted(r) && multiset(r) == multiset(s) + multiset{x}
    ensures forall k :: 0 <= k < |r| ==> r[k] == x || r[k] in s
  {
    if s == [] || x <= s[0] then [x] + s
    else
      assert s == [s[0]] + s[1..];
      [s[0]] + Insert(x, s[1..])
  }

  /** Python's `sorted(xs)` on integers: a new ascending list with the same
      elements. */
  function SortedCopy(xs: seq<int>): (r: seq<int>)
    ensures Sorted(r) && multiset(r) == multiset(xs)
  {
    if xs == [] then []
    else
      assert xs == [xs[0]] + xs[1..];
      Insert(xs[0], SortedCopy(xs[1..]))
  }

  /** `s` and `t` agree outside `[lo, hi)`. */
  ghost predicate SameOutside(s: seq<int>, t: seq<int>, lo: int, hi: int) {
    |s| == |t| && forall k :: 0 <= k < |s| && !(lo <= k < hi) ==> s[k] == t[k]
  }

  /** Every cell of `s[lo..hi]` is at most `p`. */
  ghost predicate AtMost(s: seq<int>, lo: int, hi: int, p: int) {
    forall k :: lo <= k < hi && 0 <= k < |s| ==> s[k] <= p
  }

  /** Every cell of `s[lo..hi]` is at least `p`. */
  ghost predicate AtLeast(s: seq<int>, lo: int, hi: int, p: int) {
    forall k :: lo <= k < hi && 0 <= k < |s| ==> s[k] >= p
  }

  /** A permutation of the whole list that leaves everything outside
      `[lo, hi)` alone permutes `[lo, hi)`. */
  lemma SegmentPerm(s: seq<int>, t: seq<int>, lo: int, hi: int)
    requires 0 <= lo <= hi <= |s|
    requires SameOutside(s, t, lo, hi) && multiset(s) == multiset(t)
    ensures multiset(s[lo..hi]) == multiset(t[lo..hi])
  {
    var a, b, c := s[..lo], s[lo..hi], s[hi..];
    var e := t[lo..hi];
    assert s == a + b + c;
    assert t == a + e + c;
    assert multiset(a + b + c) == multiset(a) + multiset(b) + multiset(c);
    assert multiset(a + e + c) == multiset(a) + multiset(e) + multiset(c);
    MultisetCancel(multiset(a), multiset(b), multiset(c), multiset(e));
  }

  /** Such a permutation keeps any bound that held on every cell of `[lo, hi)`. */
  lemma PermKeepsBounds(s: seq<int>, t: seq<int>, lo: int, hi: int, p: int)
    requires 0 <= lo <= hi <= |s|
    requires SameOutside(s, t, lo, hi) && multiset(s) == multiset(t)
    ensures AtMost(t, lo, hi, p) ==> AtMost(s, lo, hi, p)
    ensures AtLeast(t, lo, hi, p) ==> AtLeast(s, lo, hi, p)
  {
    SegmentPerm(s, t, lo, hi);
    forall k | lo <= k < hi
      ensures s[k] in multiset(t[lo..hi])
    {
      assert s[k] == s[lo..hi][k - lo];
    }
    forall k | lo <= k < hi
      ensures exists j :: lo <= j < hi && t[j] == s[k]
    {
      var x := s[k];
      assert x in t[lo..hi];
      var i :| 0 <= i < hi - lo && t[lo..hi][i] == x;
      assert t[lo + i] == x;
    }
  }

  /** Python's `min(xs)` on a non-empty list of integers. */
  function MinOf(xs: seq<int>): (m: int)
    requires |xs| > 0
    ensures m in xs && forall k :: 0 <= k < |xs| ==> m <= xs[k]
  {
    if |xs| == 1 then xs[0]
    else
      var rest := MinOf(xs[1..]);
      assert forall k :: 1 <= k < |xs| ==> xs[k] == xs[1..][k - 1];
      if xs[0] <= rest then xs[0] else rest
  }

  /** Python's `max(xs)` on a non-empty list of integers. */
  function MaxOf(xs: seq<int>): (m: int)
    requires |xs| > 0
    ensures m in xs && forall k :: 0 <= k < |xs| ==> m >= xs[k]
  {
    if |xs| == 1 then xs[0]
    else
      var rest := MaxOf(xs[1..]);
      assert forall k :: 1 <= k < |xs| ==> xs[k] == xs[1..][k - 1];
      if xs[0] >= rest then xs[0] else rest
  }
}
