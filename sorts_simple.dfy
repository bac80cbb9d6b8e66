/** The exchange sorts of gitopenlib/utils/sorts.py: bubble_sort,
    select_sort, insert_sort (as written and as intended) and shell_sort.
    Each works in place on the list, modelled as an `array<int>`. */
module SortsSimple {
  import opened Sorting

  /** bubble_sort: pass i bubbles the largest of `a[..n-i]` to `a[n-1-i]`. */
  method BubbleSort(a: array<int>)
    modifies a
    ensures Sorted(a[..])
    ensures multiset(a[..]) == multiset(old(a[..]))
  {
    var n := a.Length;
    var i := 0;
    while i < n - 1
      invariant 0 <= i <= if n == 0 then 0 else n - 1
      // after pass i the last i cells hold the largest values, in order
      invariant forall p, q :: n - i <= p < q < n ==> a[p] <= a[q]
      invariant forall p, q :: 0 <= p < n - i <= q < n ==> a[p] <= a[q]
      invariant multiset(a[..]) == multiset(old(a[..]))
    {
      BubblePass(a, n - i);
      i := i + 1;
    }
  }

  /** The inner loop of bubble_sort over `a[..m]`: adjacent out-of-order
      cells are swapped, so the largest of `a[..m]` ends at `a[m - 1]`.
      Only `a[..m]` is permuted, so a partition at `m` is kept. */
  method BubblePass(a: array<int>, m: int)
    requires 1 <= m <= a.Length
    requires forall p, q :: 0 <= p < m <= q < a.Length ==> a[p] <= a[q]
    modifies a
    ensures forall k :: 0 <= k < m ==> a[k] <= a[m - 1]
    ensures forall k :: m <= k < a.Length ==> a[k] == old(a[k])
    ensures forall p, q :: 0 <= p < m <= q < a.Length ==> a[p] <= a[q]
    ensures multiset(a[..]) == multiset(old(a[..]))
  {
    var j := 0;
    while j < m - 1
      invariant Bubbling(a[..], old(a[..]), m, j)
      invariant multiset(a[..]) == multiset(old(a[..]))
    {
      BubbleStep(a[..], old(a[..]), m, j);
      if a[j] > a[j + 1] {
        Swap(a, j, j + 1);
      }
      j := j + 1;
    }
  }

  /** The state of bubble_sort's inner loop at `j` over `a[..m]`, `o` being
      the list before the pass. */
  ghost predicate Bubbling(s: seq<int>, o: seq<int>, m: int, j: int) {
    0 <= j <= m - 1 && m <= |s| == |o|
    && (forall k :: 0 <= k <= j ==> s[k] <= s[j])
    && (forall k :: m <= k < |s| ==> s[k] == o[k])
    && (forall p, q :: 0 <= p < m <= q < |s| ==> s[p] <= s[q])
  }

  lemma BubbleStep(s: seq<int>, o: seq<int>, m: int, j: int)
    requires Bubbling(s, o, m, j) && j < m - 1
    ensures Bubbling(if s[j] > s[j + 1] then s[j := s[j + 1]][j + 1 := s[j]] else s, o, m, j + 1)
  {
  }

  /** select_sort: step i swaps the smallest of `a[i..]` into `a[i]`. */
  method SelectSort(a: array<int>)
    modifies a
    ensures Sorted(a[..])
    ensures multiset(a[..]) == multiset(old(a[..]))
  {
    var n := a.Length;
    var i := 0;
    while i < n
      invariant 0 <= i <= n
      // the prefix is sorted and no larger than anything after it
      invariant Sorted(a[..i])
      invariant Partitioned(a[..], 0, i)
      invariant multiset(a[..]) == multiset(old(a[..]))
    {
      var minIdx := i;
      var j := i;
      while j < n
        invariant i <= j <= n && i <= minIdx < n
        invariant forall k :: i <= k < j ==> a[minIdx] <= a[k]
      {
        if a[j] < a[minIdx] {
          minIdx := j;
        }
        j := j + 1;
      }
      Swap(a, i, minIdx);
      i := i + 1;
    }
    assert a[..] == a[..n];
  }

  /** insert_sort as intended (line 70 writing `alist[j]`): the element at
      `a[i]` moves left by adjacent swaps while it is smaller than its left
      neighbour. */
  method InsertSort(a: array<int>)
    modifies a
    ensures Sorted(a[..])
    ensures multiset(a[..]) == multiset(old(a[..]))
  {
    var n := a.Length;
    var i := 1;
    while i < n
      invariant 1 <= i <= if n == 0 then 1 else n
      invariant i <= n ==> Sorted(a[..i])
      invariant multiset(a[..]) == multiset(old(a[..]))
    {
      GapInsert(a, i, 1);
      i := i + 1;
    }
    assert n > 0 ==> a[..] == a[..i];
  }

  // ----- insert_sort as written -----

  /** One step of the inner loop as written at line 70:
      `alist[j], alist[j - 1] = alist[j - 1], alist[i]`. */
  function WrittenStep(s: seq<int>, i: nat, j: nat): (r: seq<int>)
    requires 0 < j <= i < |s|
    ensures |r| == |s|
    ensures r[j] == s[j - 1] && r[j - 1] == s[i]
    ensures forall k :: 0 <= k < |s| && k != j && k != j - 1 ==> r[k] == s[k]
  {
    s[j := s[j - 1]][j - 1 := s[i]]
  }

  /** The inner loop `for j in range(i, 0, -1)` as written, from `j` down. */
  function WrittenInner(s: seq<int>, i: nat, j: nat): (r: seq<int>)
    requires j <= i < |s|
    ensures |r| == |s|
    decreases j
  {
    if j == 0 || !(s[j] < s[j - 1]) then s
    else WrittenInner(WrittenStep(s, i, j), i, j - 1)
  }

  /** The outer loop `for i in range(1, length)` as written, from `i` on. */
  function WrittenOuter(s: seq<int>, i: nat): (r: seq<int>)
    ensures |r| == |s|
    decreases |s| - i
  {
    if i >= |s| then s
    else WrittenOuter(WrittenInner(s, i, i), i + 1)
  }

  /** What insert_sort as written returns. */
  function InsertSortWritten(s: seq<int>): (r: seq<int>)
    ensures |r| == |s|
    ensures |s| <= 1 ==> r == s
  {
    WrittenOuter(s, 1)
  }

  /** insert_sort exactly as written: the list ends as `InsertSortWritten`
      of its old contents. */
  method InsertSortAsWritten(a: array<int>)
    modifies a
    ensures a[..] == InsertSortWritten(old(a[..]))
  {
    var n := a.Length;
    var i := 1;
    while i < n
      invariant 1 <= i
      invariant WrittenOuter(a[..], i) == InsertSortWritten(old(a[..]))
    {
      ghost var start := a[..];
      var j := i;
      while j > 0 && a[j] < a[j - 1]
        invariant 0 <= j <= i
        invariant WrittenInner(a[..], i, j) == WrittenInner(start, i, i)
      {
        assert WrittenStep(a[..], i, j) == a[..][j := a[j - 1]][j - 1 := a[i]];
        a[j], a[j - 1] := a[j - 1], a[i];
        j := j - 1;
      }
      i := i + 1;
    }
  }

  /** The counterexample: [3, 2, 1] becomes [3, 2, 3], which is neither
      sorted nor a permutation of the input. */
  lemma InsertSortWrittenCounterexample()
    ensures InsertSortWritten([3, 2, 1]) == [3, 2, 3]
    ensures !Sorted(InsertSortWritten([3, 2, 1]))
    ensures multiset(InsertSortWritten([3, 2, 1])) != multiset([3, 2, 1])
  {
    var s0: seq<int> := [3, 2, 1];
    var s1 := WrittenInner(s0, 1, 1);
    assert WrittenStep(s0, 1, 1) == [2, 3, 1];
    assert WrittenInner([2, 3, 1], 1, 0) == [2, 3, 1];
    assert s1 == [2, 3, 1];
    assert WrittenStep([2, 3, 1], 2, 2) == [2, 1, 3];
    assert WrittenStep([2, 1, 3], 2, 1) == [3, 2, 3];
    assert WrittenInner([3, 2, 3], 2, 0) == [3, 2, 3];
    assert WrittenInner(s1, 2, 2) == [3, 2, 3];
    assert WrittenOuter([3, 2, 3], 3) == [3, 2, 3];
    assert InsertSortWritten(s0) == WrittenOuter(WrittenOuter(s1, 2), 3) == [3, 2, 3];
    assert multiset([3, 2, 3])[3] == 2;
  }

  // ----- shell_sort -----

  /** The inner loop of insert_sort (lines 67-72, with line 70 writing
      `alist[j]`) and of shell_sort (lines 85-90): the element at `a[i]`
      moves left `gap` cells at a time by swaps while it is smaller than the
      cell `gap` to its left. With gap 1 it inserts `a[i]` into the sorted
      prefix `a[..i]`. */
  method GapInsert(a: array<int>, i: int, gap: int)
    requires 0 <= i < a.Length && 1 <= gap
    requires gap == 1 ==> Sorted(a[..i])
    modifies a
    ensures gap == 1 ==> Sorted(a[..i + 1])
    ensures multiset(a[..]) == multiset(old(a[..]))
  {
    var k := i;
    if gap == 1 {
      InsertStart(a[..], i);
    }
    while k - gap >= 0 && a[k] < a[k - gap]
      invariant 0 <= k <= i
      invariant gap == 1 ==> Inserting(a[..], i, k)
      invariant multiset(a[..]) == multiset(old(a[..]))
      decreases k
    {
      if gap == 1 {
        InsertStep(a[..], i, k);
      }
      Swap(a, k, k - gap);
      k := k - gap;
    }
    if gap == 1 {
      InsertDone(a[..], i, k);
    }
  }

  /** While `a[i]` travels left to cell `k`: `a[..i+1]` without cell `k` is
      sorted, and the travelling value is below everything right of it. */
  ghost predicate Inserting(s: seq<int>, i: int, k: int) {
    0 <= k <= i < |s|
    && (forall p, q :: 0 <= p < q <= i && p != k && q != k ==> s[p] <= s[q])
    && (forall q :: k < q <= i ==> s[k] <= s[q])
  }

  lemma InsertStart(s: seq<int>, i: int)
    requires 0 <= i < |s| && Sorted(s[..i])
    ensures Inserting(s, i, i)
  {
    assert forall p :: 0 <= p < i ==> s[p] == s[..i][p];
  }

  lemma InsertStep(s: seq<int>, i: int, k: int)
    requires Inserting(s, i, k) && 0 < k && s[k] < s[k - 1]
    ensures Inserting(s[k := s[k - 1]][k - 1 := s[k]], i, k - 1)
  {
  }

  lemma InsertDone(s: seq<int>, i: int, k: int)
    requires Inserting(s, i, k) && (k == 0 || s[k - 1] <= s[k])
    ensures Sorted(s[..i + 1])
  {
  }

  /** shell_sort with the gap sequence n//2, n//4, ..., 1: each pass is a
      gapped insertion sort by swaps; the last (gap 1) pass sorts. */
  method ShellSort(a: array<int>)
    modifies a
    ensures Sorted(a[..])
    ensures multiset(a[..]) == multiset(old(a[..]))
  {
    var n := a.Length;
    var gap := n / 2;
    while gap >= 1
      invariant 0 <= gap
      invariant gap == 0 ==> Sorted(a[..])
      invariant multiset(a[..]) == multiset(old(a[..]))
      decreases gap
    {
      var i := gap;
      while i < n
        invariant gap <= i <= n || n < gap
        invariant gap == 1 ==> Sorted(a[..i])
        invariant multiset(a[..]) == multiset(old(a[..]))
      {
        GapInsert(a, i, gap);
        i := i + 1;
      }
      if gap == 1 {
        assert a[..] == a[..i];
      }
      gap := gap / 2;
    }
  }
}
