/** heap_sort of gitopenlib/utils/sorts.py: a binary max-heap laid out in
    the array (children of `k` at `2k+1` and `2k+2`), built bottom-up and
    then emptied into the tail of the array. */
module SortsHeap {
  import opened Sorting

  /** Node `k` is not smaller than those of its children that lie in the
      first `n` cells. */
  ghost predicate HeapAt(s: seq<int>, n: int, k: int)
    requires 0 <= k
  {
    (2 * k + 1 < n && 2 * k + 1 < |s| ==> s[k] >= s[2 * k + 1])
    && (2 * k + 2 < n && 2 * k + 2 < |s| ==> s[k] >= s[2 * k + 2])
  }

  /** The first `n` cells form a max-heap from node `lo` on. */
  ghost predicate HeapFrom(s: seq<int>, n: int, lo: int) {
    forall k :: 0 <= lo <= k < n ==> HeapAt(s, n, k)
  }

  /** `k` lies in the subtree rooted at `r`. */
  ghost predicate InSubtree(r: int, k: int)
    decreases k
  {
    0 <= r <= k && (k == r || (k > 0 && InSubtree(r, (k - 1) / 2)))
  }

  /** In a heap of the first `n` cells the root is a maximum of them. */
  lemma {:induction false} HeapRootMax(s: seq<int>, n: int, k: int)
    requires n <= |s| && HeapFrom(s, n, 0) && 0 <= k < n
    ensures s[0] >= s[k]
    decreases k
  {
    if k > 0 {
      var p := (k - 1) / 2;
      assert HeapAt(s, n, p);
      HeapRootMax(s, n, p);
    }
  }

  /** max_heap(heap, heapsize, root) (lines 119-133): swaps the root of a
      subtree whose other nodes already satisfy the heap order down until
      it is in place. Only cells of that subtree below `heapsize` change,
      and the new root is the old root or one of its two children. */
  method MaxHeap(a: array<int>, heapsize: int, root: int)
    requires 0 <= root && heapsize <= a.Length
    requires HeapFrom(a[..], heapsize, root + 1)
    modifies a
    ensures HeapFrom(a[..], heapsize, root)
    ensures forall k :: 0 <= k < a.Length && (k >= heapsize || !InSubtree(root, k)) ==> a[k] == old(a[k])
    ensures multiset(a[..]) == multiset(old(a[..]))
    ensures root < heapsize ==>
              a[root] == old(a[root])
              || (2 * root + 1 < heapsize && a[root] == old(a[2 * root + 1]))
              || (2 * root + 2 < heapsize && a[root] == old(a[2 * root + 2]))
    decreases heapsize - root
  {
    var left := 2 * root + 1;
    var right := left + 1;
    var large := root;
    if left < heapsize && a[large] < a[left] {
      large := left;
    }
    if right < heapsize && a[large] < a[right] {
      large := right;
    }
    if large != root {
      ghost var s0 := a[..];
      assert s0[large] >= s0[root];
      assert left < heapsize ==> s0[large] >= s0[left];
      assert right < heapsize ==> s0[large] >= s0[right];
      Swap(a, large, root);
      SwapKeepsLower(s0, a[..], heapsize, root, large);
      ghost var s1 := a[..];
      MaxHeap(a, heapsize, large);
      SiftCombine(s0, s1, a[..], heapsize, root, large);
    } else {
      assert HeapAt(a[..], heapsize, root);
    }
  }

  /** Swapping `root` with its child `large` leaves the heap order of the
      nodes after `large` alone. */
  lemma SwapKeepsLower(s0: seq<int>, s1: seq<int>, heapsize: int, root: int, large: int)
    requires heapsize <= |s0| && 0 <= root < large < |s0|
    requires large == 2 * root + 1 || large == 2 * root + 2
    requires HeapFrom(s0, heapsize, root + 1)
    requires s1 == s0[large := s0[root]][root := s0[large]]
    ensures HeapFrom(s1, heapsize, large + 1)
  {
    forall k | large + 1 <= k < heapsize ensures HeapAt(s1, heapsize, k) {
      assert HeapAt(s0, heapsize, k);
    }
  }

  /** The proof step of the recursive branch of max_heap: `s0` before the
      swap of `root` with its larger child `large`, `s1` after it, `s2`
      after the recursive call on `large`. */
  lemma SiftCombine(s0: seq<int>, s1: seq<int>, s2: seq<int>, heapsize: int, root: int, large: int)
    requires heapsize <= |s0| && 0 <= root < large < heapsize
    requires large == 2 * root + 1 || large == 2 * root + 2
    requires HeapFrom(s0, heapsize, root + 1)
    requires s0[large] >= s0[root]
    requires 2 * root + 1 < heapsize ==> s0[large] >= s0[2 * root + 1]
    requires 2 * root + 2 < heapsize ==> s0[large] >= s0[2 * root + 2]
    requires s1 == s0[large := s0[root]][root := s0[large]]
    requires HeapFrom(s2, heapsize, large) && |s2| == |s1|
    requires forall k :: 0 <= k < |s1| && (k >= heapsize || !InSubtree(large, k)) ==> s2[k] == s1[k]
    requires s2[large] == s1[large]
             || (2 * large + 1 < heapsize && s2[large] == s1[2 * large + 1])
             || (2 * large + 2 < heapsize && s2[large] == s1[2 * large + 2])
    ensures HeapFrom(s2, heapsize, root)
    ensures forall k :: 0 <= k < |s0| && (k >= heapsize || !InSubtree(root, k)) ==> s2[k] == s0[k]
    ensures s2[root] == s0[large]
  {
    assert HeapAt(s0, heapsize, large);
    assert !InSubtree(large, root);
    var sibling := if large == 2 * root + 1 then 2 * root + 2 else 2 * root + 1;
    assert !InSubtree(large, sibling) by {
      if sibling > large {
        assert (sibling - 1) / 2 == root;
      }
    }
    assert HeapAt(s2, heapsize, root);
    forall k | root < k < large
      ensures HeapAt(s2, heapsize, k)
    {
      assert !InSubtree(large, k);
      if 2 * k + 1 < heapsize {
        assert !InSubtree(large, 2 * k + 1);
      }
      if 2 * k + 2 < heapsize {
        assert !InSubtree(large, 2 * k + 2);
      }
      assert HeapAt(s0, heapsize, k);
    }
    forall k | 0 <= k < |s0| && (k >= heapsize || !InSubtree(root, k))
      ensures s2[k] == s0[k]
    {
      if InSubtree(large, k) {
        SubtreeOfChild(root, large, k);
      }
    }
  }

  /** The subtree of a child lies inside the subtree of its parent. */
  lemma {:induction false} SubtreeOfChild(root: int, child: int, k: int)
    requires 0 <= root && (child == 2 * root + 1 || child == 2 * root + 2)
    requires InSubtree(child, k)
    ensures InSubtree(root, k)
    decreases k
  {
    if k != child {
      SubtreeOfChild(root, child, (k - 1) / 2);
    }
  }

  /** build_max_heap (lines 135-142): sifts every inner node down, the last
      one first, so that the whole array is a max-heap. */
  method BuildMaxHeap(a: array<int>)
    modifies a
    ensures HeapFrom(a[..], a.Length, 0)
    ensures multiset(a[..]) == multiset(old(a[..]))
  {
    var length := a.Length;
    var i := (length - 2) / 2;
    while i >= 0
      invariant -1 <= i <= if length < 2 then -1 else (length - 2) / 2
      invariant HeapFrom(a[..], length, i + 1)
      invariant multiset(a[..]) == multiset(old(a[..]))
    {
      MaxHeap(a, length, i);
      i := i - 1;
    }
  }

  /** heap_sort(heap) (lines 113-148): after building the heap, the maximum
      of `heap[..i+1]` is swapped into cell `i` and the rest sifted again,
      for `i` from the last cell down to 0. */
  method HeapSort(a: array<int>)
    modifies a
    ensures Sorted(a[..]) && multiset(a[..]) == multiset(old(a[..]))
  {
    BuildMaxHeap(a);
    var n := a.Length;
    var i := n - 1;
    while i >= 0
      invariant Emptying(a[..], i, n)
      invariant multiset(a[..]) == multiset(old(a[..]))
    {
      HeapSortRound(a, i);
      i := i - 1;
    }
    assert a[..] == a[..n];
  }

  /** One round of heap_sort's second loop (lines 145-147):
      `heap[0], heap[i] = heap[i], heap[0]` then `max_heap(heap, i, 0)`. */
  method HeapSortRound(a: array<int>, i: int)
    requires 0 <= i && Emptying(a[..], i, a.Length)
    modifies a
    ensures Emptying(a[..], i - 1, a.Length)
    ensures multiset(a[..]) == multiset(old(a[..]))
  {
    SwapOut(a[..], i, a.Length);
    Swap(a, 0, i);
    ghost var s1 := a[..];
    MaxHeap(a, i, 0);
    SortStep(s1, a[..], i, a.Length);
  }

  /** The state of heap_sort's second loop before round `i`: a heap in
      `s[..i+1]`, an ascending tail `s[i+1..]`, nothing in the heap larger
      than anything in the tail. */
  ghost predicate Emptying(s: seq<int>, i: int, n: int) {
    -1 <= i < n == |s|
    && HeapFrom(s, i + 1, 0)
    && SortedRange(s, i + 1, n)
    && (forall p, q :: 0 <= p <= i < q < n ==> s[p] <= s[q])
  }

  /** Swapping the root out to cell `i` extends the ascending tail and
      leaves a heap of the first `i` cells below the root. */
  lemma SwapOut(s0: seq<int>, i: int, n: int)
    requires Emptying(s0, i, n) && 0 <= i
    ensures var s1 := s0[0 := s0[i]][i := s0[0]];
      HeapFrom(s1, i, 1) && SortedRange(s1, i, n)
      && (forall p, q :: 0 <= p < i <= q < n ==> s1[p] <= s1[q])
  {
    var s1 := s0[0 := s0[i]][i := s0[0]];
    forall k | 0 <= k <= i ensures s0[0] >= s0[k] {
      HeapRootMax(s0, i + 1, k);
    }
    forall k | 1 <= k < i ensures HeapAt(s1, i, k) {
      assert HeapAt(s0, i + 1, k);
    }
  }

  /** Sifting the first `i` cells again completes the round. */
  lemma SortStep(s1: seq<int>, s2: seq<int>, i: int, n: int)
    requires 0 <= i < n == |s1| == |s2|
    requires SortedRange(s1, i, n)
    requires forall p, q :: 0 <= p < i <= q < n ==> s1[p] <= s1[q]
    requires HeapFrom(s2, i, 0)
    requires forall k :: i <= k < n ==> s2[k] == s1[k]
    requires multiset(s2) == multiset(s1)
    ensures Emptying(s2, i - 1, n)
  {
    assert SameOutside(s2, s1, 0, i);
    forall q | i <= q < n ensures AtMost(s2, 0, i, s2[q]) {
      assert AtMost(s1, 0, i, s1[q]);
      PermKeepsBounds(s2, s1, 0, i, s1[q]);
    }
  }
}
