/** quick_sort of gitopenlib/utils/sorts.py: a hole-filling partition
    around the first cell of the range, then two recursive calls. */
module SortsQuick {
  import opened Sorting

  /** What the two scans have established: everything left of `lo` is at
      most the pivot, everything right of `hi` at least the pivot, and
      nothing outside `[left, right]` has moved. */
  ghost predicate Scanned(s: seq<int>, o: seq<int>, left: int, right: int,
                          lo: int, hi: int, pivot: int)
  {
    0 <= left <= lo <= hi <= right < |s|
    && AtMost(s, left, lo, pivot) && AtLeast(s, hi + 1, right + 1, pivot)
    && SameOutside(s, o, left, right + 1)
  }

  /** `v` is `s` with the pivot put back into the hole `h`, and `v` is a
      permutation of `o`. */
  ghost predicate Holed(s: seq<int>, o: seq<int>, v: seq<int>, h: int, pivot: int) {
    |v| == |s| && (forall k :: 0 <= k < |s| ==> v[k] == if k == h then pivot else s[k])
    && multiset(v) == multiset(o)
  }

  /** The state of the hole-filling partition, the hole being `h`. */
  ghost predicate HoleState(s: seq<int>, o: seq<int>, v: seq<int>, left: int, right: int,
                            lo: int, hi: int, h: int, pivot: int)
  {
    Scanned(s, o, left, right, lo, hi, pivot) && (h == lo || h == hi) && Holed(s, o, v, h, pivot)
  }

  /** Copying the cell `src` into the hole `h` keeps what the scans found. */
  lemma FillKeepsScanned(s: seq<int>, o: seq<int>, left: int, right: int,
                         lo: int, hi: int, h: int, src: int, pivot: int)
    requires Scanned(s, o, left, right, lo, hi, pivot)
    requires (h == lo || h == hi) && (src == lo || src == hi)
    ensures Scanned(s[h := s[src]], o, left, right, lo, hi, pivot)
  {
  }

  /** Copying the cell `src` into the hole `h` moves the hole to `src` and
      swaps two cells of `v`. */
  lemma FillMovesHole(s: seq<int>, o: seq<int>, v: seq<int>, h: int, src: int, pivot: int)
    requires 0 <= h < |s| && 0 <= src < |s|
    requires Holed(s, o, v, h, pivot)
    ensures Holed(s[h := s[src]], o, v[h := v[src]][src := v[h]], src, pivot)
  {
  }

  /** Both together: one hole-filling step keeps the partition's state. */
  lemma FillStep(s: seq<int>, o: seq<int>, v: seq<int>, left: int, right: int,
                 lo: int, hi: int, h: int, src: int, pivot: int)
    requires HoleState(s, o, v, left, right, lo, hi, h, pivot)
    requires src == lo || src == hi
    ensures HoleState(s[h := s[src]], o, v[h := v[src]][src := v[h]], left, right, lo, hi, src, pivot)
  {
    FillKeepsScanned(s, o, left, right, lo, hi, h, src, pivot);
    FillMovesHole(s, o, v, h, src, pivot);
  }

  /** Once the scans meet, writing the pivot into the hole gives back `v`. */
  lemma FillLast(s: seq<int>, o: seq<int>, v: seq<int>, left: int, right: int, lo: int, pivot: int)
    requires HoleState(s, o, v, left, right, lo, lo, lo, pivot)
    ensures s[lo := pivot] == v
    ensures multiset(s[lo := pivot]) == multiset(o)
  {
  }

  /** The scan from the right (lines 41-42): stops at `lo` or at the first
      cell below the pivot. */
  method ScanDown(a: array<int>, lo: int, hi: int, right: int, pivot: int) returns (h: int)
    requires 0 <= lo <= hi <= right < a.Length
    requires AtLeast(a[..], hi + 1, right + 1, pivot)
    ensures lo <= h <= hi
    ensures AtLeast(a[..], h + 1, right + 1, pivot)
    ensures h == lo || a[h] < pivot
  {
    h := hi;
    while lo < h && a[h] >= pivot
      invariant lo <= h <= hi
      invariant AtLeast(a[..], h + 1, right + 1, pivot)
    {
      h := h - 1;
    }
  }

  /** The scan from the left (lines 47-48): stops at `hi` or at the first
      cell above the pivot. */
  method ScanUp(a: array<int>, left: int, lo: int, hi: int, pivot: int) returns (l: int)
    requires 0 <= left <= lo <= hi < a.Length
    requires AtMost(a[..], left, lo, pivot)
    ensures lo <= l <= hi
    ensures AtMost(a[..], left, l, pivot)
    ensures l == hi || a[l] > pivot
  {
    l := lo;
    while l < hi && a[l] <= pivot
      invariant lo <= l <= hi
      invariant AtMost(a[..], left, l, pivot)
    {
      l := l + 1;
    }
  }

  /** The partition loop of quick_sort (lines 35-53): `pivot = a[left]`
      leaves a hole at `left`; a cell found by the scan from the right fills
      the hole and leaves one behind, then the same from the left; the
      pivot goes into the last hole `mid`. Afterwards the range is a
      permutation of what it was, split around `a[mid]`. */
  method Partition(a: array<int>, left: int, right: int) returns (mid: int)
    requires 0 <= left < right < a.Length
    modifies a
    ensures left <= mid <= right && a[mid] == old(a[left])
    ensures AtMost(a[..], left, mid, a[mid]) && AtLeast(a[..], mid + 1, right + 1, a[mid])
    ensures SameOutside(a[..], old(a[..]), left, right + 1)
    ensures multiset(a[..]) == multiset(old(a[..]))
  {
    var pivot := a[left];
    var lo, hi := left, right;
    ghost var v := a[..];
    while lo < hi
      invariant HoleState(a[..], old(a[..]), v, left, right, lo, hi, lo, pivot)
    {
      hi := ScanDown(a, lo, hi, right, pivot);
      FillStep(a[..], old(a[..]), v, left, right, lo, hi, lo, hi, pivot);
      v := v[lo := v[hi]][hi := v[lo]];
      a[lo] := a[hi];
      lo := ScanUp(a, left, lo, hi, pivot);
      FillStep(a[..], old(a[..]), v, left, right, lo, hi, hi, lo, pivot);
      v := v[hi := v[lo]][lo := v[hi]];
      a[hi] := a[lo];
    }
    FillLast(a[..], old(a[..]), v, left, right, lo, pivot);
    a[lo] := pivot;
    mid := lo;
  }

  /** Sorting both sides of a partition, each in place, sorts the range:
      `s1` is the partitioned list, `s3` the list after both recursive calls. */
  lemma CombineSides(s1: seq<int>, s2: seq<int>, s3: seq<int>, left: int, mid: int, right: int)
    requires 0 <= left <= mid <= right < |s1|
    requires AtMost(s1, left, mid, s1[mid]) && AtLeast(s1, mid + 1, right + 1, s1[mid])
    requires SameOutside(s2, s1, left, mid) && multiset(s2) == multiset(s1)
    requires SameOutside(s3, s2, mid + 1, right + 1) && multiset(s3) == multiset(s2)
    requires SortedRange(s2, left, mid) && SortedRange(s3, mid + 1, right + 1)
    ensures SortedRange(s3, left, right + 1)
    ensures SameOutside(s3, s1, left, right + 1)
  {
    PermKeepsBounds(s2, s1, left, mid, s1[mid]);
    PermKeepsBounds(s3, s2, mid + 1, right + 1, s1[mid]);
  }

  /** quick_sort(a, left, right): sorts the range `a[left..right]` (both ends
      included) in place and leaves every other cell alone; it returns at
      once when `left >= right`. */
  method QuickSort(a: array<int>, left: int, right: int)
    requires left >= right || (0 <= left && right < a.Length)
    modifies a
    ensures SortedRange(a[..], left, right + 1)
    ensures left >= right ==> a[..] == old(a[..])
    ensures SameOutside(a[..], old(a[..]), left, right + 1)
    ensures multiset(a[..]) == multiset(old(a[..]))
    decreases right - left
  {
    if left >= right {
      return;
    }
    var mid := Partition(a, left, right);
    ghost var s1 := a[..];
    QuickSort(a, left, mid - 1);
    ghost var s2 := a[..];
    QuickSort(a, mid + 1, right);
    CombineSides(s1, s2, a[..], left, mid, right);
  }

  /** Sorting a whole list with quick_sort(a, 0, len(a) - 1). */
  method QuickSortAll(a: array<int>)
    modifies a
    ensures Sorted(a[..]) && multiset(a[..]) == multiset(old(a[..]))
  {
    QuickSort(a, 0, a.Length - 1);
  }
}
