/** merge_sort of gitopenlib/utils/sorts.py: a recursive sort that returns
    a new list, built by the loop of its inner `merge`. */
module SortsMerge {
  import opened Sorting

  /** merge(left, right) (lines 157-169): repeatedly takes the smaller head,
      the head of `right` on a tie, then appends what is left of both.
      The result holds the elements of both lists, and is ascending when
      both are. */
  method Merge(left: seq<int>, right: seq<int>) returns (result: seq<int>)
    ensures multiset(result) == multiset(left) + multiset(right)
    ensures Sorted(left) && Sorted(right) ==> Sorted(result)
  {
    var i, j := 0, 0;
    result := [];
    while i < |left| && j < |right|
      invariant Merging(result, left, right, i, j)
    {
      if left[i] < right[j] {
        TakeLeft(result, left, right, i, j);
        result := result + [left[i]];
        i := i + 1;
      } else {
        TakeRight(result, left, right, i, j);
        result := result + [right[j]];
        j := j + 1;
      }
    }
    MergeTailElems(result, left, right, i, j);
    if Sorted(left) && Sorted(right) {
      MergeTailSorted(result, left, right, i, j);
    }
    result := result + left[i..];
    result := result + right[j..];
  }

  /** The state of merge's loop: the output holds `left[..i]` and
      `right[..j]`; when both inputs are ascending, so is the output, and it
      is no larger than the heads still to be taken. */
  ghost predicate Merging(result: seq<int>, left: seq<int>, right: seq<int>, i: int, j: int) {
    0 <= i <= |left| && 0 <= j <= |right|
    && multiset(result) == multiset(left[..i]) + multiset(right[..j])
    && (Sorted(left) && Sorted(right) ==>
          Sorted(result)
          && (|result| > 0 && i < |left| ==> result[|result| - 1] <= left[i])
          && (|result| > 0 && j < |right| ==> result[|result| - 1] <= right[j]))
  }

  lemma TakeLeft(result: seq<int>, left: seq<int>, right: seq<int>, i: int, j: int)
    requires Merging(result, left, right, i, j)
    requires i < |left| && j < |right| && left[i] < right[j]
    ensures Merging(result + [left[i]], left, right, i + 1, j)
  {
    assert left[..i + 1] == left[..i] + [left[i]];
  }

  lemma TakeRight(result: seq<int>, left: seq<int>, right: seq<int>, i: int, j: int)
    requires Merging(result, left, right, i, j)
    requires i < |left| && j < |right| && !(left[i] < right[j])
    ensures Merging(result + [right[j]], left, right, i, j + 1)
  {
    assert right[..j + 1] == right[..j] + [right[j]];
  }

  /** Once one side is used up, appending both remainders to an ascending
      output keeps it ascending. */
  lemma MergeTailSorted(result: seq<int>, left: seq<int>, right: seq<int>, i: int, j: int)
    requires 0 <= i <= |left| && 0 <= j <= |right| && (i == |left| || j == |right|)
    requires Sorted(result) && Sorted(left) && Sorted(right)
    requires |result| > 0 && i < |left| ==> result[|result| - 1] <= left[i]
    requires |result| > 0 && j < |right| ==> result[|result| - 1] <= right[j]
    ensures Sorted(result + left[i..] + right[j..])
  {
    SortedSuffix(left, i);
    SortedSuffix(right, j);
    AppendSorted(result, left[i..]);
    if i == |left| {
      assert result + left[i..] == result;
    }
    AppendSorted(result + left[i..], right[j..]);
  }

  /** ... and it leaves the output holding both lists. */
  lemma MergeTailElems(result: seq<int>, left: seq<int>, right: seq<int>, i: int, j: int)
    requires 0 <= i <= |left| && 0 <= j <= |right|
    requires multiset(result) == multiset(left[..i]) + multiset(right[..j])
    ensures multiset(result + left[i..] + right[j..]) == multiset(left) + multiset(right)
  {
    assert left == left[..i] + left[i..];
    assert right == right[..j] + right[j..];
  }

  lemma SortedSuffix(s: seq<int>, i: int)
    requires Sorted(s) && 0 <= i <= |s|
    ensures Sorted(s[i..])
  {
  }

  /** Two ascending lists, the first ending no higher than the second
      starts, make an ascending list. */
  lemma AppendSorted(a: seq<int>, b: seq<int>)
    requires Sorted(a) && Sorted(b)
    requires |a| > 0 && |b| > 0 ==> a[|a| - 1] <= b[0]
    ensures Sorted(a + b)
  {
    var r := a + b;
    forall p, q | 0 <= p < q < |r| ensures r[p] <= r[q] {
      if p < |a| <= q {
        assert r[p] <= a[|a| - 1];
        assert b[0] <= b[q - |a|];
      }
    }
  }

  /** merge_sort(alist) (lines 171-180): lists shorter than two come back as
      they are, longer ones are split at `int(len/2)`, both halves sorted and
      merged. The result is an ascending permutation of the input. */
  method MergeSort(alist: seq<int>) returns (r: seq<int>)
    ensures Sorted(r) && multiset(r) == multiset(alist)
    ensures |alist| < 2 ==> r == alist
    decreases |alist|
  {
    if |alist| < 2 {
      return alist;
    }
    var mid := |alist| / 2;
    var left := MergeSort(alist[..mid]);
    var right := MergeSort(alist[mid..]);
    assert alist == alist[..mid] + alist[mid..];
    r := Merge(left, right);
  }
}
