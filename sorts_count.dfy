/** count_sort and bucket_sort of gitopenlib/utils/sorts.py. Both clear the
    caller's list and refill it; the model returns the refilled contents. */
module SortsCount {
  import opened Wrappers
  import opened Sorting

  /** count_sort(alist) (lines 183-202): counts every value into
      `count_list[num - min]`, a list of max - min + 1 slots, then writes each
      value back as often as it was counted, smallest first. An empty list
      raises (`min()` of an empty sequence); otherwise the result is the
      ascending permutation of the input. */
  method CountSort(alist: seq<int>) returns (r: Result<seq<int>>)
    ensures |alist| == 0 <==> r.Err?
    ensures r.Err? ==> r.error == EmptySequence
    ensures r.Ok? ==> Sorted(r.value) && multiset(r.value) == multiset(alist)
  {
    if |alist| == 0 {
      return Err(EmptySequence);
    }
    var minNum := MinOf(alist);
    var maxNum := MaxOf(alist);
    var countList := CountValues(alist, minNum, maxNum);
    var out := WriteBack(countList, minNum, alist);
    BeyondMax(out, alist, maxNum + 1);
    return Ok(out);
  }

  /** The counting loop (lines 192-193): slot `v` of the new list holds how
      often `v + min` occurs. */
  method CountValues(alist: seq<int>, minNum: int, maxNum: int) returns (countList: array<int>)
    requires minNum <= maxNum
    requires forall k :: 0 <= k < |alist| ==> minNum <= alist[k] <= maxNum
    ensures fresh(countList) && countList.Length == maxNum - minNum + 1
    ensures forall v :: 0 <= v < countList.Length ==> countList[v] == multiset(alist)[v + minNum]
  {
    countList := new int[maxNum - minNum + 1](_ => 0);
    var k := 0;
    while k < |alist|
      invariant 0 <= k <= |alist|
      invariant forall v :: 0 <= v < countList.Length ==> countList[v] == multiset(alist[..k])[v + minNum]
    {
      var num := alist[k];
      assert alist[..k + 1] == alist[..k] + [num];
      countList[num - minNum] := countList[num - minNum] + 1;
      k := k + 1;
    }
    assert alist[..k] == alist;
  }

  /** The refill loop (lines 196-200): value `cur + min` is appended
      `count_list[cur]` times, for `cur` in ascending order. */
  method WriteBack(countList: array<int>, minNum: int, ghost alist: seq<int>) returns (out: seq<int>)
    requires forall v :: 0 <= v < countList.Length ==> countList[v] == multiset(alist)[v + minNum]
    requires forall k :: 0 <= k < |alist| ==> minNum <= alist[k]
    ensures Refilled(out, alist, countList.Length + minNum)
  {
    out := [];
    var cur := 0;
    NothingBelowMin(alist, minNum);
    while cur < countList.Length
      invariant 0 <= cur <= countList.Length
      invariant Refilled(out, alist, cur + minNum)
    {
      StartValue(out, alist, cur + minNum);
      out := AppendCopies(out, cur + minNum, countList[cur], alist);
      EndValue(out, alist, cur + minNum);
      cur := cur + 1;
    }
  }

  /** The innermost loop (lines 198-200): `count` copies of `value`. */
  method AppendCopies(out: seq<int>, value: int, count: int, ghost alist: seq<int>)
    returns (out': seq<int>)
    requires 0 <= count && RefillingAt(out, alist, value, 0)
    ensures RefillingAt(out', alist, value, count)
  {
    out' := out;
    var c := count;
    while c != 0
      invariant 0 <= c <= count
      invariant RefillingAt(out', alist, value, count - c)
    {
      AppendValue(out', alist, value, count - c);
      out' := out' + [value];
      c := c - 1;
    }
  }

  /** The output holds, in ascending order, exactly the input's values
      below `bound`. */
  ghost predicate Refilled(out: seq<int>, alist: seq<int>, bound: int) {
    Sorted(out)
    && (forall p :: 0 <= p < |out| ==> out[p] < bound)
    && forall x :: multiset(out)[x] == if x < bound then multiset(alist)[x] else 0
  }

  /** The output holds the input's values below `value`, in ascending
      order, then `written` copies of `value`. */
  ghost predicate RefillingAt(out: seq<int>, alist: seq<int>, value: int, written: int) {
    Sorted(out)
    && (forall p :: 0 <= p < |out| ==> out[p] <= value)
    && forall x :: multiset(out)[x] ==
         if x < value then multiset(alist)[x] else if x == value then written else 0
  }

  lemma NothingBelowMin(alist: seq<int>, minNum: int)
    requires forall k :: 0 <= k < |alist| ==> minNum <= alist[k]
    ensures Refilled([], alist, minNum)
  {
    forall x | x < minNum ensures multiset(alist)[x] == 0 {
      assert x !in alist;
    }
  }

  lemma StartValue(out: seq<int>, alist: seq<int>, value: int)
    requires Refilled(out, alist, value)
    ensures RefillingAt(out, alist, value, 0)
  {
  }

  lemma AppendValue(out: seq<int>, alist: seq<int>, value: int, written: int)
    requires RefillingAt(out, alist, value, written)
    ensures RefillingAt(out + [value], alist, value, written + 1)
  {
    assert multiset(out + [value]) == multiset(out) + multiset{value};
  }

  lemma EndValue(out: seq<int>, alist: seq<int>, value: int)
    requires RefillingAt(out, alist, value, multiset(alist)[value])
    ensures Refilled(out, alist, value + 1)
  {
  }

  /** Past the maximum nothing is left to write back. */
  lemma BeyondMax(out: seq<int>, alist: seq<int>, bound: int)
    requires |alist| > 0 && bound == MaxOf(alist) + 1
    requires Refilled(out, alist, bound)
    ensures Sorted(out) && multiset(out) == multiset(alist)
  {
    forall x | x >= bound ensures multiset(alist)[x] == 0 {
      assert x !in alist;
    }
    assert forall x :: multiset(out)[x] == multiset(alist)[x];
  }

  // ----- bucket_sort -----

  /** `int((num - min_num) // bucket_size)` (line 218) in exact arithmetic. */
  function BucketIndex(num: int, minNum: int, size: real): int
    requires size > 0.0
  {
    ((num - minNum) as real / size).Floor
  }

  /** With `bucket_size = (max - min) / len`, every value of the list lands
      in one of the `len + 1` buckets. */
  lemma BucketIndexInRange(num: int, minNum: int, maxNum: int, len: int)
    requires minNum <= num <= maxNum && minNum < maxNum && len > 0
    ensures 0 <= BucketIndex(num, minNum, (maxNum - minNum) as real / len as real) <= len
  {
    var size := (maxNum - minNum) as real / len as real;
    DivMonotone((num - minNum) as real, (maxNum - minNum) as real, size);
    assert (maxNum - minNum) as real / size == len as real;
  }

  /** `bucket_size` is 0 exactly when the maximum is the minimum. */
  lemma ZeroSize(spread: int, len: int)
    requires len > 0
    ensures spread as real / len as real == 0.0 <==> spread == 0
  {
    assert (spread as real / len as real) * len as real == spread as real;
  }

  lemma DivMonotone(x: real, y: real, c: real)
    requires c > 0.0 && x <= y
    ensures x / c <= y / c
  {
    assert (x / c) * c == x && (y / c) * c == y;
  }

  lemma AllInBuckets(alist: seq<int>, minNum: int, maxNum: int, size: real)
    requires |alist| > 0 && minNum < maxNum && size == (maxNum - minNum) as real / |alist| as real
    requires forall k :: 0 <= k < |alist| ==> minNum <= alist[k] <= maxNum
    ensures forall k :: 0 <= k < |alist| ==> 0 <= BucketIndex(alist[k], minNum, size) <= |alist|
  {
    forall k | 0 <= k < |alist|
      ensures 0 <= BucketIndex(alist[k], minNum, size) <= |alist|
    {
      BucketIndexInRange(alist[k], minNum, maxNum, |alist|);
    }
  }

  /** Larger values never go to an earlier bucket. */
  lemma BucketIndexMonotone(x: int, y: int, minNum: int, size: real)
    requires size > 0.0 && x <= y
    ensures BucketIndex(x, minNum, size) <= BucketIndex(y, minNum, size)
  {
    var qx := (x - minNum) as real / size;
    var qy := (y - minNum) as real / size;
    assert qx * size <= qy * size;
    assert qx <= qy;
  }

  /** bucket_sort(alist) (lines 205-225): with `bucket_size = (max - min) /
      len`, value `num` goes to bucket `int((num - min) // bucket_size)` of
      `len + 1` buckets; the buckets are then written back in order, each
      passed through `sorted()`. An empty list raises (`min()`), and so does
      a list whose values are all equal, because `bucket_size` is 0 and the
      floor division divides by zero. Otherwise the result is the ascending
      permutation of the input. */
  method BucketSort(alist: seq<int>) returns (r: Result<seq<int>>)
    ensures |alist| == 0 ==> r == Err(EmptySequence)
    ensures |alist| > 0 ==> (r.Err? <==> MinOf(alist) == MaxOf(alist))
    ensures |alist| > 0 && r.Err? ==> r.error == ZeroDivision
    ensures r.Ok? ==> Sorted(r.value) && multiset(r.value) == multiset(alist)
  {
    if |alist| == 0 {
      return Err(EmptySequence);
    }
    var minNum := MinOf(alist);
    var maxNum := MaxOf(alist);
    var bucketSize := (maxNum - minNum) as real / |alist| as real;
    ZeroSize(maxNum - minNum, |alist|);
    if bucketSize == 0.0 {
      return Err(ZeroDivision);
    }
    var out := BucketPasses(alist, minNum, maxNum, bucketSize);
    return Ok(out);
  }

  /** The two loops of bucket_sort once `bucket_size` is positive. */
  method BucketPasses(alist: seq<int>, minNum: int, maxNum: int, size: real) returns (out: seq<int>)
    requires |alist| > 0 && minNum < maxNum && size == (maxNum - minNum) as real / |alist| as real
    requires forall k :: 0 <= k < |alist| ==> minNum <= alist[k] <= maxNum
    ensures Sorted(out) && multiset(out) == multiset(alist)
  {
    AllInBuckets(alist, minNum, maxNum, size);
    var buckets := Distribute(alist, minNum, size);
    out := Gather(buckets, minNum, size, alist);
    InAllBuckets(out, alist, minNum, size);
  }

  /** Bucket `b` holds exactly those values of `xs` whose index is `b`. */
  ghost predicate Bucketed(bs: seq<seq<int>>, xs: seq<int>, minNum: int, size: real)
    requires size > 0.0
  {
    forall b, x :: 0 <= b < |bs| ==>
      multiset(bs[b])[x] == if BucketIndex(x, minNum, size) == b then multiset(xs)[x] else 0
  }

  /** The filling loop (lines 217-218). */
  method Distribute(alist: seq<int>, minNum: int, size: real) returns (buckets: array<seq<int>>)
    requires size > 0.0
    requires forall k :: 0 <= k < |alist| ==> 0 <= BucketIndex(alist[k], minNum, size) <= |alist|
    ensures fresh(buckets) && buckets.Length == |alist| + 1
    ensures Bucketed(buckets[..], alist, minNum, size)
  {
    buckets := new seq<int>[|alist| + 1](_ => []);
    var k := 0;
    while k < |alist|
      invariant 0 <= k <= |alist|
      invariant Bucketed(buckets[..], alist[..k], minNum, size)
    {
      var num := alist[k];
      var idx := BucketIndex(num, minNum, size);
      DistributeStep(buckets[..], alist, k, minNum, size, idx);
      buckets[idx] := buckets[idx] + [num];
      k := k + 1;
    }
    assert alist[..k] == alist;
  }

  lemma DistributeStep(bs: seq<seq<int>>, xs: seq<int>, k: int, minNum: int, size: real, idx: int)
    requires size > 0.0 && 0 <= k < |xs|
    requires idx == BucketIndex(xs[k], minNum, size) && 0 <= idx < |bs|
    requires Bucketed(bs, xs[..k], minNum, size)
    ensures Bucketed(bs[idx := bs[idx] + [xs[k]]], xs[..k + 1], minNum, size)
  {
    assert xs[..k + 1] == xs[..k] + [xs[k]];
    var bs' := bs[idx := bs[idx] + [xs[k]]];
    forall b, x | 0 <= b < |bs'|
      ensures multiset(bs'[b])[x] ==
        if BucketIndex(x, minNum, size) == b then multiset(xs[..k + 1])[x] else 0
    {
      if b == idx {
        assert multiset(bs'[b]) == multiset(bs[b]) + multiset{xs[k]};
      }
    }
  }

  /** The output holds, in ascending order, exactly the values of `xs`
      whose bucket comes before `i`. */
  ghost predicate Gathered(out: seq<int>, xs: seq<int>, minNum: int, size: real, i: int)
    requires size > 0.0
  {
    Sorted(out)
    && (forall p :: 0 <= p < |out| ==> BucketIndex(out[p], minNum, size) < i)
    && forall x :: multiset(out)[x] ==
         if 0 <= BucketIndex(x, minNum, size) < i then multiset(xs)[x] else 0
  }

  /** The write-back loop (lines 221-224): the buckets in order, each sorted. */
  method Gather(buckets: array<seq<int>>, minNum: int, size: real, ghost alist: seq<int>)
    returns (out: seq<int>)
    requires size > 0.0
    requires Bucketed(buckets[..], alist, minNum, size)
    ensures Gathered(out, alist, minNum, size, buckets.Length)
  {
    out := [];
    var i := 0;
    while i < buckets.Length
      invariant 0 <= i <= buckets.Length
      invariant Gathered(out, alist, minNum, size, i)
    {
      var part := SortedCopy(buckets[i]);
      GatherStep(out, buckets[..], part, alist, minNum, size, i);
      out := out + part;
      i := i + 1;
    }
  }

  lemma GatherStep(out: seq<int>, bs: seq<seq<int>>, part: seq<int>, xs: seq<int>,
                   minNum: int, size: real, i: int)
    requires size > 0.0 && 0 <= i < |bs|
    requires Bucketed(bs, xs, minNum, size) && Gathered(out, xs, minNum, size, i)
    requires Sorted(part) && multiset(part) == multiset(bs[i])
    ensures Gathered(out + part, xs, minNum, size, i + 1)
  {
    forall q | 0 <= q < |part| ensures BucketIndex(part[q], minNum, size) == i {
      assert part[q] in multiset(bs[i]);
    }
    forall p, q | 0 <= p < |out| && 0 <= q < |part| ensures out[p] <= part[q] {
      if out[p] > part[q] {
        BucketIndexMonotone(part[q], out[p], minNum, size);
      }
    }
    AppendAscending(out, part);
    assert multiset(out + part) == multiset(out) + multiset(part);
  }

  /** Two ascending lists, everything in the first no larger than anything
      in the second, make an ascending list. */
  lemma AppendAscending(a: seq<int>, b: seq<int>)
    requires Sorted(a) && Sorted(b)
    requires forall p, q :: 0 <= p < |a| && 0 <= q < |b| ==> a[p] <= b[q]
    ensures Sorted(a + b)
  {
    var r := a + b;
    forall p, q | 0 <= p < q < |r| ensures r[p] <= r[q] {
      if p < |a| <= q {
        assert r[q] == b[q - |a|];
      }
    }
  }

  /** Every value of the input has a bucket, so all of it is gathered. */
  lemma InAllBuckets(out: seq<int>, xs: seq<int>, minNum: int, size: real)
    requires size > 0.0
    requires forall k :: 0 <= k < |xs| ==> 0 <= BucketIndex(xs[k], minNum, size) <= |xs|
    requires Gathered(out, xs, minNum, size, |xs| + 1)
    ensures Sorted(out) && multiset(out) == multiset(xs)
  {
    forall x ensures multiset(out)[x] == multiset(xs)[x] {
      if x in xs {
        var k :| 0 <= k < |xs| && xs[k] == x;
      }
    }
  }
}
