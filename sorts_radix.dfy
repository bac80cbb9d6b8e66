/** radix_sort of gitopenlib/utils/sorts.py: least-significant-digit first,
    one stable pass over ten buckets per decimal character of max(alist).
    The list is cleared and refilled after each pass; the model returns
    the refilled contents. */
module SortsRadix {
  import opened Wrappers
  import opened Sorting

  /** `10 ** i` */
  function Pow10(i: nat): (p: int)
    ensures p >= 1
  {
    if i == 0 then 1 else 10 * Pow10(i - 1)
  }

  /** `num` with its lowest `i` decimal digits dropped (floored). */
  function Shift(num: int, i: nat): int {
    if i == 0 then num else Shift(num, i - 1) / 10
  }

  /** The bucket of `num` in pass `i` (line 240): `int(num / (10 ** i) % 10)`.
      Python's `%` on a positive modulus is floored, so this is digit `i`
      of `num` counted with floored division, for negative `num` as well
      (`ShiftIsDiv` relates `Shift` to the division by `10 ** i`). */
  function Digit(num: int, i: nat): (d: int)
    ensures 0 <= d < 10
  {
    Shift(num, i) % 10
  }

  /** Dropping `i` digits one at a time is dividing by `10 ** i`. */
  lemma {:induction false} ShiftIsDiv(num: int, i: nat)
    ensures Shift(num, i) == num / Pow10(i)
  {
    if i > 0 {
      ShiftIsDiv(num, i - 1);
      var p := Pow10(i - 1);
      var q := num / p;
      var r := num % p;
      var a, b := q / 10, q % 10;
      assert num == (10 * p) * a + (p * b + r) by {
        assert num == p * q + r;
        assert p * q == (10 * p) * a + p * b;
      }
      MulNonneg(p, 9 - b);
      assert p * (9 - b) == 9 * p - p * b;
      MulNonneg(p, b);
      DivModUnique(num, 10 * p, a, p * b + r);
    }
  }

  /** The number of characters of `str(n)`, the minus sign included. */
  function DecimalLength(n: int): (len: nat)
    ensures len >= 1
  {
    if n < 0 then 1 + DigitCount(-n) else DigitCount(n)
  }

  /** The number of decimal digits of `n`, 0 having one. */
  function DigitCount(n: nat): (len: nat)
    ensures len >= 1
  {
    if n < 10 then 1 else 1 + DigitCount(n / 10)
  }

  /** A non-negative number has fewer than `len(str(n))` decimal digits'
      worth of magnitude. */
  lemma {:induction false} BelowPow10(n: int)
    requires n >= 0
    ensures n < Pow10(DecimalLength(n))
    decreases n
  {
    if n >= 10 {
      BelowPow10(n / 10);
      assert DecimalLength(n) == 1 + DecimalLength(n / 10);
    }
  }

  /** The value of the lowest `k` digits, by which the list is ordered
      after `k` passes. */
  function Low(x: int, k: nat): int {
    if k == 0 then 0 else Digit(x, k - 1) * Pow10(k - 1) + Low(x, k - 1)
  }

  lemma MulNonneg(a: int, b: int)
    requires a >= 0 && b >= 0
    ensures a * b >= 0
  {
  }

  /** The only multiple of `m` strictly between `-m` and `m` is 0. */
  lemma MulBounded(m: int, k: int)
    requires m > 0 && -m < m * k < m
    ensures k == 0
  {
    if k > 0 {
      MulNonneg(m, k - 1);
      assert false;
    } else if k < 0 {
      MulNonneg(m, -k - 1);
      assert false;
    }
  }

  /** Division and remainder are determined by the defining equation. */
  lemma DivModUnique(x: int, m: int, q: int, r: int)
    requires m > 0 && x == m * q + r && 0 <= r < m
    ensures x / m == q && x % m == r
  {
    var q', r' := x / m, x % m;
    assert m * (q' - q) == r - r';
    MulBounded(m, q' - q);
  }

  /** The lowest `k` digits are below `10 ** k`. */
  lemma {:induction false} LowBound(x: int, k: nat)
    ensures 0 <= Low(x, k) < Pow10(k)
  {
    if k > 0 {
      LowBound(x, k - 1);
      var p, d := Pow10(k - 1), Digit(x, k - 1);
      MulNonneg(p, d);
      MulNonneg(p, 9 - d);
      assert p * (9 - d) == 9 * p - d * p;
    }
  }

  /** A number is its digits above `k` followed by its lowest `k`. */
  lemma {:induction false} LowSplit(x: int, k: nat)
    ensures x == Shift(x, k) * Pow10(k) + Low(x, k)
  {
    if k > 0 {
      LowSplit(x, k - 1);
      var p, s, d := Pow10(k - 1), Shift(x, k), Digit(x, k - 1);
      assert Shift(x, k - 1) == 10 * s + d;
      assert (10 * s + d) * p == s * (10 * p) + d * p;
    }
  }

  /** A smaller leading digit outweighs whatever follows it. */
  lemma LeadingDigit(p: int, a: int, b: int, la: int, lb: int)
    requires p > 0 && 0 <= a < b && 0 <= la < p && 0 <= lb
    ensures a * p + la < b * p + lb
  {
    MulNonneg(p, b - a - 1);
    assert p * (b - a - 1) == b * p - a * p - p;
  }

  /** A value with a smaller digit `i` is smaller in its lowest `i + 1`
      digits. */
  lemma LowByDigit(x: int, y: int, i: nat)
    requires Digit(x, i) < Digit(y, i)
    ensures Low(x, i + 1) < Low(y, i + 1)
  {
    LowBound(x, i);
    LowBound(y, i);
    LeadingDigit(Pow10(i), Digit(x, i), Digit(y, i), Low(x, i), Low(y, i));
  }

  // ----- one pass -----

  /** The bucket `d` of pass `i` after the first `n` values of `s` are
      scanned: those whose digit `i` is `d`, in their order in `s`. */
  function Bucket(s: seq<int>, n: nat, i: nat, d: int): seq<int>
    requires n <= |s|
  {
    if n == 0 then []
    else if Digit(s[n - 1], i) == d then Bucket(s, n - 1, i, d) + [s[n - 1]]
    else Bucket(s, n - 1, i, d)
  }

  /** Buckets 0 to d - 1 of pass `i`, one after the other. */
  function BucketsBelow(s: seq<int>, i: nat, d: nat): seq<int> {
    if d == 0 then [] else BucketsBelow(s, i, d - 1) + Bucket(s, |s|, i, d - 1)
  }

  /** What one pass of radix_sort's loop (lines 236-246) leaves in the list:
      the ten buckets of digit `i`, in order. */
  function RadixPass(s: seq<int>, i: nat): seq<int> {
    BucketsBelow(s, i, 10)
  }

  /** Passes `i` to `j - 1`. */
  function RadixPasses(s: seq<int>, i: nat, j: nat): seq<int>
    decreases j - i
  {
    if i >= j then s else RadixPasses(RadixPass(s, i), i + 1, j)
  }

  /** A bucket holds every occurrence of the values with its digit. */
  lemma {:induction false} BucketCount(s: seq<int>, n: nat, i: nat, d: int, x: int)
    requires n <= |s|
    ensures Digit(x, i) == d ==> multiset(Bucket(s, n, i, d))[x] == multiset(s[..n])[x]
    ensures Digit(x, i) != d ==> multiset(Bucket(s, n, i, d))[x] == 0
  {
    if n > 0 {
      BucketCount(s, n - 1, i, d, x);
      var b := Bucket(s, n - 1, i, d);
      assert s[..n] == s[..n - 1] + [s[n - 1]];
      assert multiset(s[..n])[x] == multiset(s[..n - 1])[x] + multiset([s[n - 1]])[x];
      if Digit(s[n - 1], i) == d {
        assert multiset(b + [s[n - 1]])[x] == multiset(b)[x] + multiset([s[n - 1]])[x];
      }
    }
  }

  lemma {:induction false} BucketsBelowCount(s: seq<int>, i: nat, d: nat, x: int)
    ensures Digit(x, i) < d ==> multiset(BucketsBelow(s, i, d))[x] == multiset(s)[x]
    ensures Digit(x, i) >= d ==> multiset(BucketsBelow(s, i, d))[x] == 0
  {
    if d > 0 {
      var a, b := BucketsBelow(s, i, d - 1), Bucket(s, |s|, i, d - 1);
      BucketsBelowCount(s, i, d - 1, x);
      BucketCount(s, |s|, i, d - 1, x);
      assert s[..|s|] == s;
      assert multiset(a + b)[x] == multiset(a)[x] + multiset(b)[x];
    }
  }

  /** A pass permutes the list. */
  lemma RadixPassPerm(s: seq<int>, i: nat)
    ensures multiset(RadixPass(s, i)) == multiset(s)
  {
    forall x ensures multiset(RadixPass(s, i))[x] == multiset(s)[x] {
      BucketsBelowCount(s, i, 10, x);
    }
  }

  /** `s` is in ascending order of the lowest `k` digits. */
  ghost predicate LowSorted(s: seq<int>, k: nat) {
    forall p, q :: 0 <= p < q < |s| ==> Low(s[p], k) <= Low(s[q], k)
  }

  /** A bucket keeps the order it had in the list (the pass is stable),
      and none of its values comes after a value not yet scanned. */
  lemma {:induction false} BucketSorted(s: seq<int>, n: nat, i: nat, d: int)
    requires n <= |s| && LowSorted(s, i)
    ensures LowSorted(Bucket(s, n, i, d), i)
    ensures forall q, m :: 0 <= q < |Bucket(s, n, i, d)| && n <= m < |s| ==>
      Low(Bucket(s, n, i, d)[q], i) <= Low(s[m], i)
  {
    if n > 0 {
      BucketSorted(s, n - 1, i, d);
      var b := Bucket(s, n - 1, i, d);
      if Digit(s[n - 1], i) == d {
        AppendLowSorted(b, [s[n - 1]], i);
        var r := b + [s[n - 1]];
        forall q, m | 0 <= q < |r| && n <= m < |s| ensures Low(r[q], i) <= Low(s[m], i) {
          if q < |b| {
            assert r[q] == b[q];
          }
        }
      }
    }
  }

  lemma AppendLowSorted(a: seq<int>, b: seq<int>, k: nat)
    requires LowSorted(a, k) && LowSorted(b, k)
    requires forall p, q :: 0 <= p < |a| && 0 <= q < |b| ==> Low(a[p], k) <= Low(b[q], k)
    ensures LowSorted(a + b, k)
  {
    var r := a + b;
    forall p, q | 0 <= p < q < |r| ensures Low(r[p], k) <= Low(r[q], k) {
      if p < |a| <= q {
        assert r[q] == b[q - |a|];
      }
    }
  }

  /** Every value in bucket `d` has digit `d`. */
  lemma {:induction false} BucketDigits(s: seq<int>, n: nat, i: nat, d: int)
    requires n <= |s|
    ensures forall q :: 0 <= q < |Bucket(s, n, i, d)| ==> Digit(Bucket(s, n, i, d)[q], i) == d
  {
    if n > 0 {
      BucketDigits(s, n - 1, i, d);
      var b := Bucket(s, n - 1, i, d);
      if Digit(s[n - 1], i) == d {
        var r := b + [s[n - 1]];
        forall q | 0 <= q < |r| ensures Digit(r[q], i) == d {
          if q < |b| {
            assert r[q] == b[q];
          }
        }
      }
    }
  }

  /** Within one bucket digit `i` is shared, so the order by the lowest
      `i` digits is the order by the lowest `i + 1`. */
  lemma OneBucketSorted(b: seq<int>, i: nat, d: int)
    requires LowSorted(b, i)
    requires forall q :: 0 <= q < |b| ==> Digit(b[q], i) == d
    ensures LowSorted(b, i + 1)
  {
  }

  /** Putting the buckets of digit `i` one after another orders a list that
      was ordered by its lowest `i` digits by its lowest `i + 1`. */
  lemma {:induction false} BucketsBelowSorted(s: seq<int>, i: nat, d: nat)
    requires LowSorted(s, i)
    ensures LowSorted(BucketsBelow(s, i, d), i + 1)
    ensures forall q :: 0 <= q < |BucketsBelow(s, i, d)| ==> Digit(BucketsBelow(s, i, d)[q], i) < d
  {
    if d > 0 {
      var a, b := BucketsBelow(s, i, d - 1), Bucket(s, |s|, i, d - 1);
      BucketsBelowSorted(s, i, d - 1);
      BucketSorted(s, |s|, i, d - 1);
      BucketDigits(s, |s|, i, d - 1);
      OneBucketSorted(b, i, d - 1);
      forall p, q | 0 <= p < |a| && 0 <= q < |b| ensures Low(a[p], i + 1) <= Low(b[q], i + 1) {
        LowByDigit(a[p], b[q], i);
      }
      AppendLowSorted(a, b, i + 1);
      var r := a + b;
      forall q | 0 <= q < |r| ensures Digit(r[q], i) < d {
        if q >= |a| {
          assert r[q] == b[q - |a|];
        }
      }
    }
  }

  /** Before any pass the order by zero digits holds trivially. */
  lemma LowSortedZero(s: seq<int>)
    ensures LowSorted(s, 0)
  {
  }

  /** The passes permute the list and, pass by pass, order it by more
      digits. */
  lemma {:induction false} RadixPassesSpec(s: seq<int>, i: nat, j: nat)
    requires i <= j && LowSorted(s, i)
    ensures multiset(RadixPasses(s, i, j)) == multiset(s)
    ensures LowSorted(RadixPasses(s, i, j), j)
    decreases j - i
  {
    if i < j {
      RadixPassPerm(s, i);
      BucketsBelowSorted(s, i, 10);
      RadixPassesSpec(RadixPass(s, i), i + 1, j);
    }
  }

  /** Below `10 ** j` the lowest `j` digits are the number itself. */
  lemma LowSortedIsSorted(s: seq<int>, j: nat)
    requires forall q :: 0 <= q < |s| ==> 0 <= s[q] < Pow10(j)
    requires LowSorted(s, j)
    ensures Sorted(s)
  {
    forall q | 0 <= q < |s| ensures Low(s[q], j) == s[q] {
      var x := s[q];
      ShiftIsDiv(x, j);
      DivModUnique(x, Pow10(j), 0, x);
      LowSplit(x, j);
    }
  }

  // ----- the algorithm -----

  /** The passes radix_sort makes: one per character of `str(max(alist))`. */
  function PassCount(alist: seq<int>): nat
    requires |alist| > 0
  {
    DecimalLength(MaxOf(alist))
  }

  /** On a list of non-negative integers the passes leave it sorted: the
      largest value, and so every value, is below `10 ** PassCount`. */
  lemma RadixPassesSort(alist: seq<int>)
    requires |alist| > 0
    requires forall k :: 0 <= k < |alist| ==> alist[k] >= 0
    ensures multiset(RadixPasses(alist, 0, PassCount(alist))) == multiset(alist)
    ensures Sorted(RadixPasses(alist, 0, PassCount(alist)))
  {
    var j := PassCount(alist);
    var r := RadixPasses(alist, 0, j);
    LowSortedZero(alist);
    RadixPassesSpec(alist, 0, j);
    BelowPow10(MaxOf(alist));
    forall q | 0 <= q < |r| ensures 0 <= r[q] < Pow10(j) {
      assert r[q] in multiset(alist);
      var k :| 0 <= k < |alist| && alist[k] == r[q];
    }
    LowSortedIsSorted(r, j);
  }

  /** With a negative value the list is not sorted: `[-1, 1]` takes one pass
      (`str(1)` has one character), in which -1 has digit 9 (floored
      remainder) and 1 has digit 1, so -1 goes to the end. */
  lemma RadixNegativeCounterexample()
    ensures PassCount([-1, 1]) == 1
    ensures RadixPasses([-1, 1], 0, 1) == [1, -1]
    ensures !Sorted(RadixPasses([-1, 1], 0, 1))
  {
    var s := [-1, 1];
    assert MaxOf(s) == 1;
    assert Digit(-1, 0) == 9 && Digit(1, 0) == 1;
    assert Bucket(s, 2, 0, 1) == [1];
    assert Bucket(s, 2, 0, 9) == [-1];
    assert BucketsBelow(s, 0, 9) == [1] by {
      assert BucketsBelow(s, 0, 1) == [];
      assert BucketsBelow(s, 0, 2) == [1];
      assert BucketsBelow(s, 0, 3) == [1];
      assert BucketsBelow(s, 0, 4) == [1];
      assert BucketsBelow(s, 0, 5) == [1];
      assert BucketsBelow(s, 0, 6) == [1];
      assert BucketsBelow(s, 0, 7) == [1];
      assert BucketsBelow(s, 0, 8) == [1];
    }
    assert RadixPass(s, 0) == [1, -1];
    var r := RadixPasses(s, 0, 1);
    assert r == RadixPasses(RadixPass(s, 0), 1, 1) == [1, -1];
    assert r[0] > r[1];
  }

  /** One pass of the `while` loop of radix_sort (lines 236-246): ten
      buckets filled in list order by digit `i`, then emptied back in
      bucket order. */
  method RadixPassStep(alist: seq<int>, i: nat) returns (out: seq<int>)
    ensures out == RadixPass(alist, i)
  {
    var buckets := new seq<int>[10](_ => []);
    var k := 0;
    while k < |alist|
      invariant 0 <= k <= |alist|
      invariant forall d :: 0 <= d < 10 ==> buckets[d] == Bucket(alist, k, i, d)
    {
      var num := alist[k];
      var d := Digit(num, i);
      buckets[d] := buckets[d] + [num];
      k := k + 1;
    }
    out := [];
    var l := 0;
    while l < 10
      invariant 0 <= l <= 10
      invariant out == BucketsBelow(alist, i, l)
    {
      var bucket := buckets[l];
      var m := 0;
      while m < |bucket|
        invariant 0 <= m <= |bucket|
        invariant out == BucketsBelow(alist, i, l) + bucket[..m]
      {
        out := out + [bucket[m]];
        m := m + 1;
      }
      assert bucket[..m] == bucket;
      l := l + 1;
    }
  }

  /** radix_sort (lines 225-247). `max` of an empty list raises; otherwise
      the list is refilled once per character of `str(max(alist))`, is a
      permutation of the input and, when no value is negative, sorted. */
  method RadixSort(alist: seq<int>) returns (r: Result<seq<int>>)
    ensures |alist| == 0 <==> r == Err(EmptySequence)
    ensures |alist| > 0 ==> r == Ok(RadixPasses(alist, 0, PassCount(alist)))
    ensures r.Ok? ==> multiset(r.value) == multiset(alist)
    ensures r.Ok? && (forall k :: 0 <= k < |alist| ==> alist[k] >= 0) ==> Sorted(r.value)
  {
    if |alist| == 0 {
      return Err(EmptySequence);
    }
    var i := 0;
    var maxNum := MaxOf(alist);
    var j := DecimalLength(maxNum);
    var cur := alist;
    while i < j
      invariant 0 <= i <= j
      invariant RadixPasses(cur, i, j) == RadixPasses(alist, 0, j)
    {
      cur := RadixPassStep(cur, i);
      i := i + 1;
    }
    r := Ok(cur);
    RadixPassesPerm(alist, 0, j);
    if forall k :: 0 <= k < |alist| ==> alist[k] >= 0 {
      RadixPassesSort(alist);
    }
  }

  /** The passes permute the list, whatever its signs. */
  lemma {:induction false} RadixPassesPerm(s: seq<int>, i: nat, j: nat)
    ensures multiset(RadixPasses(s, i, j)) == multiset(s)
    decreases j - i
  {
    if i < j {
      RadixPassPerm(s, i);
      RadixPassesPerm(RadixPass(s, i), i + 1, j);
    }
  }
}
