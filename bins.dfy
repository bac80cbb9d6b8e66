/** `divide_interval` and `divide_bins` of the statistics kernels: equal-width
    intervals over the range of the data, and the histogram of the data over
    them. Interval ends are exact reals; the optional rounding of the ends
    and of the percentages is not modelled. */
module Bins {
  import opened Wrappers
  import opened PyDict
  import opened RealArith

  /** Python's `max` on a non-empty list of numbers. */
  function MaxReal(s: seq<real>): (m: real)
    requires |s| > 0
    ensures m in s && forall k :: 0 <= k < |s| ==> s[k] <= m
  {
    if |s| == 1 then s[0]
    else
      var rest := MaxReal(s[1..]);
      assert forall k :: 1 <= k < |s| ==> s[k] == s[1..][k - 1];
      if s[0] >= rest then s[0] else rest
  }

  /** Python's `min` on a non-empty list of numbers. */
  function MinReal(s: seq<real>): (m: real)
    requires |s| > 0
    ensures m in s && forall k :: 0 <= k < |s| ==> m <= s[k]
  {
    if |s| == 1 then s[0]
    else
      var rest := MinReal(s[1..]);
      assert forall k :: 1 <= k < |s| ==> s[k] == s[1..][k - 1];
      if s[0] <= rest then s[0] else rest
  }

  // ----- divide_interval -----

  /** The `i`-th interval end, `min_ + width * i`. */
  function Edge(lo: real, width: real, i: nat): real {
    lo + width * (i as real)
  }

  /** `(max_ - min_) / number`. */
  function Width(lo: real, hi: real, number: int): real
    requires number != 0
  {
    (hi - lo) / (number as real)
  }

  /** A range of one point has width 0. */
  lemma PointWidth(lo: real, number: int)
    requires number != 0
    ensures Width(lo, lo, number) == 0.0
  {
  }

  /** The first `n` intervals, each running from one end to the next. */
  function Intervals(lo: real, width: real, n: nat): (r: seq<(real, real)>)
    ensures |r| == n
  {
    if n == 0 then []
    else Intervals(lo, width, n - 1) + [(Edge(lo, width, n - 1), Edge(lo, width, n))]
  }

  /** `divide_interval(data, number)`: `number` equal parts of the range of
      `data` (none for a negative `number`). */
  function IntervalsOf(data: seq<real>, number: int): Result<seq<(real, real)>> {
    if number == 0 then Err(Raised("the number of interval can't be 0."))
    else if |data| == 0 then Err(EmptySequence)
    else
      var width := Width(MinReal(data), MaxReal(data), number);
      Ok(Intervals(MinReal(data), width, if number < 0 then 0 else number))
  }

  /** The loop of `divide_interval`: each new end closes the pending interval
      and opens the next one. */
  method DivideInterval(data: seq<real>, number: int) returns (r: Result<seq<(real, real)>>)
    ensures r == IntervalsOf(data, number)
  {
    if number == 0 {
      return Err(Raised("the number of interval can't be 0."));
    }
    if |data| == 0 {
      return Err(EmptySequence);
    }
    var hi, lo := MaxReal(data), MinReal(data);
    var width := Width(lo, hi, number);
    var result: seq<(real, real)> := [];
    var interval: seq<real> := [];
    var i := 0;
    while i < number + 1
      invariant 0 <= i <= if number < 0 then 0 else number + 1
      invariant i == 0 ==> result == [] && interval == []
      invariant i > 0 ==> result == Intervals(lo, width, i - 1) && interval == [Edge(lo, width, i - 1)]
      decreases number + 1 - i
    {
      var right := Edge(lo, width, i);
      interval := interval + [right];
      assert i > 0 ==> interval == [Edge(lo, width, i - 1), Edge(lo, width, i)];
      if |interval| == 2 {
        result := result + [(interval[0], interval[1])];
        var temp := interval[1];
        interval := [temp];
      }
      i := i + 1;
    }
    return Ok(result);
  }

  lemma {:induction false} IntervalAt(lo: real, width: real, n: nat, i: nat)
    requires i < n
    ensures Intervals(lo, width, n)[i] == (Edge(lo, width, i), Edge(lo, width, i + 1))
  {
    if i < n - 1 {
      IntervalAt(lo, width, n - 1, i);
    }
  }

  /** Consecutive ends are one width apart. */
  lemma EdgeStep(lo: real, width: real, i: nat)
    ensures Edge(lo, width, i + 1) == Edge(lo, width, i) + width
  {
    assert ((i + 1) as real) == (i as real) + 1.0;
    assert width * ((i as real) + 1.0) == width * (i as real) + width;
  }

  /** With a positive width the ends strictly increase. */
  lemma EdgeLess(lo: real, width: real, i: nat, j: nat)
    requires width > 0.0 && i < j
    ensures Edge(lo, width, i) < Edge(lo, width, j)
  {
    MulPos(width, (j - i) as real);
    assert width * (j as real) - width * (i as real) == width * ((j - i) as real);
  }

  /** `divide_interval` returns exactly `number` adjacent intervals of equal
      width, from the minimum of the data to its maximum. */
  lemma IntervalsSpec(data: seq<real>, number: int)
    requires |data| > 0 && number > 0
    ensures IntervalsOf(data, number).Ok?
    ensures var r := IntervalsOf(data, number).value;
      |r| == number && r[0].0 == MinReal(data) && r[number - 1].1 == MaxReal(data)
      && (forall i :: 0 <= i < number - 1 ==> r[i].1 == r[i + 1].0)
      && (forall i :: 0 <= i < number ==> r[i].1 - r[i].0 == Width(MinReal(data), MaxReal(data), number))
  {
    var hi, lo := MaxReal(data), MinReal(data);
    var width := Width(lo, hi, number);
    var r := IntervalsOf(data, number).value;
    assert r == Intervals(lo, width, number);
    IntervalAt(lo, width, number, 0);
    IntervalAt(lo, width, number, number - 1);
    LastEdge(lo, hi, number);
    forall i | 0 <= i < number - 1 ensures r[i].1 == r[i + 1].0 {
      IntervalAt(lo, width, number, i);
      IntervalAt(lo, width, number, i + 1);
    }
    forall i | 0 <= i < number ensures r[i].1 - r[i].0 == width {
      IntervalAt(lo, width, number, i);
      EdgeStep(lo, width, i);
    }
  }

  // ----- divide_bins -----

  /** Whether `it` falls in the bin at `idx`: `[l, r)`, the last one `[l, r]`. */
  predicate InBin(it: real, edges: seq<(real, real)>, idx: nat)
    requires idx < |edges|
  {
    if idx == |edges| - 1 then edges[idx].0 <= it <= edges[idx].1
    else edges[idx].0 <= it < edges[idx].1
  }

  function Hit(it: real, edges: seq<(real, real)>, idx: nat): nat
    requires idx < |edges|
  {
    if InBin(it, edges, idx) then 1 else 0
  }

  /** One step of the inner loop of `divide_bins`: the left end of the bin
      becomes a key with count 0 when absent, and its count goes up when
      `it` falls in the bin. */
  function Visit(d: seq<(real, nat)>, it: real, edges: seq<(real, real)>, idx: nat): seq<(real, nat)>
    requires idx < |edges|
  {
    var key := edges[idx].0;
    var d1 := if key in Keys(d) then d else d + [(key, 0)];
    if InBin(it, edges, idx) then Bump(d1, key) else d1
  }

  /** The inner loop over the first `n` bins. */
  function Scan(d: seq<(real, nat)>, it: real, edges: seq<(real, real)>, n: nat): seq<(real, nat)>
    requires n <= |edges|
  {
    if n == 0 then d else Visit(Scan(d, it, edges, n - 1), it, edges, n - 1)
  }

  /** `res_dict` once the first `m` values of `data` are counted. */
  function Tally(data: seq<real>, edges: seq<(real, real)>, m: nat): seq<(real, nat)>
    requires m <= |data|
  {
    if m == 0 then [] else Scan(Tally(data, edges, m - 1), data[m - 1], edges, |edges|)
  }

  /** The second result of `divide_bins`: counts, or counts over
      `len(data)`. */
  datatype Histogram = Counts(counts: seq<nat>) | Percents(percents: seq<real>)

  /** `it / data_len` for every count. */
  function Fractions(counts: seq<nat>, n: nat): (r: seq<real>)
    requires n > 0
    ensures |r| == |counts| && forall k :: 0 <= k < |r| ==> r[k] * (n as real) == counts[k] as real
  {
    seq(|counts|, k requires 0 <= k < |counts| => (counts[k] as real) / (n as real))
  }

  /** `divide_bins(data, bins, fmt)`. */
  function BinsOf(data: seq<real>, bins: int, fmt: string): Result<(seq<(real, real)>, Histogram)> {
    match IntervalsOf(data, bins)
    case Err(e) => Err(e)
    case Ok(edges) => BinsFrom(data, edges, fmt)
  }

  /** The counting part of `divide_bins`, once the intervals exist. */
  function BinsFrom(data: seq<real>, edges: seq<(real, real)>, fmt: string): Result<(seq<(real, real)>, Histogram)>
    requires |data| > 0
  {
    var counts := Values(DictSorted(Tally(data, edges, |data|)));
    if fmt == "count" then Ok((edges, Counts(counts)))
    else if fmt == "percent" then Ok((edges, Percents(Fractions(counts, |data|))))
    else Err(Raised("fmt's value should be 'count' or 'percent'."))
  }

  method DivideBins(data: seq<real>, bins: int, fmt: string) returns (r: Result<(seq<(real, real)>, Histogram)>)
    ensures r == BinsOf(data, bins, fmt)
  {
    var divided := DivideInterval(data, bins);
    if divided.Err? {
      return Err(divided.error);
    }
    var edges := divided.value;
    var res: seq<(real, nat)> := [];
    var m := 0;
    while m < |data|
      invariant 0 <= m <= |data|
      invariant res == Tally(data, edges, m)
    {
      var it := data[m];
      var idx := 0;
      while idx < |edges|
        invariant 0 <= idx <= |edges|
        invariant res == Scan(Tally(data, edges, m), it, edges, idx)
      {
        var bin := edges[idx];
        if bin.0 !in Keys(res) {
          res := res + [(bin.0, 0)];
        }
        if idx == |edges| - 1 {
          if it >= bin.0 && it <= bin.1 {
            res := Bump(res, bin.0);
          }
        } else if it >= bin.0 && it < bin.1 {
          res := Bump(res, bin.0);
        }
        idx := idx + 1;
      }
      m := m + 1;
    }
    res := DictSorted(res);
    if fmt == "count" {
      return Ok((edges, Counts(Values(res))));
    } else if fmt == "percent" {
      return Ok((edges, Percents(Fractions(Values(res), |data|))));
    }
    return Err(Raised("fmt's value should be 'count' or 'percent'."));
  }

  // The counts, bin by bin.

  /** The left ends strictly increase. */
  ghost predicate LeftsAscending(edges: seq<(real, real)>) {
    forall i, j :: 0 <= i < j < |edges| ==> edges[i].0 < edges[j].0
  }

  /** A dict keyed by the left ends of the first `|c|` bins, with counts
      `c`. */
  function Table(edges: seq<(real, real)>, c: seq<nat>): (t: seq<(real, nat)>)
    requires |c| <= |edges|
    ensures |t| == |c|
  {
    seq(|c|, k requires 0 <= k < |c| => (edges[k].0, c[k]))
  }

  /** The counts once the bin at `idx` has been visited. */
  function HitCounts(c: seq<nat>, it: real, edges: seq<(real, real)>, idx: nat): (h: seq<nat>)
    requires idx <= |c| <= |edges| && idx < |edges|
    ensures |h| == if idx < |c| then |c| else |c| + 1
  {
    var p := if idx < |c| then c else c + [0];
    p[idx := p[idx] + Hit(it, edges, idx)]
  }

  lemma TableDistinct(edges: seq<(real, real)>, c: seq<nat>)
    requires LeftsAscending(edges) && |c| <= |edges|
    ensures DistinctKeys(Table(edges, c))
  {
  }

  lemma VisitTable(c: seq<nat>, it: real, edges: seq<(real, real)>, idx: nat)
    requires LeftsAscending(edges) && idx <= |c| <= |edges| && idx < |edges|
    ensures Visit(Table(edges, c), it, edges, idx) == Table(edges, HitCounts(c, it, edges, idx))
  {
    var t := Table(edges, c);
    var key := edges[idx].0;
    var p := if idx < |c| then c else c + [0];
    var d1 := if key in Keys(t) then t else t + [(key, 0)];
    if idx < |c| {
      assert Keys(t)[idx] == key;
    } else {
      assert key !in Keys(t) by {
        forall k | 0 <= k < |t| ensures Keys(t)[k] != key {
          assert Keys(t)[k] == edges[k].0;
        }
      }
    }
    assert d1 == Table(edges, p);
    if InBin(it, edges, idx) {
      TableDistinct(edges, p);
      BumpAt(d1, idx);
      assert Table(edges, p)[idx := (key, p[idx] + 1)] == Table(edges, p[idx := p[idx] + 1]);
    } else {
      assert p[idx := p[idx] + 0] == p;
    }
  }

  /** The counts once the first `n` bins have been visited. */
  function ScanCounts(c: seq<nat>, it: real, edges: seq<(real, real)>, n: nat): (s: seq<nat>)
    requires n <= |edges| && |c| <= |edges|
    ensures |s| == if n <= |c| then |c| else n
  {
    if n == 0 then c else HitCounts(ScanCounts(c, it, edges, n - 1), it, edges, n - 1)
  }

  lemma {:induction false} ScanTable(c: seq<nat>, it: real, edges: seq<(real, real)>, n: nat)
    requires LeftsAscending(edges) && n <= |edges| && |c| <= |edges|
    ensures Scan(Table(edges, c), it, edges, n) == Table(edges, ScanCounts(c, it, edges, n))
  {
    if n > 0 {
      ScanTable(c, it, edges, n - 1);
      VisitTable(ScanCounts(c, it, edges, n - 1), it, edges, n - 1);
    }
  }

  lemma {:induction false} ScanCountsAt(c: seq<nat>, it: real, edges: seq<(real, real)>, n: nat, k: nat)
    requires n <= |edges| && |c| <= |edges| && k < |ScanCounts(c, it, edges, n)|
    ensures ScanCounts(c, it, edges, n)[k] == (if k < |c| then c[k] else 0) + (if k < n then Hit(it, edges, k) else 0)
  {
    if n > 0 && k < |ScanCounts(c, it, edges, n - 1)| {
      ScanCountsAt(c, it, edges, n - 1, k);
    }
  }

  /** The number of the first `m` values of `data` that fall in the bin at
      `k`. */
  function BinCount(data: seq<real>, edges: seq<(real, real)>, k: nat, m: nat): nat
    requires k < |edges| && m <= |data|
  {
    if m == 0 then 0 else BinCount(data, edges, k, m - 1) + Hit(data[m - 1], edges, k)
  }

  function BinCounts(data: seq<real>, edges: seq<(real, real)>, m: nat): (cs: seq<nat>)
    requires m <= |data|
    ensures |cs| == |edges|
  {
    seq(|edges|, k requires 0 <= k < |edges| => BinCount(data, edges, k, m))
  }

  /** With distinct left ends, `res_dict` holds every bin once, in order,
      with the number of values in it. */
  lemma {:induction false} TallyTable(data: seq<real>, edges: seq<(real, real)>, m: nat)
    requires LeftsAscending(edges) && 0 < m <= |data|
    ensures Tally(data, edges, m) == Table(edges, BinCounts(data, edges, m))
  {
    var prev: seq<nat> := if m == 1 then [] else BinCounts(data, edges, m - 1);
    if m > 1 {
      TallyTable(data, edges, m - 1);
    }
    assert Tally(data, edges, m - 1) == Table(edges, prev);
    ScanTable(prev, data[m - 1], edges, |edges|);
    var s := ScanCounts(prev, data[m - 1], edges, |edges|);
    forall k | 0 <= k < |edges| ensures s[k] == BinCounts(data, edges, m)[k] {
      ScanCountsAt(prev, data[m - 1], edges, |edges|, k);
      if m > 1 {
        assert prev[k] == BinCount(data, edges, k, m - 1);
      } else {
        assert BinCount(data, edges, k, 0) == 0;
      }
    }
    assert s == BinCounts(data, edges, m);
  }

  lemma TableValues(edges: seq<(real, real)>, c: seq<nat>)
    requires |c| <= |edges|
    ensures Values(Table(edges, c)) == c
  {
  }

  // Every value in exactly one bin.

  /** The number of the first `j` bins that `it` falls in. */
  function HitsUpTo(it: real, edges: seq<(real, real)>, j: nat): nat
    requires j <= |edges|
  {
    if j == 0 then 0 else HitsUpTo(it, edges, j - 1) + Hit(it, edges, j - 1)
  }

  /** Among the half-open bins, a value at or above the minimum falls in one
      exactly when it lies below the end of the last of them. */
  lemma {:induction false} HitsBelow(lo: real, width: real, n: nat, it: real, j: nat)
    requires width > 0.0 && j < n && lo <= it
    ensures HitsUpTo(it, Intervals(lo, width, n), j) == if it < Edge(lo, width, j) then 1 else 0
  {
    if j > 0 {
      HitsBelow(lo, width, n, it, j - 1);
      IntervalAt(lo, width, n, j - 1);
      EdgeStep(lo, width, j - 1);
    }
  }

  /** Every value between the minimum and the maximum falls in exactly one
      bin. */
  lemma OneBin(lo: real, width: real, n: nat, it: real)
    requires width > 0.0 && n > 0 && lo <= it <= Edge(lo, width, n)
    ensures HitsUpTo(it, Intervals(lo, width, n), n) == 1
  {
    HitsBelow(lo, width, n, it, n - 1);
    IntervalAt(lo, width, n, n - 1);
  }

  /** The sum of the first `j` counts. */
  function ColumnSum(data: seq<real>, edges: seq<(real, real)>, m: nat, j: nat): nat
    requires m <= |data| && j <= |edges|
  {
    if j == 0 then 0 else ColumnSum(data, edges, m, j - 1) + BinCount(data, edges, j - 1, m)
  }

  lemma {:induction false} ColumnSumStep(data: seq<real>, edges: seq<(real, real)>, m: nat, j: nat)
    requires 0 < m <= |data| && j <= |edges|
    ensures ColumnSum(data, edges, m, j) == ColumnSum(data, edges, m - 1, j) + HitsUpTo(data[m - 1], edges, j)
  {
    if j > 0 {
      ColumnSumStep(data, edges, m, j - 1);
    }
  }

  /** The sum of a list of counts. */
  function NatSum(s: seq<nat>): nat {
    if |s| == 0 then 0 else NatSum(s[..|s| - 1]) + s[|s| - 1]
  }

  lemma {:induction false} NatSumColumns(data: seq<real>, edges: seq<(real, real)>, m: nat, j: nat)
    requires m <= |data| && j <= |edges|
    ensures NatSum(BinCounts(data, edges, m)[..j]) == ColumnSum(data, edges, m, j)
  {
    if j > 0 {
      NatSumColumns(data, edges, m, j - 1);
      assert BinCounts(data, edges, m)[..j][..j - 1] == BinCounts(data, edges, m)[..j - 1];
    }
  }

  /** When every value falls in exactly one bin, the counts add up to the
      number of values. */
  lemma {:induction false} CountsAddUp(data: seq<real>, edges: seq<(real, real)>, m: nat)
    requires m <= |data|
    requires forall i :: 0 <= i < m ==> HitsUpTo(data[i], edges, |edges|) == 1
    ensures ColumnSum(data, edges, m, |edges|) == m
  {
    if m > 0 {
      CountsAddUp(data, edges, m - 1);
      ColumnSumStep(data, edges, m, |edges|);
    } else {
      ZeroColumns(data, edges, |edges|);
    }
  }

  lemma {:induction false} ZeroColumns(data: seq<real>, edges: seq<(real, real)>, j: nat)
    requires j <= |edges|
    ensures ColumnSum(data, edges, 0, j) == 0
  {
    if j > 0 {
      ZeroColumns(data, edges, j - 1);
    }
  }

  /** With distinct left ends the histogram is listed in bin order: the
      sorting in `divide_bins` changes nothing. */
  lemma SortedTally(data: seq<real>, edges: seq<(real, real)>)
    requires LeftsAscending(edges) && 0 < |data|
    ensures Values(DictSorted(Tally(data, edges, |data|))) == BinCounts(data, edges, |data|)
  {
    TallyTable(data, edges, |data|);
    var t := Table(edges, BinCounts(data, edges, |data|));
    assert KeysAscending(t);
    DictSortedOfSorted(t);
    TableValues(edges, BinCounts(data, edges, |data|));
  }

  /** With positive width the left ends strictly increase. */
  lemma EdgesAscending(lo: real, width: real, n: nat)
    requires width > 0.0
    ensures LeftsAscending(Intervals(lo, width, n))
  {
    var edges := Intervals(lo, width, n);
    forall i, j | 0 <= i < j < |edges| ensures edges[i].0 < edges[j].0 {
      IntervalAt(lo, width, n, i);
      IntervalAt(lo, width, n, j);
      EdgeLess(lo, width, i, j);
    }
  }

  /** Distinct left ends, and every value in exactly one bin: the counts
      are listed bin by bin and sum to the number of values. */
  lemma HistogramOf(data: seq<real>, edges: seq<(real, real)>)
    requires |data| > 0 && LeftsAscending(edges)
    requires forall i :: 0 <= i < |data| ==> HitsUpTo(data[i], edges, |edges|) == 1
    ensures BinsFrom(data, edges, "count") == Ok((edges, Counts(BinCounts(data, edges, |data|))))
    ensures NatSum(BinCounts(data, edges, |data|)) == |data|
  {
    SortedTally(data, edges);
    CountsAddUp(data, edges, |data|);
    NatSumColumns(data, edges, |data|, |edges|);
    assert BinCounts(data, edges, |data|)[..|edges|] == BinCounts(data, edges, |data|);
  }

  /** Every value of the data lies in exactly one of the intervals of
      `divide_interval`. */
  lemma AllInOneBin(data: seq<real>, lo: real, width: real, n: nat)
    requires width > 0.0 && n > 0
    requires forall i :: 0 <= i < |data| ==> lo <= data[i] <= Edge(lo, width, n)
    ensures forall i :: 0 <= i < |data| ==> HitsUpTo(data[i], Intervals(lo, width, n), n) == 1
  {
    forall i | 0 <= i < |data| ensures HitsUpTo(data[i], Intervals(lo, width, n), n) == 1 {
      OneBin(lo, width, n, data[i]);
    }
  }

  /** The interval ends `divide_interval` computes for `number > 0`. */
  function EdgesOf(data: seq<real>, number: nat): seq<(real, real)>
    requires |data| > 0 && number > 0
  {
    Intervals(MinReal(data), Width(MinReal(data), MaxReal(data), number), number)
  }

  lemma PositiveHistogram(data: seq<real>, bins: nat)
    requires |data| > 0 && bins > 0 && MinReal(data) < MaxReal(data)
    ensures BinsFrom(data, EdgesOf(data, bins), "count") == Ok((EdgesOf(data, bins), Counts(BinCounts(data, EdgesOf(data, bins), |data|))))
    ensures NatSum(BinCounts(data, EdgesOf(data, bins), |data|)) == |data|
  {
    var hi, lo := MaxReal(data), MinReal(data);
    var width := Width(lo, hi, bins);
    var edges := EdgesOf(data, bins);
    assert edges == Intervals(lo, width, bins);
    DivPos(hi - lo, bins as real);
    LastEdge(lo, hi, bins);
    EdgesAscending(lo, width, bins);
    AllInOneBin(data, lo, width, bins);
    HistogramOf(data, edges);
  }

  /** When the maximum exceeds the minimum, `divide_bins` gives `bins`
      counts, the `k`-th counts the values in the `k`-th interval, and the
      counts sum to `len(data)`. */
  lemma BinsSpec(data: seq<real>, bins: int)
    requires |data| > 0 && bins > 0 && MinReal(data) < MaxReal(data)
    ensures BinsOf(data, bins, "count").Ok?
    ensures var r := BinsOf(data, bins, "count").value;
      r.1.Counts? && |r.1.counts| == bins && NatSum(r.1.counts) == |data|
      && forall k :: 0 <= k < bins ==> r.1.counts[k] == BinCount(data, r.0, k, |data|)
  {
    PositiveHistogram(data, bins);
    BinsOfPositive(data, bins, "count");
  }

  lemma BinsOfPositive(data: seq<real>, bins: int, fmt: string)
    requires |data| > 0 && bins > 0
    ensures BinsOf(data, bins, fmt) == BinsFrom(data, EdgesOf(data, bins), fmt)
  {
    IntervalsOfPositive(data, bins);
  }

  lemma IntervalsOfPositive(data: seq<real>, number: int)
    requires |data| > 0 && number > 0
    ensures IntervalsOf(data, number) == Ok(Intervals(MinReal(data), Width(MinReal(data), MaxReal(data), number), number))
  {
  }

  /** The last end is the maximum. */
  lemma LastEdge(lo: real, hi: real, n: nat)
    requires n > 0
    ensures Edge(lo, Width(lo, hi, n), n) == hi
  {
    DivMul(hi - lo, n as real);
  }

  /** Every value of the data lies in exactly one bin of `divide_bins`. */
  lemma ValueInOneBin(data: seq<real>, bins: int, i: int)
    requires |data| > 0 && bins > 0 && MinReal(data) < MaxReal(data) && 0 <= i < |data|
    ensures IntervalsOf(data, bins).Ok?
    ensures HitsUpTo(data[i], IntervalsOf(data, bins).value, bins) == 1
  {
    var hi, lo := MaxReal(data), MinReal(data);
    var width := Width(lo, hi, bins);
    LastEdge(lo, hi, bins);
    OneBin(lo, width, bins, data[i]);
  }

  /** The "percent" histogram is the "count" histogram over `len(data)`,
      and any other `fmt` is an error once the intervals exist. */
  lemma BinsFormats(data: seq<real>, bins: int, fmt: string)
    ensures BinsOf(data, bins, "percent").Ok? <==> BinsOf(data, bins, "count").Ok?
    ensures BinsOf(data, bins, "count").Ok? ==>
      var c := BinsOf(data, bins, "count").value;
      var p := BinsOf(data, bins, "percent").value;
      |data| > 0 && p.0 == c.0 && p.1 == Percents(Fractions(c.1.counts, |data|))
    ensures fmt != "count" && fmt != "percent" ==>
      BinsOf(data, bins, fmt) == if IntervalsOf(data, bins).Ok? then Err(Raised("fmt's value should be 'count' or 'percent'.")) else Err(IntervalsOf(data, bins).error)
  {
    var iv := IntervalsOf(data, bins);
    if iv.Ok? {
      assert |data| > 0;
      assert BinsOf(data, bins, "count") == BinsFrom(data, iv.value, "count");
      assert BinsOf(data, bins, "percent") == BinsFrom(data, iv.value, "percent");
    }
  }

  // All values equal: the intervals collapse to one point.

  lemma {:induction false} ScanFlatFresh(lo: real, edges: seq<(real, real)>, n: nat)
    requires 0 < n < |edges| && forall k :: 0 <= k < |edges| ==> edges[k] == (lo, lo)
    ensures Scan([], lo, edges, n) == [(lo, 0)]
  {
    if n > 1 {
      ScanFlatFresh(lo, edges, n - 1);
      assert Keys([(lo, 0 as nat)]) == [lo];
    }
  }

  lemma {:induction false} ScanFlatKept(lo: real, edges: seq<(real, real)>, c: nat, n: nat)
    requires n < |edges| && forall k :: 0 <= k < |edges| ==> edges[k] == (lo, lo)
    ensures Scan([(lo, c)], lo, edges, n) == [(lo, c)]
  {
    if n > 0 {
      ScanFlatKept(lo, edges, c, n - 1);
      assert Keys([(lo, c)]) == [lo];
    }
  }

  lemma {:induction false} TallyFlat(data: seq<real>, lo: real, edges: seq<(real, real)>, m: nat)
    requires 0 < m <= |data| && 0 < |edges|
    requires forall k :: 0 <= k < |edges| ==> edges[k] == (lo, lo)
    requires forall i :: 0 <= i < |data| ==> data[i] == lo
    ensures Tally(data, edges, m) == [(lo, m)]
  {
    var n := |edges|;
    if m > 1 {
      var before: seq<(real, nat)> := [(lo, m - 1)];
      TallyFlat(data, lo, edges, m - 1);
      ScanFlatKept(lo, edges, m - 1, n - 1);
      VisitLastFlat(Scan(before, lo, edges, n - 1), m - 1, lo, edges);
      assert Tally(data, edges, m) == Scan(before, lo, edges, n);
    } else {
      if n > 1 {
        ScanFlatFresh(lo, edges, n - 1);
      }
      VisitLastFlat(Scan([], lo, edges, n - 1), 0, lo, edges);
      assert Tally(data, edges, m) == Scan([], lo, edges, n);
    }
  }

  /** The closed last bin counts the point. */
  lemma VisitLastFlat(d: seq<(real, nat)>, c: nat, lo: real, edges: seq<(real, real)>)
    requires 0 < |edges| && edges[|edges| - 1] == (lo, lo)
    requires d == [(lo, c)] || (c == 0 && d == [])
    ensures Visit(d, lo, edges, |edges| - 1) == [(lo, c + 1)]
  {
    assert InBin(lo, edges, |edges| - 1);
    if d == [] {
      assert d + [(lo, 0)] == [(lo, c)];
    } else {
      assert Keys(d) == [lo];
    }
  }

  lemma FlatHistogram(data: seq<real>, bins: nat)
    requires |data| > 0 && bins > 0 && MinReal(data) == MaxReal(data)
    ensures |EdgesOf(data, bins)| == bins
    ensures BinsFrom(data, EdgesOf(data, bins), "count") == Ok((EdgesOf(data, bins), Counts([|data|])))
  {
    var lo := MinReal(data);
    var width := Width(lo, MaxReal(data), bins);
    PointWidth(lo, bins);
    var edges := EdgesOf(data, bins);
    forall k | 0 <= k < |edges| ensures edges[k] == (lo, lo) {
      IntervalAt(lo, width, bins, k);
    }
    TallyFlat(data, lo, edges, |data|);
    var t: seq<(real, nat)> := [(lo, |data|)];
    assert DictSorted(t) == t;
    assert Values(t) == [|data|];
    assert BinsFrom(data, edges, "count") == Ok((edges, Counts(Values(DictSorted(t)))));
  }

  /** When all values are equal, `divide_bins` still returns `bins`
      intervals, but a single count holding every value. */
  lemma BinsFlat(data: seq<real>, bins: int)
    requires |data| > 0 && bins > 0 && MinReal(data) == MaxReal(data)
    ensures BinsOf(data, bins, "count").Ok?
    ensures |BinsOf(data, bins, "count").value.0| == bins
    ensures BinsOf(data, bins, "count").value.1 == Counts([|data|])
  {
    FlatHistogram(data, bins);
    BinsOfPositive(data, bins, "count");
  }
}
