/** The distribution kernels of the statistics module: cumulative and
    complementary distributions and mass functions over counted values,
    shares of a counter, the empirical CDF and percentile ranks over a list
    of scores, and the search for the keys holding an extremum. */
module Statistics {
  import opened Wrappers
  import opened Sums
  import opened PyDict
  import opened RealArith
  import opened Bins

  /** The argument of `calculate_CDF` and `calculate_PMF`: a list of values,
      or a dict from values to their counts. */
  datatype Sample = Observations(items: seq<real>) | Frequencies(entries: seq<(real, real)>)

  /** A counter with its counts as numbers. */
  function RealCounts<K>(c: seq<(K, nat)>): seq<(K, real)> {
    seq(|c|, i requires 0 <= i < |c| => (c[i].0, c[i].1 as real))
  }

  /** The dict the functions work on: `dict(Counter(data))` for a list. */
  function Entries(data: Sample): seq<(real, real)> {
    match data
    case Observations(items) => RealCounts(Counter(items))
    case Frequencies(entries) => entries
  }

  /** `dict(zip(keys, values))` for keys that are already distinct. */
  function AsDict<K, V>(ks: seq<K>, vs: seq<V>): seq<(K, V)>
    requires |ks| == |vs|
  {
    seq(|ks|, i requires 0 <= i < |ks| => (ks[i], vs[i]))
  }

  // ----- sums over dicts -----

  lemma ValuesCons<K, V>(x: (K, V), s: seq<(K, V)>)
    ensures Values([x] + s) == [x.1] + Values(s)
  {
  }

  lemma ValuesSum<K>(d: seq<(K, real)>)
    requires |d| > 0
    ensures Sum(Values(d)) == d[0].1 + Sum(Values(d[1..]))
  {
    assert d == [d[0]] + d[1..];
    ValuesCons(d[0], d[1..]);
    SumCons(d[0].1, Values(d[1..]));
  }

  lemma {:induction false} InsertByKeySum(e: (real, real), t: seq<(real, real)>)
    requires KeysSorted(t)
    ensures Sum(Values(InsertByKey(e, t))) == e.1 + Sum(Values(t))
  {
    var r := InsertByKey(e, t);
    if t == [] || e.0 <= t[0].0 {
      ValuesSum(r);
      assert r[1..] == t;
    } else {
      InsertByKeySum(e, t[1..]);
      ValuesSum(r);
      ValuesSum(t);
      assert r[1..] == InsertByKey(e, t[1..]);
    }
  }

  /** Sorting a dict by key keeps the sum of its values. */
  lemma {:induction false} SortedSum(d: seq<(real, real)>)
    ensures Sum(Values(DictSorted(d))) == Sum(Values(d))
  {
    if d != [] {
      SortedSum(d[1..]);
      InsertByKeySum(d[0], DictSorted(d[1..]));
      ValuesSum(d);
    }
  }

  /** The counts of a counter sum to its total count. */
  lemma {:induction false} RealCountsSum<K>(c: seq<(K, nat)>)
    ensures Sum(Values(RealCounts(c))) == TotalCount(c) as real
  {
    if |c| > 0 {
      RealCountsSum(c[1..]);
      assert RealCounts(c)[1..] == RealCounts(c[1..]);
      ValuesSum(RealCounts(c));
    }
  }

  /** Every entry of a counter holds the number of occurrences of its key. */
  lemma CounterCounts<K>(data: seq<K>)
    ensures forall i :: 0 <= i < |Counter(data)| ==> Counter(data)[i].1 == multiset(data)[Counter(data)[i].0]
  {
    var c := Counter(data);
    CounterSpec(data);
    forall i | 0 <= i < |c| ensures c[i].1 == multiset(data)[c[i].0] {
      CountAt(c, i);
      assert CountOf(c, c[i].0) == multiset(data)[c[i].0];
    }
  }

  /** A list of values seen as a dict: one entry per distinct value, its
      count as value, the values summing to the length of the list. */
  lemma ObservationsSpec(items: seq<real>)
    ensures var e := Entries(Observations(items));
      DistinctKeys(e) && NonNegative(Values(e)) && Sum(Values(e)) == |items| as real
      && (forall i :: 0 <= i < |e| ==> e[i].1 == multiset(items)[e[i].0] as real)
      && (forall k :: k in Keys(e) <==> k in items)
  {
    var c := Counter(items);
    CounterSpec(items);
    RealCountsSum(c);
    CounterCounts(items);
    assert Keys(RealCounts(c)) == Keys(c);
  }

  /** Entries of a dict, moved by sorting, keep their values. */
  lemma SortedEntries(d: seq<(real, real)>)
    ensures forall i :: 0 <= i < |DictSorted(d)| ==> DictSorted(d)[i] in d
  {
    DictSortedPerm(d);
    forall i | 0 <= i < |DictSorted(d)| ensures DictSorted(d)[i] in d {
      assert DictSorted(d)[i] in multiset(DictSorted(d));
    }
  }

  lemma SortedNonNegative(d: seq<(real, real)>)
    requires NonNegative(Values(d))
    ensures NonNegative(Values(DictSorted(d)))
  {
    SortedEntries(d);
    forall i | 0 <= i < |DictSorted(d)| ensures Values(DictSorted(d))[i] >= 0.0 {
      var m :| 0 <= m < |d| && d[m] == DictSorted(d)[i];
      assert Values(d)[m] >= 0.0;
    }
  }

  // ----- counter2percenter, calculate_PMF, calculate_list_count_percent -----

  /** `share` is the part `part` of `total`. */
  ghost predicate IsShare(share: real, part: real, total: real) {
    share * total == part
  }

  /** `{key: value / sum_ for key, value in data.items()}`: raises when the
      values sum to 0, unless there are none. */
  function Percenter<K>(d: seq<(K, real)>): Result<seq<(K, real)>> {
    var total := Sum(Values(d));
    if total == 0.0 then (if |d| == 0 then Ok([]) else Err(ZeroDivision))
    else Ok(seq(|d|, i requires 0 <= i < |d| => (d[i].0, d[i].1 / total)))
  }

  /** Each key keeps its place and gets its share of the total; the shares
      sum to 1. */
  lemma PercenterShares<K>(d: seq<(K, real)>)
    requires Sum(Values(d)) != 0.0
    ensures Percenter(d).Ok?
    ensures var r := Percenter(d).value;
      |r| == |d| && Sum(Values(r)) == 1.0
      && forall i :: 0 <= i < |d| ==> r[i].0 == d[i].0 && IsShare(r[i].1, d[i].1, Sum(Values(d)))
  {
    var total := Sum(Values(d));
    var r := Percenter(d).value;
    var v := Values(d);
    assert Values(r) == seq(|v|, i requires 0 <= i < |v| => v[i] / total);
    SumDivided(v, total);
    DivSelf(total);
    forall i | 0 <= i < |d| ensures IsShare(r[i].1, d[i].1, total) {
      DivMul(d[i].1, total);
    }
  }

  /** `counter2percenter(data)`. */
  function CounterToPercenter<K>(data: seq<(K, real)>): Result<seq<(K, real)>> {
    Percenter(data)
  }

  /** `calculate_PMF(data)`: the shares of the dict sorted by key. */
  function PMFOf(data: Sample): Result<seq<(real, real)>> {
    Percenter(DictSorted(Entries(data)))
  }

  /** The mass function lists the keys in ascending order, gives each entry
      of the data its share of the total, and sums to 1. */
  lemma PMFSpec(data: Sample)
    requires Sum(Values(Entries(data))) != 0.0
    ensures PMFOf(data).Ok?
    ensures var r := PMFOf(data).value;
      KeysSorted(r) && |r| == |Entries(data)| && Sum(Values(r)) == 1.0
      && forall i :: 0 <= i < |r| ==> ShareOfEntry(r[i], Entries(data))
  {
    var e := Entries(data);
    var d := DictSorted(e);
    SortedSum(e);
    PercenterShares(d);
    SortedEntries(e);
    var r := PMFOf(data).value;
    forall i, j | 0 <= i < j < |r| ensures r[i].0 <= r[j].0 {
      assert r[i].0 == d[i].0 && r[j].0 == d[j].0;
    }
    forall i | 0 <= i < |r| ensures ShareOfEntry(r[i], e) {
      var m :| 0 <= m < |e| && e[m] == d[i];
      assert r[i].0 == e[m].0 && IsShare(r[i].1, e[m].1, Sum(Values(e)));
    }
  }

  /** `p` is the share of an entry of `e` in the total of `e`, under the same
      key. */
  ghost predicate ShareOfEntry(p: (real, real), e: seq<(real, real)>) {
    exists m :: 0 <= m < |e| && e[m].0 == p.0 && IsShare(p.1, e[m].1, Sum(Values(e)))
  }

  /** Over a non-empty list the mass function maps each distinct value,
      in ascending order, to its number of occurrences over the length. */
  lemma PMFOfList(items: seq<real>)
    requires |items| > 0
    ensures PMFOf(Observations(items)).Ok?
    ensures var r := PMFOf(Observations(items)).value;
      KeysAscending(r) && Sum(Values(r)) == 1.0
      && (forall i :: 0 <= i < |r| ==> IsShare(r[i].1, multiset(items)[r[i].0] as real, |items| as real))
      && (forall k :: k in Keys(r) <==> k in items)
  {
    var e := Entries(Observations(items));
    var d := DictSorted(e);
    ObservationsSpec(items);
    PMFSpec(Observations(items));
    DictSortedAscending(e);
    var r := PMFOf(Observations(items)).value;
    forall i | 0 <= i < |r| ensures IsShare(r[i].1, multiset(items)[r[i].0] as real, |items| as real) {
      assert ShareOfEntry(r[i], e);
      var m :| 0 <= m < |e| && e[m].0 == r[i].0 && IsShare(r[i].1, e[m].1, Sum(Values(e)));
      assert e[m].1 == multiset(items)[r[i].0] as real;
    }
    forall i, j | 0 <= i < j < |r| ensures r[i].0 < r[j].0 {
      assert r[i].0 == d[i].0 && r[j].0 == d[j].0;
    }
    forall k ensures k in Keys(r) <==> k in items {
      DictSortedKeys(e, k);
      assert Keys(r) == Keys(d);
    }
  }

  /** `calculate_list_count_percent(data)` without rounding: the counter and
      the shares of its counts. */
  function ListCountPercent<K(==)>(data: seq<K>): Result<(seq<(K, nat)>, seq<(K, real)>)> {
    var counter := Counter(data);
    match Percenter(RealCounts(counter))
    case Err(e) => Err(e)
    case Ok(percenter) => Ok((counter, percenter))
  }

  /** It never raises: the counter counts every item, and each item gets its
      number of occurrences over the length of the list. */
  lemma ListCountPercentSpec<K>(data: seq<K>)
    ensures ListCountPercent(data).Ok?
    ensures var r := ListCountPercent(data).value; var counter, percenter := r.0, r.1;
      counter == Counter(data) && |percenter| == |counter|
      && (data == [] ==> percenter == [])
      && (data != [] ==> Sum(Values(percenter)) == 1.0)
      && forall i :: 0 <= i < |percenter| ==>
           percenter[i].0 == counter[i].0 && IsShare(percenter[i].1, multiset(data)[counter[i].0] as real, |data| as real)
  {
    var c := Counter(data);
    CounterSpec(data);
    RealCountsSum(c);
    CounterCounts(data);
    if data != [] {
      PercenterShares(RealCounts(c));
      assert ListCountPercent(data).value.1 == Percenter(RealCounts(c)).value;
    } else {
      assert c == [];
    }
  }

  // ----- calculate_CDF, calculate_CCDF -----

  /** `sum(values[: index + 1]) / sum_`. */
  function Share(values: seq<real>, index: nat, total: real): real
    requires index < |values| && total != 0.0
  {
    Sum(values[..index + 1]) / total
  }

  /** The cumulative share at every index. */
  function CumulativeShares(values: seq<real>, total: real): seq<real>
    requires total != 0.0
  {
    seq(|values|, i requires 0 <= i < |values| => Share(values, i, total))
  }

  /** `calculate_CDF(data)`. */
  function CDFOf(data: Sample): Result<seq<(real, real)>> {
    var d := DictSorted(Entries(data));
    var values := Values(d);
    var total := Sum(values);
    if total == 0.0 then (if |d| == 0 then Ok([]) else Err(ZeroDivision))
    else Ok(AsDict(Keys(d), CumulativeShares(values, total)))
  }

  method CalculateCDF(data: Sample) returns (r: Result<seq<(real, real)>>)
    ensures r == CDFOf(data)
  {
    var d := DictSorted(Entries(data));
    var keys := Keys(d);
    var values := Values(d);
    var total := Sum(values);
    var shares := Cumulate(values, total);
    if shares.Err? {
      return Err(shares.error);
    }
    if |d| == 0 {
      assert AsDict(keys, shares.value) == [];
    }
    return Ok(AsDict(keys, shares.value));
  }

  /** The loop of `calculate_CDF`: the cumulative share at every index,
      raising on the first one when the total is 0. */
  method Cumulate(values: seq<real>, total: real) returns (r: Result<seq<real>>)
    ensures total == 0.0 ==> r == if |values| == 0 then Ok([]) else Err(ZeroDivision)
    ensures total != 0.0 ==> r == Ok(CumulativeShares(values, total))
  {
    var newValues: seq<real> := [];
    var index := 0;
    while index < |values|
      invariant 0 <= index <= |values|
      invariant index == 0 ==> newValues == []
      invariant index > 0 ==> total != 0.0 && newValues == CumulativeShares(values, total)[..index]
    {
      if total == 0.0 {
        return Err(ZeroDivision);
      }
      newValues := newValues + [Share(values, index, total)];
      assert newValues == CumulativeShares(values, total)[..index + 1];
      index := index + 1;
    }
    if |values| > 0 {
      assert newValues == CumulativeShares(values, total);
    } else if total != 0.0 {
      assert CumulativeShares(values, total) == [];
    }
    return Ok(newValues);
  }

  /** Over non-negative values with a positive total, the cumulative shares
      never decrease, stay in [0, 1] and end at 1. */
  lemma CumulativeSpec(values: seq<real>, total: real)
    requires NonNegative(values) && total == Sum(values) && total > 0.0
    ensures var c := CumulativeShares(values, total);
      (forall i, j :: 0 <= i <= j < |c| ==> c[i] <= c[j])
      && (forall i :: 0 <= i < |c| ==> 0.0 <= c[i] <= 1.0)
      && (|c| > 0 ==> c[|c| - 1] == 1.0)
  {
    var c := CumulativeShares(values, total);
    forall i, j | 0 <= i <= j < |c| ensures c[i] <= c[j] {
      CumulativeMono(values, total, i, j);
    }
    forall i | 0 <= i < |c| ensures 0.0 <= c[i] <= 1.0 {
      CumulativeUnit(values, total, i);
    }
    if |c| > 0 {
      assert values[..|values|] == values;
      assert c[|c| - 1] == total / total;
      DivSelf(total);
    }
  }

  lemma CumulativeMono(values: seq<real>, total: real, i: nat, j: nat)
    requires NonNegative(values) && total > 0.0 && i <= j < |values|
    ensures CumulativeShares(values, total)[i] <= CumulativeShares(values, total)[j]
  {
    PrefixSumMono(values, i + 1, j + 1);
    assert CumulativeShares(values, total)[i] == Sum(values[..i + 1]) / total;
    assert CumulativeShares(values, total)[j] == Sum(values[..j + 1]) / total;
    DivMono(Sum(values[..i + 1]), Sum(values[..j + 1]), total);
  }

  lemma CumulativeUnit(values: seq<real>, total: real, i: nat)
    requires NonNegative(values) && total == Sum(values) && total > 0.0 && i < |values|
    ensures 0.0 <= CumulativeShares(values, total)[i] <= 1.0
  {
    var p := Sum(values[..i + 1]);
    assert CumulativeShares(values, total)[i] == p / total;
    PrefixSumMono(values, i + 1, |values|);
    assert values[..|values|] == values;
    DivUnit(p, total);
  }

  /** Over non-negative counts with a positive total, the CDF lists the keys
      in order, its values never decrease, stay in [0, 1] and end at 1. */
  lemma CDFSpec(data: Sample)
    requires NonNegative(Values(Entries(data))) && Sum(Values(Entries(data))) > 0.0
    ensures CDFOf(data).Ok?
    ensures var r := CDFOf(data).value;
      |r| == |Entries(data)| && KeysSorted(r)
      && (forall i, j :: 0 <= i <= j < |r| ==> r[i].1 <= r[j].1)
      && (forall i :: 0 <= i < |r| ==> 0.0 <= r[i].1 <= 1.0)
      && (|r| > 0 ==> r[|r| - 1].1 == 1.0)
  {
    var e := Entries(data);
    var d := DictSorted(e);
    SortedSum(e);
    SortedNonNegative(e);
    CumulativeSpec(Values(d), Sum(Values(d)));
    var r := CDFOf(data).value;
    forall i, j | 0 <= i < j < |r| ensures r[i].0 <= r[j].0 {
      assert r[i].0 == d[i].0 && r[j].0 == d[j].0;
    }
  }

  /** A dict with distinct keys gets a CDF with strictly ascending keys. */
  lemma CDFKeysAscending(data: Sample)
    requires DistinctKeys(Entries(data)) && CDFOf(data).Ok?
    ensures KeysAscending(CDFOf(data).value)
  {
    var d := DictSorted(Entries(data));
    DictSortedAscending(Entries(data));
    var r := CDFOf(data).value;
    forall i, j | 0 <= i < j < |r| ensures r[i].0 < r[j].0 {
      assert r[i].0 == d[i].0 && r[j].0 == d[j].0;
    }
  }

  /** `calculate_CCDF(data)`: `1 - v` for every value of the CDF. */
  function CCDFOf(data: Sample): Result<seq<(real, real)>> {
    match CDFOf(data)
    case Err(e) => Err(e)
    case Ok(cdf) => Ok(seq(|cdf|, i requires 0 <= i < |cdf| => (cdf[i].0, 1.0 - cdf[i].1)))
  }

  /** The complementary CDF has the keys of the CDF, adds up with it to 1
      key by key, never increases, stays in [0, 1] and ends at 0. */
  lemma CCDFSpec(data: Sample)
    requires NonNegative(Values(Entries(data))) && Sum(Values(Entries(data))) > 0.0
    ensures CCDFOf(data).Ok? && CDFOf(data).Ok?
    ensures var r, cdf := CCDFOf(data).value, CDFOf(data).value;
      |r| == |cdf| && Keys(r) == Keys(cdf)
      && (forall i :: 0 <= i < |r| ==> r[i].1 + cdf[i].1 == 1.0)
      && (forall i, j :: 0 <= i <= j < |r| ==> r[i].1 >= r[j].1)
      && (forall i :: 0 <= i < |r| ==> 0.0 <= r[i].1 <= 1.0)
      && (|r| > 0 ==> r[|r| - 1].1 == 0.0)
  {
    CDFSpec(data);
  }

  // ----- Cdf, percentile_rank, percentile -----

  /** The number of the first `n` scores at or below `x`. */
  function CountAtMost(t: seq<real>, x: real, n: nat): (c: nat)
    requires n <= |t|
    ensures c <= n
  {
    if n == 0 then 0 else CountAtMost(t, x, n - 1) + (if t[n - 1] <= x then 1 else 0)
  }

  /** The positions of the first `n` scores at or below `x`. */
  ghost function AtMost(t: seq<real>, x: real, n: nat): set<int>
    requires n <= |t|
  {
    set i | 0 <= i < n && t[i] <= x
  }

  /** The count is the number of positions holding a score at or below `x`. */
  lemma {:induction false} CountIsSize(t: seq<real>, x: real, n: nat)
    requires n <= |t|
    ensures CountAtMost(t, x, n) == |AtMost(t, x, n)|
  {
    if n > 0 {
      CountIsSize(t, x, n - 1);
      if t[n - 1] <= x {
        assert AtMost(t, x, n) == AtMost(t, x, n - 1) + {n - 1};
      } else {
        assert AtMost(t, x, n) == AtMost(t, x, n - 1);
      }
    } else {
      assert AtMost(t, x, 0) == {};
    }
  }

  /** A larger bound counts no fewer scores. */
  lemma {:induction false} CountMono(t: seq<real>, x: real, y: real, n: nat)
    requires x <= y && n <= |t|
    ensures CountAtMost(t, x, n) <= CountAtMost(t, y, n)
  {
    if n > 0 {
      CountMono(t, x, y, n - 1);
    }
  }

  /** A bound at or above every score counts them all; one below every
      score counts none. */
  lemma {:induction false} CountExtremes(t: seq<real>, x: real, n: nat)
    requires n <= |t|
    ensures (forall i :: 0 <= i < n ==> t[i] <= x) ==> CountAtMost(t, x, n) == n
    ensures (forall i :: 0 <= i < n ==> x < t[i]) ==> CountAtMost(t, x, n) == 0
  {
    if n > 0 {
      CountExtremes(t, x, n - 1);
    }
  }

  /** `Cdf(t, x)`: the share of the sample at or below `x`. */
  function CdfOf(t: seq<real>, x: real): Result<real> {
    if |t| == 0 then Err(ZeroDivision) else Ok((CountAtMost(t, x, |t|) as real) / (|t| as real))
  }

  method Cdf(t: seq<real>, x: real) returns (r: Result<real>)
    ensures r == CdfOf(t, x)
  {
    var count := 0.0;
    var k := 0;
    while k < |t|
      invariant 0 <= k <= |t|
      invariant count == CountAtMost(t, x, k) as real
    {
      if t[k] <= x {
        count := count + 1.0;
      }
      k := k + 1;
    }
    if |t| == 0 {
      return Err(ZeroDivision);
    }
    return Ok(count / (|t| as real));
  }

  /** The empirical CDF lies in [0, 1], never decreases in `x`, is 1 at or
      above the maximum and 0 below the minimum. */
  lemma CdfSpec(t: seq<real>, x: real, y: real)
    requires |t| > 0 && x <= y
    ensures CdfOf(t, x).Ok? && CdfOf(t, y).Ok?
    ensures 0.0 <= CdfOf(t, x).value <= 1.0
    ensures CdfOf(t, x).value <= CdfOf(t, y).value
    ensures (forall i :: 0 <= i < |t| ==> t[i] <= x) ==> CdfOf(t, x).value == 1.0
    ensures (forall i :: 0 <= i < |t| ==> x < t[i]) ==> CdfOf(t, x).value == 0.0
  {
    var n := |t| as real;
    var cx, cy := CountAtMost(t, x, |t|) as real, CountAtMost(t, y, |t|) as real;
    CountMono(t, x, y, |t|);
    CountExtremes(t, x, |t|);
    DivMono(cx, cy, n);
    DivMono(0.0, cx, n);
    DivMono(cx, n, n);
    DivSelf(n);
  }

  /** `percentile_rank(scores, your_score)`: the percentage of scores at or
      below `your_score`. */
  function RankOf(scores: seq<real>, y: real): Result<real> {
    if |scores| == 0 then Err(ZeroDivision)
    else Ok(100.0 * (CountAtMost(scores, y, |scores|) as real) / (|scores| as real))
  }

  method PercentileRank(scores: seq<real>, y: real) returns (r: Result<real>)
    ensures r == RankOf(scores, y)
  {
    var count := 0;
    var k := 0;
    while k < |scores|
      invariant 0 <= k <= |scores|
      invariant count == CountAtMost(scores, y, k)
    {
      if scores[k] <= y {
        count := count + 1;
      }
      k := k + 1;
    }
    if |scores| == 0 {
      return Err(ZeroDivision);
    }
    return Ok(100.0 * (count as real) / (|scores| as real));
  }

  /** The percentile rank is 100 times the empirical CDF. */
  lemma RankIsCdf(scores: seq<real>, y: real)
    ensures RankOf(scores, y).Ok? <==> CdfOf(scores, y).Ok?
    ensures RankOf(scores, y).Ok? ==> RankOf(scores, y).value == 100.0 * CdfOf(scores, y).value
  {
    if |scores| > 0 {
      var c, n := CountAtMost(scores, y, |scores|) as real, |scores| as real;
      DivIsScale(100.0 * c, n);
      DivIsScale(c, n);
    }
  }

  /** The scores never decrease. */
  predicate Ascending(s: seq<real>) {
    forall i, j :: 0 <= i <= j < |s| ==> s[i] <= s[j]
  }

  /** `scores.sort()`: an insertion sort in place, giving an ascending
      permutation. */
  method SortScores(a: array<real>)
    modifies a
    ensures Ascending(a[..]) && multiset(a[..]) == multiset(old(a[..]))
  {
    var i := 0;
    while i < a.Length
      invariant 0 <= i <= a.Length
      invariant Ascending(a[..i])
      invariant multiset(a[..]) == multiset(old(a[..]))
    {
      var k := i;
      assert forall p :: 0 <= p < i ==> a[p] == a[..i][p];
      while k > 0 && a[k] < a[k - 1]
        invariant Inserting(a[..], i, k)
        invariant multiset(a[..]) == multiset(old(a[..]))
        decreases k
      {
        InsertingStep(a[..], i, k);
        a[k], a[k - 1] := a[k - 1], a[k];
        k := k - 1;
      }
      InsertingDone(a[..], i, k);
      i := i + 1;
    }
    assert a[..] == a[..i];
  }

  /** While the score of cell `i` travels left to cell `k`: the other cells
      of `s[..i+1]` ascend, and the travelling score is below everything on
      its right. */
  ghost predicate Inserting(s: seq<real>, i: int, k: int) {
    0 <= k <= i < |s|
    && (forall p, q :: 0 <= p < q <= i && p != k && q != k ==> s[p] <= s[q])
    && (forall q :: k < q <= i ==> s[k] < s[q])
  }

  lemma InsertingStep(s: seq<real>, i: int, k: int)
    requires Inserting(s, i, k) && 0 < k && s[k] < s[k - 1]
    ensures Inserting(s[k := s[k - 1]][k - 1 := s[k]], i, k - 1)
  {
  }

  lemma InsertingDone(s: seq<real>, i: int, k: int)
    requires Inserting(s, i, k) && (k == 0 || s[k - 1] <= s[k])
    ensures Ascending(s[..i + 1])
  {
    forall p, q | 0 <= p <= q <= i ensures s[p] <= s[q] {
      if p == q || (p != k && q != k) {
      } else if p == k {
      } else {
        assert s[p] <= s[k - 1] || p == k - 1;
      }
    }
  }

  /** The first of the scores from position `i` on whose rank reaches
      `prank`. */
  function FirstAtRank(s: seq<real>, prank: real, i: nat): Option<real>
    decreases |s| - i
  {
    if i >= |s| then None
    else if RankOf(s, s[i]).value >= prank then Some(s[i])
    else FirstAtRank(s, prank, i + 1)
  }

  /** `percentile(scores, prank)`: sorts the scores in place and returns the
      first one whose rank reaches `prank`, or nothing. */
  method Percentile(scores: array<real>, prank: real) returns (r: Option<real>)
    modifies scores
    ensures Ascending(scores[..]) && multiset(scores[..]) == multiset(old(scores[..]))
    ensures r == FirstAtRank(scores[..], prank, 0)
  {
    SortScores(scores);
    var sorted := scores[..];
    var i := 0;
    while i < |sorted|
      invariant 0 <= i <= |sorted| && scores[..] == sorted
      invariant FirstAtRank(sorted, prank, i) == FirstAtRank(sorted, prank, 0)
    {
      var rank := PercentileRank(sorted, sorted[i]);
      if rank.value >= prank {
        return Some(sorted[i]);
      }
      i := i + 1;
    }
    return None;
  }

  /** On sorted scores the result is the smallest score whose rank reaches
      `prank`; nothing is returned exactly when no score reaches it. */
  lemma PercentileSpec(s: seq<real>, prank: real)
    requires Ascending(s)
    ensures FirstAtRank(s, prank, 0).Some? ==>
      var v := FirstAtRank(s, prank, 0).value;
      v in s && RankOf(s, v).value >= prank
      && forall k :: 0 <= k < |s| && RankOf(s, s[k]).value >= prank ==> v <= s[k]
    ensures FirstAtRank(s, prank, 0).None? <==>
      forall k :: 0 <= k < |s| ==> RankOf(s, s[k]).value < prank
  {
    FirstAtRankFrom(s, prank, 0);
  }

  lemma {:induction false} FirstAtRankFrom(s: seq<real>, prank: real, i: nat)
    requires Ascending(s) && i <= |s|
    ensures FirstAtRank(s, prank, i).Some? ==>
      var v := FirstAtRank(s, prank, i).value;
      v in s && RankOf(s, v).value >= prank
      && forall k :: i <= k < |s| && RankOf(s, s[k]).value >= prank ==> v <= s[k]
    ensures FirstAtRank(s, prank, i).None? <==>
      forall k :: i <= k < |s| ==> RankOf(s, s[k]).value < prank
    decreases |s| - i
  {
    if i < |s| && RankOf(s, s[i]).value < prank {
      FirstAtRankFrom(s, prank, i + 1);
    }
  }

  // ----- get_extremum -----

  /** The first argument of `get_extremum`: a dict, a list, or anything
      else. */
  datatype Container = DictOf(entries: seq<(string, real)>) | ListOf(items: seq<real>) | Unsupported

  /** A dict key, or a list index. */
  datatype Key = Name(name: string) | Index(index: nat)

  function Indices(n: nat): (r: seq<Key>)
    ensures |r| == n && forall i :: 0 <= i < n ==> r[i] == Index(i)
  {
    if n == 0 then [] else Indices(n - 1) + [Index(n - 1)]
  }

  function KeysOf(data: Container): (ks: seq<Key>)
    requires !data.Unsupported?
  {
    match data
    case DictOf(entries) => seq(|entries|, i requires 0 <= i < |entries| => Name(entries[i].0))
    case ListOf(items) => Indices(|items|)
  }

  function ValuesOf(data: Container): seq<real>
    requires !data.Unsupported?
  {
    match data
    case DictOf(entries) => Values(entries)
    case ListOf(items) => items
  }

  /** The pairs among the first `n` that the loop of `get_extremum` keeps:
      values at or above the maximum, or at or below the minimum. */
  function Kept(ks: seq<Key>, vs: seq<real>, kind: string, ext: real, n: nat): (seq<Key>, seq<real>)
    requires n <= |ks| == |vs|
  {
    if n == 0 then ([], [])
    else
      var (rk, rv) := Kept(ks, vs, kind, ext, n - 1);
      if (kind == "max" && vs[n - 1] >= ext) || (kind == "min" && vs[n - 1] <= ext)
      then (rk + [ks[n - 1]], rv + [vs[n - 1]])
      else (rk, rv)
  }

  /** `get_extremum(data, type)`. */
  function ExtremumOf(data: Container, kind: string): Result<(seq<Key>, seq<real>)> {
    if data.Unsupported? then Err(Raised("please check the data parameter and its type."))
    else
      var ks, vs := KeysOf(data), ValuesOf(data);
      if kind != "max" && kind != "min" then Err(Raised("please check the type parameter."))
      else if |vs| == 0 then Err(EmptySequence)
      else
        var ext := if kind == "max" then MaxReal(vs) else MinReal(vs);
        Ok(Kept(ks, vs, kind, ext, |vs|))
  }

  method GetExtremum(data: Container, kind: string) returns (r: Result<(seq<Key>, seq<real>)>)
    ensures r == ExtremumOf(data, kind)
  {
    if data.Unsupported? {
      return Err(Raised("please check the data parameter and its type."));
    }
    var keys, values := KeysOf(data), ValuesOf(data);
    var extremum: real;
    if kind == "max" {
      if |values| == 0 {
        return Err(EmptySequence);
      }
      extremum := MaxReal(values);
    } else if kind == "min" {
      if |values| == 0 {
        return Err(EmptySequence);
      }
      extremum := MinReal(values);
    } else {
      return Err(Raised("please check the type parameter."));
    }
    var resKeys: seq<Key> := [];
    var resValues: seq<real> := [];
    var i := 0;
    while i < |values|
      invariant 0 <= i <= |values|
      invariant (resKeys, resValues) == Kept(keys, values, kind, extremum, i)
    {
      var k, v := keys[i], values[i];
      if kind == "max" {
        if v >= extremum {
          resKeys := resKeys + [k];
          resValues := resValues + [v];
        }
      } else if kind == "min" {
        if v <= extremum {
          resKeys := resKeys + [k];
          resValues := resValues + [v];
        }
      }
      i := i + 1;
    }
    return Ok((resKeys, resValues));
  }

  /** The pairs among the first `n` whose value equals `ext`, in order. */
  function EqualTo(ks: seq<Key>, vs: seq<real>, ext: real, n: nat): (r: (seq<Key>, seq<real>))
    requires n <= |ks| == |vs|
    ensures |r.0| == |r.1| && forall j :: 0 <= j < |r.1| ==> r.1[j] == ext
    ensures forall k :: k in r.0 <==> exists i :: 0 <= i < n && ks[i] == k && vs[i] == ext
  {
    if n == 0 then ([], [])
    else
      var (rk, rv) := EqualTo(ks, vs, ext, n - 1);
      if vs[n - 1] == ext then (rk + [ks[n - 1]], rv + [vs[n - 1]]) else (rk, rv)
  }

  /** Keeping the values at or above the maximum (at or below the minimum)
      keeps exactly the values equal to it. */
  lemma {:induction false} KeptIsEqual(ks: seq<Key>, vs: seq<real>, kind: string, ext: real, n: nat)
    requires n <= |ks| == |vs| && (kind == "max" || kind == "min")
    requires kind == "max" ==> forall i :: 0 <= i < |vs| ==> vs[i] <= ext
    requires kind == "min" ==> forall i :: 0 <= i < |vs| ==> ext <= vs[i]
    ensures Kept(ks, vs, kind, ext, n) == EqualTo(ks, vs, ext, n)
  {
    if n > 0 {
      KeptIsEqual(ks, vs, kind, ext, n - 1);
    }
  }

  /** `get_extremum` returns, in their original order, the keys (or indices)
      of exactly the values equal to the maximum (minimum), together with
      those values; there is at least one. */
  lemma ExtremumSpec(data: Container, kind: string)
    requires !data.Unsupported? && (kind == "max" || kind == "min") && |ValuesOf(data)| > 0
    ensures ExtremumOf(data, kind).Ok?
    ensures var vs := ValuesOf(data);
      var ext := if kind == "max" then MaxReal(vs) else MinReal(vs);
      ExtremumOf(data, kind).value == EqualTo(KeysOf(data), vs, ext, |vs|)
      && (forall i :: 0 <= i < |vs| ==> if kind == "max" then vs[i] <= ext else ext <= vs[i])
      && |ExtremumOf(data, kind).value.0| > 0
  {
    var ks, vs := KeysOf(data), ValuesOf(data);
    assert |ks| == |vs|;
    var ext := if kind == "max" then MaxReal(vs) else MinReal(vs);
    KeptIsEqual(ks, vs, kind, ext, |vs|);
    var m :| 0 <= m < |vs| && vs[m] == ext;
    assert ks[m] in EqualTo(ks, vs, ext, |vs|).0;
  }

  /** A non-dict, non-list argument, or a `type` other than "max" and "min",
      raises; an empty container raises in `max`/`min`. */
  lemma ExtremumErrors(data: Container, kind: string)
    ensures data.Unsupported? ==> ExtremumOf(data, kind) == Err(Raised("please check the data parameter and its type."))
    ensures !data.Unsupported? && kind != "max" && kind != "min" ==> ExtremumOf(data, kind) == Err(Raised("please check the type parameter."))
    ensures !data.Unsupported? && (kind == "max" || kind == "min") ==> (ExtremumOf(data, kind) == Err(EmptySequence) <==> |ValuesOf(data)| == 0)
  {
  }
}
