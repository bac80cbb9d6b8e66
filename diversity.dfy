/** The diversity indicators of gitopenlib/indicators/diversity.py over
    exact real arithmetic: the Simpson family, the Gini coefficient,
    disparity, DIV / DIV* and Rao-Stirling / True Diversity. */
module Diversity {
  import opened Wrappers
  import opened Sorting
  import opened RealArith
  import opened Sums

  // ----- sums of squares -----

  /** The sum of the squares of the entries. */
  function SumSquares(s: seq<real>): real {
    if |s| == 0 then 0.0 else SumSquares(s[..|s| - 1]) + s[|s| - 1] * s[|s| - 1]
  }

  lemma {:induction false} SumSquaresNonNegative(s: seq<real>)
    ensures SumSquares(s) >= 0.0
  {
    if |s| > 0 {
      SumSquaresNonNegative(s[..|s| - 1]);
    }
  }

  /** With no negative entry, the squares sum to at most the square of the
      sum. */
  lemma {:induction false} SquaresBelowSquaredSum(s: seq<real>)
    requires NonNegative(s)
    ensures SumSquares(s) <= Sum(s) * Sum(s)
  {
    if |s| > 0 {
      var init, x := s[..|s| - 1], s[|s| - 1];
      SquaresBelowSquaredSum(init);
      SumNonNegative(init);
      var a := Sum(init);
      assert (a + x) * (a + x) == a * a + 2.0 * (a * x) + x * x;
      MulNonNeg(a, x);
    }
  }

  /** Cauchy-Schwarz for the all-ones vector: the squared sum is at most
      `|s|` times the sum of squares. */
  lemma {:induction false} SquaredSumBelowSquares(s: seq<real>)
    ensures Sum(s) * Sum(s) <= (|s| as real) * SumSquares(s)
  {
    if |s| > 0 {
      var init, x := s[..|s| - 1], s[|s| - 1];
      SquaredSumBelowSquares(init);
      SumSquaresNonNegative(init);
      SquareStep(|init| as real, Sum(init), SumSquares(init), x);
    }
  }

  /** The inductive step of `SquaredSumBelowSquares`, on plain reals:
      `k (k x^2 + q - 2 a x) >= (k x - a)^2 >= 0`. */
  lemma SquareStep(k: real, a: real, q: real, x: real)
    requires k >= 0.0 && q >= 0.0 && a * a <= k * q
    ensures (a + x) * (a + x) <= (k + 1.0) * (q + x * x)
  {
    var t := k * (x * x) + q - 2.0 * (a * x);
    assert k * t - (k * x - a) * (k * x - a) == k * q - a * a;
    SqNonNeg(k * x - a);
    if k == 0.0 {
      if a != 0.0 {
        SqPos(a);
      }
    } else {
      PosFactor(k, t);
    }
    assert (a + x) * (a + x) == a * a + 2.0 * (a * x) + x * x;
    assert (k + 1.0) * (q + x * x) == k * q + q + k * (x * x) + x * x;
  }

  // ----- the Simpson family -----

  /** Relative abundance `float(n) / N if N != 0 else 0` (line 244). */
  function Share(n: real, total: real): real {
    if total != 0.0 then n / total else 0.0
  }

  /** The relative abundances of `s` in `total`, in order. */
  function Shares(s: seq<real>, total: real): (p: seq<real>)
    ensures |p| == |s|
  {
    if |s| == 0 then [] else Shares(s[..|s| - 1], total) + [Share(s[|s| - 1], total)]
  }

  /** The share at position `k` is the share of count `k`. */
  lemma {:induction false} ShareAt(s: seq<real>, total: real, k: int)
    requires 0 <= k < |s|
    ensures Shares(s, total)[k] == Share(s[k], total)
  {
    if k < |s| - 1 {
      ShareAt(s[..|s| - 1], total, k);
    }
  }

  /** simpson_index (lines 229-245): the sum of the squared relative
      abundances. */
  function SimpsonIndex(data: seq<real>): (si: real)
    ensures si >= 0.0
  {
    SumSquaresNonNegative(Shares(data, Sum(data)));
    SumSquares(Shares(data, Sum(data)))
  }

  /** With a non-zero total the shares sum to 1. */
  lemma {:induction false} SharesSum(s: seq<real>, total: real)
    requires total != 0.0
    ensures Sum(Shares(s, total)) * total == Sum(s)
  {
    if |s| > 0 {
      var init, x := s[..|s| - 1], s[|s| - 1];
      SharesSum(init, total);
      var p, a := Shares(s, total), Sum(Shares(init, total));
      assert p[..|p| - 1] == Shares(init, total);
      assert Sum(p) == a + x / total;
      DivMul(x, total);
      assert (a + x / total) * total == a * total + (x / total) * total;
    }
  }

  lemma SharesOfTotal(data: seq<real>)
    requires Sum(data) != 0.0
    ensures Sum(Shares(data, Sum(data))) == 1.0
  {
    SharesSum(data, Sum(data));
    CancelEq(Sum(Shares(data, Sum(data))), 1.0, Sum(data));
  }

  /** Every share is 0 when the counts sum to 0, and so is the index. */
  lemma SimpsonZeroTotal(data: seq<real>)
    requires Sum(data) == 0.0
    ensures SimpsonIndex(data) == 0.0
  {
    var p := Shares(data, 0.0);
    forall k | 0 <= k < |p| ensures p[k] == 0.0 {
      ShareAt(data, 0.0, k);
    }
    ZeroSums(p);
  }

  /** Shares of non-negative counts in a positive total are non-negative. */
  lemma SharesNonNegative(data: seq<real>, total: real)
    requires NonNegative(data) && total > 0.0
    ensures NonNegative(Shares(data, total))
  {
    var p := Shares(data, total);
    forall k | 0 <= k < |p| ensures p[k] >= 0.0 {
      ShareAt(data, total, k);
    }
  }

  /** For non-negative counts the Simpson index lies in [0, 1]. */
  lemma SimpsonBounds(data: seq<real>)
    requires NonNegative(data)
    ensures 0.0 <= SimpsonIndex(data) <= 1.0
  {
    var n := Sum(data);
    SumNonNegative(data);
    if n == 0.0 {
      SimpsonZeroTotal(data);
    } else {
      var p := Shares(data, n);
      SharesOfTotal(data);
      SharesNonNegative(data, n);
      SquaresBelowSquaredSum(p);
    }
  }

  /** With a non-zero total the Simpson index is at least `1 / |data|`, so
      positive. */
  lemma SimpsonAtLeastReciprocal(data: seq<real>)
    requires Sum(data) != 0.0
    ensures AtLeastReciprocal(SimpsonIndex(data), |data|)
  {
    SharesOfTotal(data);
    UnitCauchySchwarz(Shares(data, Sum(data)));
  }

  /** `x` is at least `1 / n`, written without division. */
  predicate AtLeastReciprocal(x: real, n: nat) {
    1.0 <= (n as real) * x
  }

  /** Values summing to 1 have squares summing to at least `1 / |s|`. */
  lemma UnitCauchySchwarz(s: seq<real>)
    requires Sum(s) == 1.0
    ensures AtLeastReciprocal(SumSquares(s), |s|)
  {
    SquaredSumBelowSquares(s);
  }

  /** The entries of `s` other than position `p` are all 0. */
  ghost predicate OnlyAt(s: seq<real>, p: int) {
    forall k :: 0 <= k < |s| && k != p ==> s[k] == 0.0
  }

  lemma {:induction false} OnlyAtSums(s: seq<real>, p: int)
    requires 0 <= p < |s| && OnlyAt(s, p)
    ensures Sum(s) == s[p] && SumSquares(s) == s[p] * s[p]
  {
    var init := s[..|s| - 1];
    if p < |s| - 1 {
      OnlyAtSums(init, p);
    } else {
      ZeroSums(init);
    }
  }

  lemma {:induction false} ZeroSums(s: seq<real>)
    requires forall k :: 0 <= k < |s| ==> s[k] == 0.0
    ensures Sum(s) == 0.0 && SumSquares(s) == 0.0
  {
    if |s| > 0 {
      ZeroSums(s[..|s| - 1]);
    }
  }

  /** A single non-zero category has no diversity: the index is 1. */
  lemma SimpsonSingleCategory(data: seq<real>, p: int)
    requires 0 <= p < |data| && data[p] != 0.0 && OnlyAt(data, p)
    ensures SimpsonIndex(data) == 1.0
  {
    OnlyAtSums(data, p);
    var shares := Shares(data, data[p]);
    DivSelf(data[p]);
    ShareAt(data, data[p], p);
    forall k | 0 <= k < |shares| && k != p ensures shares[k] == 0.0 {
      ShareAt(data, data[p], k);
    }
    OnlyAtSums(shares, p);
  }

  /** category_count (line 139): the number of categories, zero counts
      included. */
  function CategoryCount(data: seq<real>): (v: nat)
    ensures v == |data|
  {
    |data|
  }

  /** inverse_simpson_index (lines 248-261): the reciprocal of the Simpson
      index, or 0 when that is 0. */
  function InverseSimpsonIndex(data: seq<real>): (isi: real)
    ensures SimpsonIndex(data) == 0.0 <==> isi == 0.0
    ensures SimpsonIndex(data) != 0.0 ==> isi * SimpsonIndex(data) == 1.0
  {
    GuardedReciprocal(SimpsonIndex(data))
  }

  /** `1 / x if x != 0 else 0`, the guard shared by the inverse Simpson
      index and True Diversity. */
  function GuardedReciprocal(x: real): (r: real)
    ensures x == 0.0 <==> r == 0.0
    ensures x != 0.0 ==> r * x == 1.0
  {
    if x != 0.0 then 1.0 / x else 0.0
  }

  /** For non-negative counts with a positive total, the inverse Simpson
      index lies between 1 and the number of categories. */
  lemma InverseSimpsonBounds(data: seq<real>)
    requires NonNegative(data) && Sum(data) > 0.0
    ensures 1.0 <= InverseSimpsonIndex(data) <= CategoryCount(data) as real
  {
    var si, k := SimpsonIndex(data), |data| as real;
    SimpsonBounds(data);
    SimpsonAtLeastReciprocal(data);
    var isi := InverseSimpsonIndex(data);
    assert si > 0.0;
    PosFactor(si, isi);
    MulLe(si, 1.0, isi);
    MulLe(1.0, k * si, isi);
    assert isi * (k * si) == (isi * si) * k;
  }

  /** gini_simpson_index (lines 264-277): one minus the Simpson index. */
  function GiniSimpsonIndex(data: seq<real>): (gsi: real)
    ensures gsi + SimpsonIndex(data) == 1.0
  {
    1.0 - SimpsonIndex(data)
  }

  /** For non-negative counts the Gini-Simpson index lies in [0, 1], and it
      is 1 when the counts sum to 0. */
  lemma GiniSimpsonBounds(data: seq<real>)
    requires NonNegative(data)
    ensures 0.0 <= GiniSimpsonIndex(data) <= 1.0
    ensures Sum(data) == 0.0 ==> GiniSimpsonIndex(data) == 1.0
  {
    SimpsonBounds(data);
    if Sum(data) == 0.0 {
      SimpsonZeroTotal(data);
    }
  }

  // ----- the Gini coefficient -----

  /** `value / 2.0` on a count. */
  function Half(v: int): real {
    (v as real) / 2.0
  }

  /** `height` after the first `k` values of `s`: their running total. */
  function Height(s: seq<int>, k: nat): real
    requires k <= |s|
  {
    if k == 0 then 0.0 else Height(s, k - 1) + s[k - 1] as real
  }

  /** `area` after the first `k` values of `s` (line 124): each value adds
      the running total after it, less half of itself. */
  function Area(s: seq<int>, k: nat): real
    requires k <= |s|
  {
    if k == 0 then 0.0 else Area(s, k - 1) + Height(s, k) - Half(s[k - 1])
  }

  /** The closing lines of gini_coefficient (lines 125-127) on the final
      `height` and `area` of a list of `n` values: the area under the line
      of equality less the area under the Lorenz curve, over the former.
      The division is unguarded, so a zero `fair_area` raises
      ZeroDivisionError. */
  function GiniFrom(height: real, area: real, n: nat): Result<real> {
    var fairArea := height * (n as real) / 2.0;
    if fairArea == 0.0 then Err(ZeroDivision) else Ok((fairArea - area) / fairArea)
  }

  /** What gini_coefficient (lines 117-127) returns for `data`. */
  function GiniOf(data: seq<int>): Result<real> {
    var sorted := SortedCopy(data);
    GiniFrom(Height(sorted, |sorted|), Area(sorted, |sorted|), |data|)
  }

  /** gini_coefficient (lines 117-127), with its loop over the sorted copy. */
  method GiniCoefficient(data: seq<int>) returns (r: Result<real>)
    ensures r == GiniOf(data)
  {
    var sortedList := SortedCopy(data);
    var height, area := LorenzSums(sortedList);
    r := GiniFrom(height, area, |data|);
  }

  /** The loop of gini_coefficient (lines 122-124): the running total and
      the area under the Lorenz curve of `s`. */
  method LorenzSums(s: seq<int>) returns (height: real, area: real)
    ensures height == Height(s, |s|) && area == Area(s, |s|)
  {
    height, area := 0.0, 0.0;
    var k := 0;
    while k < |s|
      invariant 0 <= k <= |s|
      invariant height == Height(s, k) && area == Area(s, k)
    {
      var value := s[k];
      height := height + value as real;
      area := area + height - Half(value);
      k := k + 1;
    }
  }

  /** `fair_area` is 0 exactly when the total or the length is. */
  lemma GiniFromFails(height: real, area: real, n: nat)
    ensures GiniFrom(height, area, n).Err? <==> height == 0.0 || n == 0
  {
    var m := n as real;
    if height != 0.0 && n != 0 {
      if height > 0.0 {
        MulPos(height, m);
      } else {
        MulPos(-height, m);
      }
    }
  }

  /** The sum of a list of counts. */
  function Total(s: seq<int>): int {
    if |s| == 0 then 0 else Total(s[..|s| - 1]) + s[|s| - 1]
  }

  lemma {:induction false} HeightIsTotal(s: seq<int>, k: nat)
    requires k <= |s|
    ensures Height(s, k) == Total(s[..k]) as real
  {
    if k > 0 {
      HeightIsTotal(s, k - 1);
      assert s[..k][..k - 1] == s[..k - 1];
    }
  }

  lemma {:induction false} TotalAppend(a: seq<int>, b: seq<int>)
    ensures Total(a + b) == Total(a) + Total(b)
    decreases |b|
  {
    if |b| > 0 {
      TotalAppend(a, b[..|b| - 1]);
      var c := a + b;
      assert c[..|c| - 1] == a + b[..|b| - 1];
      assert c[|c| - 1] == b[|b| - 1];
      assert Total(c) == Total(c[..|c| - 1]) + c[|c| - 1];
    } else {
      assert a + b == a;
    }
  }

  /** Reordering a list does not change its sum. */
  lemma {:induction false} TotalInsert(x: int, s: seq<int>)
    requires Sorted(s)
    ensures Total(Insert(x, s)) == x + Total(s)
  {
    if s == [] || x <= s[0] {
      TotalAppend([x], s);
    } else {
      TotalInsert(x, s[1..]);
      TotalAppend([s[0]], Insert(x, s[1..]));
      TotalAppend([s[0]], s[1..]);
      assert s == [s[0]] + s[1..];
    }
  }

  lemma {:induction false} TotalSortedCopy(s: seq<int>)
    ensures Total(SortedCopy(s)) == Total(s)
  {
    if s != [] {
      TotalSortedCopy(s[1..]);
      TotalInsert(s[0], SortedCopy(s[1..]));
      TotalAppend([s[0]], s[1..]);
      assert s == [s[0]] + s[1..];
    }
  }

  /** The coefficient is undefined exactly when the values sum to 0 (an
      empty list included). */
  lemma GiniFails(data: seq<int>)
    ensures GiniOf(data).Err? <==> Total(data) == 0
  {
    var sorted := SortedCopy(data);
    HeightIsTotal(sorted, |sorted|);
    assert sorted[..|sorted|] == sorted;
    TotalSortedCopy(data);
    GiniFromFails(Height(sorted, |sorted|), Area(sorted, |sorted|), |data|);
  }

  /** The coefficient depends only on the values, not their order. */
  lemma GiniOrderFree(a: seq<int>, b: seq<int>)
    requires multiset(a) == multiset(b)
    ensures GiniOf(a) == GiniOf(b)
  {
    var sa, sb := SortedCopy(a), SortedCopy(b);
    SortedUnique(sa, sb);
    assert |a| == |b| by {
      assert |a| == |multiset(a)|;
      assert |b| == |multiset(b)|;
    }
  }

  /** The running totals of `n` copies of `w`: `height = n w` and
      `2 area = n^2 w`. */
  ghost predicate EqualValues(height: real, area: real, n: nat, w: real) {
    height == (n as real) * w && area * 2.0 == (n as real) * ((n as real) * w)
  }

  /** On `k` copies of `v` the area is `v k^2 / 2`. */
  lemma {:induction false} AreaOfEqual(s: seq<int>, v: int, k: nat)
    requires k <= |s| && forall m :: 0 <= m < |s| ==> s[m] == v
    ensures EqualValues(Height(s, k), Area(s, k), k, v as real)
  {
    if k > 0 {
      AreaOfEqual(s, v, k - 1);
      var j, w := (k - 1) as real, v as real;
      assert (j + 1.0) * w == j * w + w;
      assert (j + 1.0) * ((j + 1.0) * w) == j * (j * w) + 2.0 * (j * w) + w;
    }
  }

  /** Equal positive values are perfectly equal: the coefficient is 0. */
  lemma GiniOfEqual(data: seq<int>, v: int)
    requires |data| > 0 && v > 0 && forall m :: 0 <= m < |data| ==> data[m] == v
    ensures GiniOf(data) == Ok(0.0)
  {
    assert Sorted(data);
    SortedUnique(SortedCopy(data), data);
    AreaOfEqual(data, v, |data|);
    EqualAreas(Height(data, |data|), Area(data, |data|), |data|, v as real);
  }

  /** The closing arithmetic of `GiniOfEqual`: for equal values `fair_area`
      equals `area`. */
  lemma EqualAreas(height: real, area: real, n: nat, w: real)
    requires n > 0 && w > 0.0 && EqualValues(height, area, n, w)
    ensures GiniFrom(height, area, n) == Ok(0.0)
  {
    var m := n as real;
    MulPos(m, w);
    MulPos(m * w, m);
    assert height * m == m * (m * w);
  }

  // ----- pairs of fields and the similarity table -----

  /** A field of a subject: its category name and its count or share. */
  type Field = (string, real)

  /** A similarity (or distance) table indexed by category name on both
      axes; `cosine[a][b]` picks column `a`, then row `b`. */
  type Table = map<string, map<string, real>>

  /** `cosine[a][b]`, or None where the DataFrame raises KeyError. */
  function Lookup(cos: Table, a: string, b: string): Option<real> {
    if a in cos && b in cos[a] then Some(cos[a][b]) else None
  }

  /** `itertools.combinations(f, 2)`: every pair `(f[i], f[j])` with
      `i < j`, in lexicographic order of `(i, j)`. */
  function Combinations<T>(f: seq<T>): (r: seq<(T, T)>)
    ensures 2 * |r| == |f| * (|f| - 1)
  {
    if |f| == 0 then []
    else
      var n := |f| - 1;
      assert (n + 1) * n == 2 * n + n * (n - 1);
      PairsWith(f[0], f[1..]) + Combinations(f[1..])
  }

  /** The pairs `(x, t[k])` in order. */
  function PairsWith<T>(x: T, t: seq<T>): (r: seq<(T, T)>)
    ensures |r| == |t|
    ensures forall k :: 0 <= k < |t| ==> r[k] == (x, t[k])
  {
    seq(|t|, k requires 0 <= k < |t| => (x, t[k]))
  }

  /** Every pair of positions `i < j` is among the combinations. */
  lemma {:induction false} CombinationsHas<T>(f: seq<T>, i: int, j: int)
    requires 0 <= i < j < |f|
    ensures (f[i], f[j]) in Combinations(f)
  {
    var head := PairsWith(f[0], f[1..]);
    if i == 0 {
      assert head[j - 1] == (f[0], f[j]);
    } else {
      CombinationsHas(f[1..], i - 1, j - 1);
    }
  }

  /** Every combination is a pair of positions `i < j`. */
  lemma {:induction false} CombinationsFrom<T>(f: seq<T>, q: (T, T))
    requires q in Combinations(f)
    ensures exists i, j :: 0 <= i < j < |f| && q == (f[i], f[j])
  {
    var head := PairsWith(f[0], f[1..]);
    if q in head {
      var k :| 0 <= k < |head| && head[k] == q;
      assert q == (f[0], f[k + 1]);
    } else {
      CombinationsFrom(f[1..], q);
      var i, j :| 0 <= i < j < |f| - 1 && q == (f[1..][i], f[1..][j]);
      assert q == (f[i + 1], f[j + 1]);
    }
  }

  /** The distance `d` of one pair. With `cosine_type` "s" the table holds
      similarities and `d = 1 - cosine[a][b]`; with "d" it holds distances.
      Any other type leaves `d` unassigned, so reading it raises
      UnboundLocalError. */
  function Distance(cos: Table, kind: string, a: string, b: string): Result<real> {
    if kind == "s" then
      match Lookup(cos, a, b)
      case None => Err(KeyMissing)
      case Some(v) => Ok(1.0 - v)
    else if kind == "d" then
      match Lookup(cos, a, b)
      case None => Err(KeyMissing)
      case Some(v) => Ok(v)
    else Err(UnboundName)
  }

  /** The distance of the pair at position `k`. */
  function PairDistance(pairs: seq<(Field, Field)>, cos: Table, kind: string, k: nat): Result<real>
    requires k < |pairs|
  {
    Distance(cos, kind, pairs[k].0.0, pairs[k].1.0)
  }

  /** `dij_list` after the first `n` pairs, or the error of the first pair
      that raises. */
  function Distances(pairs: seq<(Field, Field)>, cos: Table, kind: string, n: nat): Result<seq<real>>
    requires n <= |pairs|
  {
    if n == 0 then Ok([])
    else
      match Distances(pairs, cos, kind, n - 1)
      case Err(e) => Err(e)
      case Ok(ds) =>
        match PairDistance(pairs, cos, kind, n - 1)
        case Err(e) => Err(e)
        case Ok(d) => Ok(ds + [d])
  }

  /** The list succeeds exactly when every pair has a distance, and then it
      holds those distances in order. */
  lemma {:induction false} DistancesSpec(pairs: seq<(Field, Field)>, cos: Table, kind: string, n: nat)
    requires n <= |pairs|
    ensures Distances(pairs, cos, kind, n).Ok? <==> AllPairDistances(pairs, cos, kind, n)
    ensures Distances(pairs, cos, kind, n).Ok? ==>
      var ds := Distances(pairs, cos, kind, n).value;
      |ds| == n && forall k :: 0 <= k < n ==> ds[k] == PairDistance(pairs, cos, kind, k).value
  {
    if n > 0 {
      DistancesSpec(pairs, cos, kind, n - 1);
    }
  }

  /** The first error ends the loop: later pairs do not change it. */
  lemma {:induction false} DistancesErrorStays(pairs: seq<(Field, Field)>, cos: Table, kind: string, n: nat, m: nat)
    requires n <= m <= |pairs| && Distances(pairs, cos, kind, n).Err?
    ensures Distances(pairs, cos, kind, m) == Distances(pairs, cos, kind, n)
    decreases m
  {
    if m > n {
      DistancesErrorStays(pairs, cos, kind, n, m - 1);
    }
  }

  /** The loop of calculate_disparity (lines 160-168) and calculate_DIV
      (lines 44-53), appending the distance of each pair to `dij_list`. */
  method DistanceList(pairs: seq<(Field, Field)>, cos: Table, kind: string) returns (r: Result<seq<real>>)
    ensures r == Distances(pairs, cos, kind, |pairs|)
  {
    var dijList := [];
    var k := 0;
    while k < |pairs|
      invariant 0 <= k <= |pairs|
      invariant Distances(pairs, cos, kind, k) == Ok(dijList)
    {
      var d := PairDistance(pairs, cos, kind, k);
      if d.Err? {
        DistancesErrorStays(pairs, cos, kind, k + 1, |pairs|);
        return Err(d.error);
      }
      dijList := dijList + [d.value];
      k := k + 1;
    }
    r := Ok(dijList);
  }

  /** Every two distinct fields, in list order, have a similarity in the
      table. */
  ghost predicate AllKnown(fields: seq<Field>, cos: Table) {
    forall i, j :: 0 <= i < j < |fields| ==> Lookup(cos, fields[i].0, fields[j].0).Some?
  }

  /** Every entry of the table is in [0, 1]. */
  ghost predicate UnitTable(cos: Table) {
    forall a, b :: a in cos && b in cos[a] ==> 0.0 <= cos[a][b] <= 1.0
  }

  /** Every one of the first `n` pairs has a distance. */
  ghost predicate AllPairDistances(pairs: seq<(Field, Field)>, cos: Table, kind: string, n: nat)
    requires n <= |pairs|
  {
    forall k :: 0 <= k < n ==> PairDistance(pairs, cos, kind, k).Ok?
  }

  /** A known kind of table: the lookups of the pairs decide success. */
  lemma KnownIffPairsKnown(fields: seq<Field>, cos: Table, kind: string, pairs: seq<(Field, Field)>)
    requires (kind == "s" || kind == "d") && pairs == Combinations(fields)
    ensures AllKnown(fields, cos) <==> AllPairDistances(pairs, cos, kind, |pairs|)
  {
    if AllKnown(fields, cos) {
      forall k | 0 <= k < |pairs| ensures PairDistance(pairs, cos, kind, k).Ok? {
        CombinationsFrom(fields, pairs[k]);
      }
    } else {
      var i, j :| 0 <= i < j < |fields| && Lookup(cos, fields[i].0, fields[j].0).None?;
      CombinationsHas(fields, i, j);
      var k :| 0 <= k < |pairs| && pairs[k] == (fields[i], fields[j]);
      assert PairDistance(pairs, cos, kind, k).Err?;
    }
  }

  // ----- disparity -----

  /** The closing line of calculate_disparity (line 171) for `v` fields
      whose pair distances sum to `total`. */
  function DisparityFrom(v: nat, total: real): Result<real> {
    if v * (v - 1) == 0 then Err(ZeroDivision)
    else Ok((1.0 / ((v * (v - 1)) as real)) * total)
  }

  /** What calculate_disparity (lines 142-172) returns: the distances of
      all pairs times `1 / (V (V - 1))`, an unguarded division by zero when
      there are fewer than two fields. `N` is not used. */
  function DisparityOf(fields: seq<Field>, cos: Table): Result<real> {
    var pairs := Combinations(fields);
    match Distances(pairs, cos, "s", |pairs|)
    case Err(e) => Err(e)
    case Ok(ds) => DisparityFrom(|fields|, Sum(ds))
  }

  /** calculate_disparity (lines 142-172). */
  method CalculateDisparity(fields: seq<Field>, cos: Table, n: int) returns (r: Result<real>)
    ensures r == DisparityOf(fields, cos)
  {
    var dijList := DistanceList(Combinations(fields), cos, "s");
    if dijList.Err? {
      return Err(dijList.error);
    }
    r := DisparityFrom(|fields|, Sum(dijList.value));
  }

  /** `V (V - 1)` is 0 exactly for fewer than two fields. */
  lemma DisparityFromFails(v: nat, total: real)
    ensures DisparityFrom(v, total).Err? <==> v <= 1
  {
    if v >= 2 {
      assert v * (v - 1) >= 2 * (v - 1);
    }
  }

  /** Disparity fails with ZeroDivisionError for fewer than two fields, and
      otherwise exactly when a pair is missing from the table. */
  lemma DisparityFails(fields: seq<Field>, cos: Table)
    ensures |fields| <= 1 ==> DisparityOf(fields, cos) == Err(ZeroDivision)
    ensures |fields| >= 2 ==> (DisparityOf(fields, cos).Err? <==> !AllKnown(fields, cos))
  {
    var pairs := Combinations(fields);
    DistancesSpec(pairs, cos, "s", |pairs|);
    KnownIffPairsKnown(fields, cos, "s", pairs);
    var ds := Distances(pairs, cos, "s", |pairs|);
    if ds.Ok? {
      DisparityFromFails(|fields|, Sum(ds.value));
    }
  }

  /** Every distance read from a table of similarities in [0, 1] is in
      [0, 1]. */
  lemma UnitDistances(pairs: seq<(Field, Field)>, cos: Table)
    requires UnitTable(cos) && Distances(pairs, cos, "s", |pairs|).Ok?
    ensures var ds := Distances(pairs, cos, "s", |pairs|).value;
      |ds| == |pairs| && forall k :: 0 <= k < |ds| ==> 0.0 <= ds[k] <= 1.0
  {
    DistancesSpec(pairs, cos, "s", |pairs|);
  }

  /** With similarities in [0, 1] every distance is in [0, 1] and the
      disparity lies in [0, 1/2]: there are `V (V - 1) / 2` pairs. */
  lemma DisparityBounds(fields: seq<Field>, cos: Table)
    requires UnitTable(cos) && DisparityOf(fields, cos).Ok?
    ensures 0.0 <= DisparityOf(fields, cos).value <= 0.5
  {
    var pairs := Combinations(fields);
    UnitDistances(pairs, cos);
    var ds := Distances(pairs, cos, "s", |pairs|).value;
    SumOfUnits(ds);
    DisparityFromBound(|fields|, Sum(ds), |ds|);
  }

  /** The closing line on `count = V (V - 1) / 2` distances in [0, 1]. */
  lemma DisparityFromBound(v: nat, total: real, count: nat)
    requires 2 * count == v * (v - 1) && 0.0 <= total <= count as real
    ensures DisparityFrom(v, total).Ok? ==> 0.0 <= DisparityFrom(v, total).value <= 0.5
  {
    if v * (v - 1) != 0 {
      HalfBound(total, (v * (v - 1)) as real);
    }
  }

  // ----- DIV and DIV* -----

  /** The closing lines of calculate_DIV (lines 56-66) for `v` fields whose
      pair distances sum to `total`: `V / N` raises first when `N` is 0,
      then the division by `V (V - 1)`. */
  function DIVFrom(v: nat, n: int, balance: real, total: real): Result<(real, real)> {
    if n == 0 || v * (v - 1) == 0 then Err(ZeroDivision)
    else
      Ok(((v as real) / (n as real) * balance * (total / ((v * (v - 1)) as real)),
          (v as real) * balance * total))
  }

  /** What calculate_DIV (lines 21-68) returns; the distance loop raises
      before any division. */
  function DIVOf(fields: seq<Field>, cos: Table, n: int, balance: real): Result<(real, real)> {
    var pairs := Combinations(fields);
    match Distances(pairs, cos, "s", |pairs|)
    case Err(e) => Err(e)
    case Ok(ds) => DIVFrom(|fields|, n, balance, Sum(ds))
  }

  /** calculate_DIV (lines 21-68). */
  method CalculateDIV(fields: seq<Field>, cos: Table, n: int, balance: real) returns (r: Result<(real, real)>)
    ensures r == DIVOf(fields, cos, n, balance)
  {
    var dijList := DistanceList(Combinations(fields), cos, "s");
    if dijList.Err? {
      return Err(dijList.error);
    }
    r := DIVFrom(|fields|, n, balance, Sum(dijList.value));
  }

  /** `total / m` is `total` scaled by `1 / m`: DIV's last factor is the
      disparity. */
  lemma DIVFromDisparity(v: nat, n: int, balance: real, total: real)
    ensures DIVFrom(v, n, balance, total).Err? <==> DisparityFrom(v, total).Err? || n == 0
    ensures DIVFrom(v, n, balance, total).Ok? ==>
      DIVFrom(v, n, balance, total).value.0 == (v as real) / (n as real) * balance * DisparityFrom(v, total).value
  {
    if n != 0 && v * (v - 1) != 0 {
      DivIsScale(total, (v * (v - 1)) as real);
    }
  }

  /** DIV is variety `V / N` times balance times disparity, and fails
      exactly when disparity does or `N` is 0. */
  lemma DIVIsDisparity(fields: seq<Field>, cos: Table, n: int, balance: real)
    ensures DIVOf(fields, cos, n, balance).Err? <==> DisparityOf(fields, cos).Err? || n == 0
    ensures DIVOf(fields, cos, n, balance).Ok? ==>
      DIVOf(fields, cos, n, balance).value.0
        == (|fields| as real) / (n as real) * balance * DisparityOf(fields, cos).value
  {
    var pairs := Combinations(fields);
    var ds := Distances(pairs, cos, "s", |pairs|);
    if ds.Ok? {
      DIVFromDisparity(|fields|, n, balance, Sum(ds.value));
    }
  }

  /** DIV* is `V B` times the sum of the pair distances, that is `V B`
      times `V (V - 1)` times the disparity. */
  lemma DIVStarIsDisparity(fields: seq<Field>, cos: Table, n: int, balance: real)
    requires DIVOf(fields, cos, n, balance).Ok?
    ensures DisparityOf(fields, cos).Ok?
    ensures DIVOf(fields, cos, n, balance).value.1
      == (|fields| as real) * balance * (((|fields| * (|fields| - 1)) as real) * DisparityOf(fields, cos).value)
  {
    var pairs := Combinations(fields);
    var total := Sum(Distances(pairs, cos, "s", |pairs|).value);
    var m := (|fields| * (|fields| - 1)) as real;
    DivIsScale(total, m);
    DivMul(total, m);
    assert m * DisparityOf(fields, cos).value == total;
  }

  // ----- Rao-Stirling and True Diversity -----

  /** `p = one[1] * two[1]`, the product of the two weights of a pair. */
  function Weight(q: (Field, Field)): real {
    q.0.1 * q.1.1
  }

  /** The weights of the first `n` pairs. */
  function Weights(pairs: seq<(Field, Field)>, n: nat): (w: seq<real>)
    requires n <= |pairs|
    ensures |w| == n
  {
    if n == 0 then [] else Weights(pairs, n - 1) + [Weight(pairs[n - 1])]
  }

  /** `rs_ = p * d` and `td_ = p * (1 - d)` appended to `RSs` and `TDs`
      (lines 106-109). */
  function AddTerms(terms: (seq<real>, seq<real>), p: real, d: real): (seq<real>, seq<real>) {
    (terms.0 + [p * d], terms.1 + [p * (1.0 - d)])
  }

  /** `RSs` and `TDs` after the first `n` pairs (lines 95-109); the first
      pair whose distance raises ends the loop. */
  function RaoStirlingTerms(pairs: seq<(Field, Field)>, cos: Table, kind: string, n: nat): Result<(seq<real>, seq<real>)>
    requires n <= |pairs|
  {
    if n == 0 then Ok(([], []))
    else
      match RaoStirlingTerms(pairs, cos, kind, n - 1)
      case Err(e) => Err(e)
      case Ok(terms) =>
        match PairDistance(pairs, cos, kind, n - 1)
        case Err(e) => Err(e)
        case Ok(d) => Ok(AddTerms(terms, Weight(pairs[n - 1]), d))
  }

  lemma {:induction false} RaoStirlingErrorStays(pairs: seq<(Field, Field)>, cos: Table, kind: string, n: nat, m: nat)
    requires n <= m <= |pairs| && RaoStirlingTerms(pairs, cos, kind, n).Err?
    ensures RaoStirlingTerms(pairs, cos, kind, m) == RaoStirlingTerms(pairs, cos, kind, n)
    decreases m
  {
    if m > n {
      RaoStirlingErrorStays(pairs, cos, kind, n, m - 1);
    }
  }

  /** The loop of calculate_RS_TD_indicator (lines 95-109). */
  method RaoStirlingLoop(pairs: seq<(Field, Field)>, cos: Table, kind: string) returns (r: Result<(seq<real>, seq<real>)>)
    ensures r == RaoStirlingTerms(pairs, cos, kind, |pairs|)
  {
    var terms := ([], []);
    var k := 0;
    while k < |pairs|
      invariant 0 <= k <= |pairs|
      invariant RaoStirlingTerms(pairs, cos, kind, k) == Ok(terms)
    {
      var p := Weight(pairs[k]);
      var d := PairDistance(pairs, cos, kind, k);
      if d.Err? {
        RaoStirlingErrorStays(pairs, cos, kind, k + 1, |pairs|);
        return Err(d.error);
      }
      terms := AddTerms(terms, p, d.value);
      k := k + 1;
    }
    r := Ok(terms);
  }

  /** The terms exist exactly when every distance does, and then each `rs`
      term is the pair's weight times its distance. */
  lemma {:induction false} RaoStirlingShape(pairs: seq<(Field, Field)>, cos: Table, kind: string, n: nat)
    requires n <= |pairs|
    ensures RaoStirlingTerms(pairs, cos, kind, n).Ok? <==> Distances(pairs, cos, kind, n).Ok?
    ensures RaoStirlingTerms(pairs, cos, kind, n).Ok? ==>
      var terms := RaoStirlingTerms(pairs, cos, kind, n).value;
      |terms.0| == n && |terms.1| == n &&
      forall k :: 0 <= k < n ==>
        PairDistance(pairs, cos, kind, k).Ok? &&
        terms.0[k] == Weight(pairs[k]) * PairDistance(pairs, cos, kind, k).value
  {
    if n > 0 {
      RaoStirlingShape(pairs, cos, kind, n - 1);
    }
  }

  /** The `rs` and `td` terms together sum to the total weight of the
      pairs. */
  lemma {:induction false} RaoStirlingSum(pairs: seq<(Field, Field)>, cos: Table, kind: string, n: nat)
    requires n <= |pairs| && RaoStirlingTerms(pairs, cos, kind, n).Ok?
    ensures var terms := RaoStirlingTerms(pairs, cos, kind, n).value;
      Sum(terms.0) + Sum(terms.1) == Sum(Weights(pairs, n))
  {
    if n > 0 {
      RaoStirlingSum(pairs, cos, kind, n - 1);
      var t := RaoStirlingTerms(pairs, cos, kind, n - 1).value;
      var d := PairDistance(pairs, cos, kind, n - 1).value;
      var p := Weight(pairs[n - 1]);
      assert RaoStirlingTerms(pairs, cos, kind, n).value == AddTerms(t, p, d);
      assert Weights(pairs, n) == Weights(pairs, n - 1) + [p];
      TermsSumStep(t, p, d, Weights(pairs, n - 1));
    }
  }

  /** One step of `RaoStirlingSum`: the new terms `p d` and `p (1 - d)`
      add up to the new weight `p`. */
  lemma TermsSumStep(t: (seq<real>, seq<real>), p: real, d: real, w: seq<real>)
    requires Sum(t.0) + Sum(t.1) == Sum(w)
    ensures Sum(AddTerms(t, p, d).0) + Sum(AddTerms(t, p, d).1) == Sum(w + [p])
  {
    SumAppend(t.0, p * d);
    SumAppend(t.1, p * (1.0 - d));
    SumAppend(w, p);
    SplitWeight(p, d);
  }

  /** Reading a table as similarities ("s") swaps the two lists obtained
      by reading it as distances ("d"). */
  lemma {:induction false} RaoStirlingKinds(pairs: seq<(Field, Field)>, cos: Table, n: nat)
    requires n <= |pairs|
    ensures RaoStirlingTerms(pairs, cos, "s", n).Ok? <==> RaoStirlingTerms(pairs, cos, "d", n).Ok?
    ensures RaoStirlingTerms(pairs, cos, "s", n).Ok? ==>
      RaoStirlingTerms(pairs, cos, "s", n).value.0 == RaoStirlingTerms(pairs, cos, "d", n).value.1 &&
      RaoStirlingTerms(pairs, cos, "s", n).value.1 == RaoStirlingTerms(pairs, cos, "d", n).value.0
  {
    if n > 0 {
      RaoStirlingKinds(pairs, cos, n - 1);
      var ts, td := RaoStirlingTerms(pairs, cos, "s", n - 1), RaoStirlingTerms(pairs, cos, "d", n - 1);
      var ds, dd := PairDistance(pairs, cos, "s", n - 1), PairDistance(pairs, cos, "d", n - 1);
      assert ds.Ok? <==> dd.Ok?;
      if ts.Ok? && ds.Ok? {
        var p, v := Weight(pairs[n - 1]), dd.value;
        var a: (seq<real>, seq<real>), b: (seq<real>, seq<real>) := ts.value, td.value;
        assert ds.value == 1.0 - v;
        assert RaoStirlingTerms(pairs, cos, "s", n) == Ok(AddTerms(a, p, 1.0 - v));
        assert RaoStirlingTerms(pairs, cos, "d", n) == Ok(AddTerms(b, p, v));
        SwappedTerms(a, b, p, v);
      }
    }
  }

  /** One step of `RaoStirlingKinds`: distance `1 - v` against `v`. */
  lemma SwappedTerms(a: (seq<real>, seq<real>), b: (seq<real>, seq<real>), p: real, v: real)
    requires a.0 == b.1 && a.1 == b.0
    ensures AddTerms(a, p, 1.0 - v).0 == AddTerms(b, p, v).1
    ensures AddTerms(a, p, 1.0 - v).1 == AddTerms(b, p, v).0
  {
    assert 1.0 - (1.0 - v) == v;
  }

  /** What calculate_RS_TD_indicator (lines 71-114) returns: Rao-Stirling
      `RS`, and True Diversity, the guarded reciprocal of the `td` sum. */
  function RSTDOf(fields: seq<Field>, cos: Table, kind: string): Result<(real, real)> {
    var pairs := Combinations(fields);
    match RaoStirlingTerms(pairs, cos, kind, |pairs|)
    case Err(e) => Err(e)
    case Ok(terms) => Ok((Sum(terms.0), GuardedReciprocal(Sum(terms.1))))
  }

  /** calculate_RS_TD_indicator (lines 71-114). */
  method CalculateRSTD(fields: seq<Field>, cos: Table, kind: string) returns (r: Result<(real, real)>)
    ensures r == RSTDOf(fields, cos, kind)
  {
    var terms := RaoStirlingLoop(Combinations(fields), cos, kind);
    if terms.Err? {
      return Err(terms.error);
    }
    var rs := Sum(terms.value.0);
    var tdsSum := Sum(terms.value.1);
    var td := if tdsSum != 0.0 then 1.0 / tdsSum else 0.0;
    r := Ok((rs, td));
  }

  /** With a known kind the indicator fails exactly when a pair is missing
      from the table. */
  lemma RSTDFails(fields: seq<Field>, cos: Table, kind: string)
    requires kind == "s" || kind == "d"
    ensures RSTDOf(fields, cos, kind).Ok? <==> AllKnown(fields, cos)
  {
    var pairs := Combinations(fields);
    RaoStirlingShape(pairs, cos, kind, |pairs|);
    DistancesSpec(pairs, cos, kind, |pairs|);
    KnownIffPairsKnown(fields, cos, kind, pairs);
  }

  /** True Diversity is the guarded reciprocal of the total pair weight
      less Rao-Stirling. */
  lemma TrueDiversityFromRS(fields: seq<Field>, cos: Table, kind: string)
    requires RSTDOf(fields, cos, kind).Ok?
    ensures var pairs := Combinations(fields);
      RSTDOf(fields, cos, kind).value.1
        == GuardedReciprocal(Sum(Weights(pairs, |pairs|)) - RSTDOf(fields, cos, kind).value.0)
  {
    var pairs := Combinations(fields);
    RaoStirlingSum(pairs, cos, kind, |pairs|);
  }

  /** Any kind other than "s" and "d" raises UnboundLocalError as soon as
      there is a pair, and yields `(0, 0)` when there is none. */
  lemma RSTDUnknownKind(fields: seq<Field>, cos: Table, kind: string)
    requires kind != "s" && kind != "d"
    ensures |fields| <= 1 ==> RSTDOf(fields, cos, kind) == Ok((0.0, 0.0))
    ensures |fields| >= 2 ==> RSTDOf(fields, cos, kind) == Err(UnboundName)
  {
    var pairs := Combinations(fields);
    if |fields| >= 2 {
      UnknownKindFails(pairs, cos, kind, |pairs|);
    }
  }

  lemma {:induction false} UnknownKindFails(pairs: seq<(Field, Field)>, cos: Table, kind: string, n: nat)
    requires kind != "s" && kind != "d" && 0 < n <= |pairs|
    ensures RaoStirlingTerms(pairs, cos, kind, n) == Err(UnboundName)
  {
    if n > 1 {
      UnknownKindFails(pairs, cos, kind, n - 1);
    }
  }

  /** Rao-Stirling of a similarity table is the `td` sum of the same table
      read as distances, so True Diversity of one reading is the guarded
      reciprocal of Rao-Stirling of the other. */
  lemma RSTDKinds(fields: seq<Field>, cos: Table)
    ensures RSTDOf(fields, cos, "s").Ok? <==> RSTDOf(fields, cos, "d").Ok?
    ensures RSTDOf(fields, cos, "s").Ok? ==>
      RSTDOf(fields, cos, "d").value.1 == GuardedReciprocal(RSTDOf(fields, cos, "s").value.0) &&
      RSTDOf(fields, cos, "s").value.1 == GuardedReciprocal(RSTDOf(fields, cos, "d").value.0)
  {
    var pairs := Combinations(fields);
    RaoStirlingKinds(pairs, cos, |pairs|);
  }
}
