/** `generate_CoMatrix` of gitopenlib/utils/comatrix.py: the co-occurrence
    and Ochiai correlation matrices of a list of tag-sets. Counters are
    `defaultdict(int)`s, modelled as maps; the matrices are lists of rows
    whose rows and columns follow the sorted tag list. */
module TagCoMatrix {
  import opened PyStr
  import RealArith

  // ----- counting with defaultdict(int) -----

  /** The counter `d` after `d[x] += 1` for every `x` of `s` in turn. */
  function Tally<K>(s: seq<K>): map<K, nat> {
    if |s| == 0 then map[]
    else
      var m := Tally(s[..|s| - 1]);
      var x := s[|s| - 1];
      m[x := (if x in m then m[x] else 0) + 1]
  }

  /** The counter holds exactly the items seen, each with its number of
      occurrences. */
  lemma {:induction false} TallySpec<K>(s: seq<K>)
    ensures forall x :: x in Tally(s) <==> x in s
    ensures forall x :: x in Tally(s) ==> Tally(s)[x] == multiset(s)[x]
  {
    if |s| > 0 {
      var init := s[..|s| - 1];
      TallySpec(init);
      assert s == init + [s[|s| - 1]];
    }
  }

  lemma TallySnoc<K>(s: seq<K>, x: K)
    ensures Tally(s + [x]) == Tally(s)[x := (if x in Tally(s) then Tally(s)[x] else 0) + 1]
  {
    assert (s + [x])[..|s|] == s;
  }

  /** The tags of all tag-sets in the order the loops visit them. */
  function Tags(data: seq<seq<string>>): seq<string> {
    if |data| == 0 then [] else Tags(data[..|data| - 1]) + data[|data| - 1]
  }

  lemma TagsSnoc(data: seq<seq<string>>, k: nat)
    requires k < |data|
    ensures Tags(data[..k + 1]) == Tags(data[..k]) + data[k]
  {
    assert data[..k + 1][..k] == data[..k];
  }

  /** How often `t` occurs in the data, repeats inside one tag-set
      included. */
  function Count(data: seq<seq<string>>, t: string): nat {
    multiset(Tags(data))[t]
  }

  /** Each tag-set adds its own number of occurrences. */
  lemma CountSum(data: seq<seq<string>>, t: string)
    requires |data| > 0
    ensures Count(data, t) == Count(data[..|data| - 1], t) + multiset(data[|data| - 1])[t]
  {
    assert Tags(data) == Tags(data[..|data| - 1]) + data[|data| - 1];
  }

  /** The first loop (`kw_num_dict[kw] += 1`). */
  method CountTags(data: seq<seq<string>>) returns (counts: map<string, nat>)
    ensures forall t :: t in counts <==> t in Tags(data)
    ensures forall t :: t in counts ==> counts[t] == Count(data, t)
  {
    counts := map[];
    ghost var seen: seq<string> := [];
    var k := 0;
    while k < |data|
      invariant 0 <= k <= |data|
      invariant seen == Tags(data[..k]) && counts == Tally(seen)
    {
      var item := data[k];
      var j := 0;
      while j < |item|
        invariant 0 <= j <= |item|
        invariant seen == Tags(data[..k]) + item[..j] && counts == Tally(seen)
      {
        var kw := item[j];
        TallySnoc(seen, kw);
        counts := counts[kw := (if kw in counts then counts[kw] else 0) + 1];
        assert item[..j + 1] == item[..j] + [kw];
        Assoc(Tags(data[..k]), item[..j], [kw]);
        seen := seen + [kw];
        j := j + 1;
      }
      assert item[..|item|] == item;
      TagsSnoc(data, k);
      k := k + 1;
    }
    assert data[..|data|] == data;
    TallySpec(seen);
  }

  /** The second loop: only tags counted at least `filterNum` times stay. */
  method FilterByCount(counts: map<string, nat>, filterNum: int) returns (kept: map<string, nat>)
    ensures forall t :: t in kept <==> t in counts && counts[t] >= filterNum
    ensures forall t :: t in kept ==> kept[t] == counts[t]
  {
    kept := map[];
    var rest := counts.Keys;
    while rest != {}
      invariant rest <= counts.Keys
      invariant forall t :: t in kept <==> t in counts && t !in rest && counts[t] >= filterNum
      invariant forall t :: t in kept ==> kept[t] == counts[t]
      decreases |rest|
    {
      var t :| t in rest;
      if counts[t] >= filterNum {
        kept := kept[t := counts[t]];
      }
      rest := rest - {t};
    }
  }

  // ----- the surviving tags, sorted -----

  /** The tags that end up in the matrix: counted often enough, and in the
      allow-list when one is given (an empty list, like `None`, is no
      filter). */
  function Survivors(data: seq<seq<string>>, filterNum: int, filterTags: seq<string>): set<string> {
    set t | t in Tags(data) && Count(data, t) >= filterNum && (|filterTags| == 0 || t in filterTags)
  }

  /** Ascending and without repeats. */
  predicate StrictlySorted(s: seq<string>) {
    forall i, j :: 0 <= i < j < |s| ==> Less(s[i], s[j])
  }

  /** A sorted list with one more tag put in its place. */
  function InsertTag(s: seq<string>, t: string): (r: seq<string>)
    requires StrictlySorted(s) && t !in s
    ensures |r| == |s| + 1 && StrictlySorted(r)
    ensures forall x :: x in r <==> x == t || x in s
  {
    if |s| == 0 then [t]
    else if Less(t, s[0]) then LessHead(t, s); [t] + s
    else
      LessTotal(t, s[0]);
      var r := [s[0]] + InsertTag(s[1..], t);
      assert forall x :: x in s[1..] ==> Less(s[0], x);
      r
  }

  lemma LessHead(t: string, s: seq<string>)
    requires StrictlySorted(s) && |s| > 0 && Less(t, s[0])
    ensures StrictlySorted([t] + s)
  {
    forall j | 0 < j < |s| ensures Less(t, s[j]) {
      LessTransitive(t, s[0], s[j]);
    }
  }

  /** `sorted(kws)` of a list of distinct tags. */
  method SortTags(tags: set<string>) returns (kws: seq<string>)
    ensures StrictlySorted(kws)
    ensures forall t :: t in kws <==> t in tags
  {
    kws := [];
    var rest := tags;
    while rest != {}
      invariant rest <= tags && StrictlySorted(kws)
      invariant forall t :: t in kws <==> t in tags && t !in rest
      decreases |rest|
    {
      var t :| t in rest;
      kws := InsertTag(kws, t);
      rest := rest - {t};
    }
  }

  /** There is only one ascending list of a given set of tags. */
  lemma {:induction false} SortedUnique(s: seq<string>, u: seq<string>)
    requires StrictlySorted(s) && StrictlySorted(u)
    requires forall t :: t in s <==> t in u
    ensures s == u
  {
    assert |s| > 0 ==> s[0] in u;
    assert |u| > 0 ==> u[0] in s;
    if |s| > 0 && |u| > 0 {
      if s[0] != u[0] {
        var i :| 0 <= i < |u| && u[i] == s[0];
        var j :| 0 <= j < |s| && s[j] == u[0];
        LessAsymmetric(s[0], u[0]);
      }
      forall t ensures t in s[1..] <==> t in u[1..] {
        if t in s[1..] {
          TailMember(s, u, t);
        }
        if t in u[1..] {
          TailMember(u, s, t);
        }
      }
      SortedUnique(s[1..], u[1..]);
    }
  }

  /** A later item of one of two ascending lists with the same items and
      the same head is a later item of the other. */
  lemma TailMember(s: seq<string>, u: seq<string>, t: string)
    requires StrictlySorted(s) && StrictlySorted(u) && |s| > 0 && |u| > 0 && s[0] == u[0]
    requires forall x :: x in s <==> x in u
    requires t in s[1..]
    ensures t in u[1..]
  {
    var k :| 0 <= k < |s| - 1 && s[1..][k] == t;
    assert Less(s[0], s[k + 1]);
    LessIrreflexive(s[0]);
    assert t in u;
    var m :| 0 <= m < |u| && u[m] == t;
    assert m != 0;
    assert u[1..][m - 1] == t;
  }

  // ----- pair counting -----

  /** The pairs `(x, y)` for `y` in `ys`. */
  function Row(x: string, ys: seq<string>): seq<(string, string)> {
    if |ys| == 0 then [] else Row(x, ys[..|ys| - 1]) + [(x, ys[|ys| - 1])]
  }

  /** `product(xs, ys)`. */
  function Product(xs: seq<string>, ys: seq<string>): seq<(string, string)> {
    if |xs| == 0 then [] else Product(xs[..|xs| - 1], ys) + Row(xs[|xs| - 1], ys)
  }

  /** `product(item, item)` for every tag-set in turn. */
  function PairStream(data: seq<seq<string>>): seq<(string, string)> {
    if |data| == 0 then [] else PairStream(data[..|data| - 1]) + Product(data[|data| - 1], data[|data| - 1])
  }

  /** The pairs of `s` whose tags both survive. */
  function KeepPairs(s: seq<(string, string)>, kws: seq<string>): seq<(string, string)> {
    if |s| == 0 then []
    else if s[|s| - 1].0 in kws && s[|s| - 1].1 in kws then KeepPairs(s[..|s| - 1], kws) + [s[|s| - 1]]
    else KeepPairs(s[..|s| - 1], kws)
  }

  /** Σ over the tag-sets of (occurrences of a) · (occurrences of b). */
  function PairCount(data: seq<seq<string>>, a: string, b: string): nat {
    if |data| == 0 then 0
    else PairCount(data[..|data| - 1], a, b) + multiset(data[|data| - 1])[a] * multiset(data[|data| - 1])[b]
  }

  /** The third loop (`pair_count_dict[pair] += 1` for the pairs of
      surviving tags): a pair is counted exactly when both tags survive
      and it co-occurs, and its count is `PairCount`. */
  method CountPairs(data: seq<seq<string>>, kws: seq<string>) returns (pairs: map<(string, string), nat>)
    ensures forall a, b :: (a, b) in pairs <==> a in kws && b in kws && PairCount(data, a, b) > 0
    ensures forall a, b :: (a, b) in pairs ==> pairs[(a, b)] == PairCount(data, a, b)
  {
    pairs := map[];
    ghost var seen: seq<(string, string)> := [];
    var k := 0;
    while k < |data|
      invariant 0 <= k <= |data|
      invariant seen == PairStream(data[..k]) && pairs == Tally(KeepPairs(seen, kws))
    {
      pairs, seen := CountItemPairs(data[k], kws, pairs, seen);
      assert data[..k + 1][..k] == data[..k];
      k := k + 1;
    }
    assert data[..|data|] == data;
    TallyPairs(data, kws);
  }

  /** The pairs of `product(item, item)` added to the counter. */
  method CountItemPairs(item: seq<string>, kws: seq<string>, pairs0: map<(string, string), nat>,
                        ghost seen0: seq<(string, string)>)
    returns (pairs: map<(string, string), nat>, ghost seen: seq<(string, string)>)
    requires pairs0 == Tally(KeepPairs(seen0, kws))
    ensures seen == seen0 + Product(item, item)
    ensures pairs == Tally(KeepPairs(seen0 + Product(item, item), kws))
  {
    pairs, seen := pairs0, seen0;
    var i := 0;
    while i < |item|
      invariant 0 <= i <= |item|
      invariant seen == seen0 + Product(item[..i], item) && pairs == Tally(KeepPairs(seen, kws))
    {
      ghost var before := seen;
      pairs, seen := CountRowPairs(item[i], item, kws, pairs, seen);
      ProductSnoc(item, item, i);
      Assoc(seen0, Product(item[..i], item), Row(item[i], item));
      i := i + 1;
    }
    assert item[..|item|] == item;
  }

  lemma Assoc<T>(a: seq<T>, b: seq<T>, c: seq<T>)
    ensures a + (b + c) == (a + b) + c
  {
  }

  /** The pairs `(x, y)` for `y` in `item` added to the counter. */
  method CountRowPairs(x: string, item: seq<string>, kws: seq<string>, pairs0: map<(string, string), nat>,
                       ghost seen0: seq<(string, string)>)
    returns (pairs: map<(string, string), nat>, ghost seen: seq<(string, string)>)
    requires pairs0 == Tally(KeepPairs(seen0, kws))
    ensures seen == seen0 + Row(x, item)
    ensures pairs == Tally(KeepPairs(seen0 + Row(x, item), kws))
  {
    pairs, seen := pairs0, seen0;
    var j := 0;
    while j < |item|
      invariant 0 <= j <= |item|
      invariant seen == seen0 + Row(x, item[..j]) && pairs == Tally(KeepPairs(seen, kws))
    {
      var p := (x, item[j]);
      TallyKeepSnoc(seen, p, kws);
      if x in kws && item[j] in kws {
        pairs := pairs[p := (if p in pairs then pairs[p] else 0) + 1];
      }
      RowSnoc(x, item, j);
      Assoc(seen0, Row(x, item[..j]), [p]);
      seen := seen + [p];
      j := j + 1;
    }
    assert item[..|item|] == item;
  }

  /** What the counter holds after all the pairs. */
  lemma TallyPairs(data: seq<seq<string>>, kws: seq<string>)
    ensures var pairs := Tally(KeepPairs(PairStream(data), kws));
      forall a, b :: ((a, b) in pairs <==> a in kws && b in kws && PairCount(data, a, b) > 0) &&
        ((a, b) in pairs ==> pairs[(a, b)] == PairCount(data, a, b))
  {
    var seen := PairStream(data);
    TallySpec(KeepPairs(seen, kws));
    forall a, b ensures multiset(KeepPairs(seen, kws))[(a, b)] ==
      if a in kws && b in kws then PairCount(data, a, b) else 0
    {
      KeepPairsCount(seen, kws, (a, b));
      StreamCount(data, a, b);
    }
  }

  /** One pair more: counted when both its tags survive. */
  function CountStep(pairs: map<(string, string), nat>, p: (string, string), kws: seq<string>): map<(string, string), nat> {
    if p.0 in kws && p.1 in kws then pairs[p := (if p in pairs then pairs[p] else 0) + 1] else pairs
  }

  lemma TallyKeepSnoc(s: seq<(string, string)>, p: (string, string), kws: seq<string>)
    ensures Tally(KeepPairs(s + [p], kws)) == CountStep(Tally(KeepPairs(s, kws)), p, kws)
  {
    KeepPairsSnoc(s, p, kws);
    TallySnoc(KeepPairs(s, kws), p);
  }

  lemma KeepPairsSnoc(s: seq<(string, string)>, p: (string, string), kws: seq<string>)
    ensures KeepPairs(s + [p], kws) == if p.0 in kws && p.1 in kws then KeepPairs(s, kws) + [p] else KeepPairs(s, kws)
  {
    assert (s + [p])[..|s|] == s;
  }

  lemma RowSnoc(x: string, ys: seq<string>, j: nat)
    requires j < |ys|
    ensures Row(x, ys[..j + 1]) == Row(x, ys[..j]) + [(x, ys[j])]
  {
    assert ys[..j + 1][..j] == ys[..j];
  }

  lemma ProductSnoc(xs: seq<string>, ys: seq<string>, i: nat)
    requires i < |xs|
    ensures Product(xs[..i + 1], ys) == Product(xs[..i], ys) + Row(xs[i], ys)
  {
    assert xs[..i + 1][..i] == xs[..i];
  }

  /** Only pairs of surviving tags are kept, each as often as it occurs. */
  lemma {:induction false} KeepPairsCount(s: seq<(string, string)>, kws: seq<string>, p: (string, string))
    ensures multiset(KeepPairs(s, kws))[p] == if p.0 in kws && p.1 in kws then multiset(s)[p] else 0
  {
    if |s| > 0 {
      KeepPairsCount(s[..|s| - 1], kws, p);
      assert s == s[..|s| - 1] + [s[|s| - 1]];
    }
  }

  lemma {:induction false} RowCount(x: string, ys: seq<string>, a: string, b: string)
    ensures multiset(Row(x, ys))[(a, b)] == if x == a then multiset(ys)[b] else 0
  {
    if |ys| > 0 {
      RowCount(x, ys[..|ys| - 1], a, b);
      assert ys == ys[..|ys| - 1] + [ys[|ys| - 1]];
    }
  }

  /** `product(xs, ys)` holds `(a, b)` (occurrences of a) · (occurrences
      of b) times. */
  lemma {:induction false} ProductCount(xs: seq<string>, ys: seq<string>, a: string, b: string)
    ensures multiset(Product(xs, ys))[(a, b)] == multiset(xs)[a] * multiset(ys)[b]
  {
    if |xs| > 0 {
      var init, x := xs[..|xs| - 1], xs[|xs| - 1];
      ProductCount(init, ys, a, b);
      RowCount(x, ys, a, b);
      SnocCount(xs, a);
      ProductLast(xs, ys, a, b);
      MulSucc(multiset(init)[a], multiset(ys)[b], x == a);
    }
  }

  lemma SnocCount<T>(xs: seq<T>, a: T)
    requires |xs| > 0
    ensures multiset(xs)[a] == multiset(xs[..|xs| - 1])[a] + if xs[|xs| - 1] == a then 1 else 0
  {
    assert xs == xs[..|xs| - 1] + [xs[|xs| - 1]];
  }

  lemma ProductLast(xs: seq<string>, ys: seq<string>, a: string, b: string)
    requires |xs| > 0
    ensures multiset(Product(xs, ys))[(a, b)] ==
      multiset(Product(xs[..|xs| - 1], ys))[(a, b)] + multiset(Row(xs[|xs| - 1], ys))[(a, b)]
  {
  }

  lemma MulSucc(m: nat, n: nat, c: bool)
    ensures (m + if c then 1 else 0) * n == m * n + if c then n else 0
  {
  }

  lemma {:induction false} StreamCount(data: seq<seq<string>>, a: string, b: string)
    ensures multiset(PairStream(data))[(a, b)] == PairCount(data, a, b)
  {
    if |data| > 0 {
      StreamCount(data[..|data| - 1], a, b);
      ProductCount(data[|data| - 1], data[|data| - 1], a, b);
    }
  }

  /** `product(item, item)` yields `(a, b)` as often as `(b, a)`. */
  lemma {:induction false} PairCountSymmetric(data: seq<seq<string>>, a: string, b: string)
    ensures PairCount(data, a, b) == PairCount(data, b, a)
  {
    if |data| > 0 {
      PairCountSymmetric(data[..|data| - 1], a, b);
      var m := multiset(data[|data| - 1]);
      assert m[a] * m[b] == m[b] * m[a];
    }
  }

  /** A tag that occurs co-occurs with itself, so its self-pair is counted
      and it gets a row of its own. */
  lemma {:induction false} SelfPairCount(data: seq<seq<string>>, t: string)
    ensures PairCount(data, t, t) >= Count(data, t)
  {
    if |data| > 0 {
      SelfPairCount(data[..|data| - 1], t);
      CountSum(data, t);
      var n := multiset(data[|data| - 1])[t];
      assert n * n >= n by {
        if n > 0 {
          assert n * n == n * (n - 1) + n;
        }
      }
    }
  }

  // ----- the matrices -----

  /** Zeroing the diagonal (`0 if pair[0] == pair[1] else count`). */
  function ZeroDiagonal(pairs: map<(string, string), nat>): (z: map<(string, string), nat>)
    ensures z.Keys == pairs.Keys
    ensures forall a, b :: (a, b) in z ==> z[(a, b)] == if a == b then 0 else pairs[(a, b)]
  {
    map p | p in pairs :: if p.0 == p.1 then 0 else pairs[p]
  }

  /** The remaining loops: the rows of tags in sorted order, completed
      with 0 for the tags a tag never met (`frequency_vector`), and the
      Ochiai coefficients `count / (sqrt(N[kw]) * sqrt(N[kw_sub]))`
      in the same order. */
  method BuildMatrices(kws: seq<string>, zeroed: map<(string, string), nat>, num: map<string, nat>, sqrt: nat -> real)
    returns (freq: seq<seq<nat>>, ochiai: seq<seq<real>>)
    requires forall t :: t in kws ==> t in num && sqrt(num[t]) > 0.0
    ensures |freq| == |kws| && |ochiai| == |kws|
    ensures forall i :: 0 <= i < |kws| ==> |freq[i]| == |kws| && |ochiai[i]| == |kws|
    ensures forall i, j :: 0 <= i < |kws| && 0 <= j < |kws| ==>
      freq[i][j] == Lookup(zeroed, kws[i], kws[j]) &&
      ochiai[i][j] == Ochiai(freq[i][j], sqrt(num[kws[i]]), sqrt(num[kws[j]]))
  {
    freq, ochiai := [], [];
    var i := 0;
    while i < |kws|
      invariant 0 <= i <= |kws| && |freq| == i && |ochiai| == i
      invariant forall r :: 0 <= r < i ==> |freq[r]| == |kws| && |ochiai[r]| == |kws|
      invariant forall r, j :: 0 <= r < i && 0 <= j < |kws| ==>
        freq[r][j] == Lookup(zeroed, kws[r], kws[j]) &&
        ochiai[r][j] == Ochiai(freq[r][j], sqrt(num[kws[r]]), sqrt(num[kws[j]]))
    {
      var row, orow := BuildRow(kws, i, zeroed, num, sqrt);
      freq, ochiai := freq + [row], ochiai + [orow];
      i := i + 1;
    }
  }

  method BuildRow(kws: seq<string>, i: nat, zeroed: map<(string, string), nat>, num: map<string, nat>, sqrt: nat -> real)
    returns (row: seq<nat>, orow: seq<real>)
    requires i < |kws| && forall t :: t in kws ==> t in num && sqrt(num[t]) > 0.0
    ensures |row| == |kws| && |orow| == |kws|
    ensures forall j :: 0 <= j < |kws| ==>
      row[j] == Lookup(zeroed, kws[i], kws[j]) && orow[j] == Ochiai(row[j], sqrt(num[kws[i]]), sqrt(num[kws[j]]))
  {
    row, orow := [], [];
    var kw := kws[i];
    var j := 0;
    while j < |kws|
      invariant 0 <= j <= |kws| && |row| == j && |orow| == j
      invariant forall c :: 0 <= c < j ==>
        row[c] == Lookup(zeroed, kw, kws[c]) && orow[c] == Ochiai(row[c], sqrt(num[kw]), sqrt(num[kws[c]]))
    {
      var count := if (kw, kws[j]) in zeroed then zeroed[(kw, kws[j])] else 0;
      row := row + [count];
      orow := orow + [Ochiai(count, sqrt(num[kw]), sqrt(num[kws[j]]))];
      j := j + 1;
    }
  }

  /** A count of the completed table: 0 for a pair never counted. */
  function Lookup(zeroed: map<(string, string), nat>, a: string, b: string): nat {
    if (a, b) in zeroed then zeroed[(a, b)] else 0
  }

  /** The Ochiai coefficient of a pair count given the square roots of the
      two tag counts: never negative, and zero exactly for a zero count. */
  function Ochiai(count: nat, ri: real, rj: real): (r: real)
    requires ri > 0.0 && rj > 0.0
    ensures r >= 0.0 && (r == 0.0 <==> count == 0)
  {
    RealArith.MulPos(ri, rj);
    if count > 0 then RealArith.DivPos(count as real, ri * rj); count as real / (ri * rj)
    else count as real / (ri * rj)
  }

  // ----- generate_CoMatrix -----

  /** `freq` is the co-occurrence matrix of the tags `kws`: row and column
      `i` belong to `kws[i]`, the diagonal is zero and every other entry
      is the pair count. */
  ghost predicate IsFrequencyMatrix(data: seq<seq<string>>, kws: seq<string>, freq: seq<seq<nat>>) {
    |freq| == |kws| && (forall i :: 0 <= i < |kws| ==> |freq[i]| == |kws|) &&
    (forall i :: 0 <= i < |kws| ==> freq[i][i] == 0) &&
    forall i, j :: 0 <= i < |kws| && 0 <= j < |kws| && i != j ==> freq[i][j] == PairCount(data, kws[i], kws[j])
  }

  /** `ochiai` holds the Ochiai coefficients of `freq`, in the same
      order. */
  ghost predicate IsOchiaiMatrix(data: seq<seq<string>>, kws: seq<string>, freq: seq<seq<nat>>,
                                 ochiai: seq<seq<real>>, sqrt: nat -> real) {
    |freq| == |kws| && |ochiai| == |kws| &&
    forall i :: 0 <= i < |kws| ==> (|freq[i]| == |kws| && |ochiai[i]| == |kws| &&
      forall j :: 0 <= j < |kws| ==>
        sqrt(Count(data, kws[i])) > 0.0 && sqrt(Count(data, kws[j])) > 0.0 &&
        ochiai[i][j] == Ochiai(freq[i][j], sqrt(Count(data, kws[i])), sqrt(Count(data, kws[j]))))
  }

  /** `generate_CoMatrix(dir_path, data, filter_num, filter_tags)` without
      the cosine matrices and the files: the sorted surviving tags, the
      co-occurrence matrix and the Ochiai matrix. `sqrt` stands for
      `math.sqrt`; all it needs is to be positive on positive counts. */
  method GenerateCoMatrix(data: seq<seq<string>>, filterNum: int, filterTags: seq<string>, sqrt: nat -> real)
    returns (kws: seq<string>, freq: seq<seq<nat>>, ochiai: seq<seq<real>>)
    requires forall n: nat :: n > 0 ==> sqrt(n) > 0.0
    ensures StrictlySorted(kws) && forall t :: t in kws <==> t in Survivors(data, filterNum, filterTags)
    ensures IsFrequencyMatrix(data, kws, freq)
    ensures IsOchiaiMatrix(data, kws, freq, ochiai, sqrt)
  {
    var counts := CountTags(data);
    var num := FilterByCount(counts, filterNum);
    var keys := num.Keys;
    if |filterTags| > 0 {
      keys := keys * set t | t in filterTags;
    }
    kws := SortTags(keys);
    assert forall t :: t in kws <==> t in Survivors(data, filterNum, filterTags);
    var pairs := CountPairs(data, kws);
    var zeroed := ZeroDiagonal(pairs);
    assert forall t :: t in kws ==> t in num && num[t] == Count(data, t) && num[t] > 0;
    freq, ochiai := BuildMatrices(kws, zeroed, num, sqrt);
    FrequencyFromCounts(data, kws, pairs, freq);
    OchiaiFromCounts(data, kws, num, freq, ochiai, sqrt);
  }

  /** The coefficients computed from the filtered counter are those of the
      tag counts. */
  lemma OchiaiFromCounts(data: seq<seq<string>>, kws: seq<string>, num: map<string, nat>,
                         freq: seq<seq<nat>>, ochiai: seq<seq<real>>, sqrt: nat -> real)
    requires forall t :: t in kws ==> t in num && num[t] == Count(data, t) && sqrt(num[t]) > 0.0
    requires |freq| == |kws| && |ochiai| == |kws|
    requires forall i :: 0 <= i < |kws| ==> |freq[i]| == |kws| && |ochiai[i]| == |kws|
    requires forall i, j :: 0 <= i < |kws| && 0 <= j < |kws| ==>
      ochiai[i][j] == Ochiai(freq[i][j], sqrt(num[kws[i]]), sqrt(num[kws[j]]))
    ensures IsOchiaiMatrix(data, kws, freq, ochiai, sqrt)
  {
  }

  /** The completed table with its diagonal zeroed is the frequency
      matrix. */
  lemma FrequencyFromCounts(data: seq<seq<string>>, kws: seq<string>, pairs: map<(string, string), nat>,
                            freq: seq<seq<nat>>)
    requires StrictlySorted(kws)
    requires forall a, b :: (a, b) in pairs <==> a in kws && b in kws && PairCount(data, a, b) > 0
    requires forall a, b :: (a, b) in pairs ==> pairs[(a, b)] == PairCount(data, a, b)
    requires |freq| == |kws| && forall i :: 0 <= i < |kws| ==> |freq[i]| == |kws|
    requires forall i, j :: 0 <= i < |kws| && 0 <= j < |kws| ==> freq[i][j] == Lookup(ZeroDiagonal(pairs), kws[i], kws[j])
    ensures IsFrequencyMatrix(data, kws, freq)
  {
    forall i, j | 0 <= i < |kws| && 0 <= j < |kws| && i != j
      ensures freq[i][j] == PairCount(data, kws[i], kws[j])
    {
      DistinctAt(kws, i, j);
    }
    forall i | 0 <= i < |kws| ensures freq[i][i] == 0 {
      assert freq[i][i] == Lookup(ZeroDiagonal(pairs), kws[i], kws[i]);
    }
  }

  lemma DistinctAt(s: seq<string>, i: int, j: int)
    requires StrictlySorted(s) && 0 <= i < |s| && 0 <= j < |s| && i != j
    ensures s[i] != s[j]
  {
    LessIrreflexive(s[i]);
  }

  /** The frequency matrix is symmetric with a zero diagonal. */
  lemma FrequencySymmetric(data: seq<seq<string>>, kws: seq<string>, freq: seq<seq<nat>>)
    requires IsFrequencyMatrix(data, kws, freq)
    ensures forall i, j :: 0 <= i < |kws| && 0 <= j < |kws| ==> freq[i][j] == freq[j][i]
    ensures forall i :: 0 <= i < |kws| ==> freq[i][i] == 0
  {
    forall i, j | 0 <= i < |kws| && 0 <= j < |kws| ensures freq[i][j] == freq[j][i] {
      PairCountSymmetric(data, kws[i], kws[j]);
    }
  }

  /** An Ochiai entry is zero exactly where the frequency entry is. */
  lemma OchiaiZeroes(data: seq<seq<string>>, kws: seq<string>, freq: seq<seq<nat>>,
                     ochiai: seq<seq<real>>, sqrt: nat -> real)
    requires IsOchiaiMatrix(data, kws, freq, ochiai, sqrt)
    ensures forall i, j :: 0 <= i < |kws| && 0 <= j < |kws| ==>
      ochiai[i][j] >= 0.0 && (ochiai[i][j] == 0.0 <==> freq[i][j] == 0)
  {
  }

  /** Every surviving tag occurs, at least `filterNum` times, and in the
      allow-list if there is one; its self-pair is counted, so it has a
      row. */
  lemma SurvivorsSpec(data: seq<seq<string>>, filterNum: int, filterTags: seq<string>, t: string)
    requires t in Survivors(data, filterNum, filterTags)
    ensures Count(data, t) >= 1 && Count(data, t) >= filterNum
    ensures |filterTags| > 0 ==> t in filterTags
    ensures PairCount(data, t, t) >= 1
  {
    SelfPairCount(data, t);
  }

  /** The commented example call: two tag-sets, `filter_num = 1`. */
  lemma WorkedExample(kws: seq<string>)
    requires var data := [["abc", "bcd", "cde"], ["abc", "cde", "def"]];
      StrictlySorted(kws) && forall t :: t in kws <==> t in Survivors(data, 1, [])
    ensures kws == ["abc", "bcd", "cde", "def"]
    ensures var data := [["abc", "bcd", "cde"], ["abc", "cde", "def"]];
      PairCount(data, "abc", "cde") == 2 && PairCount(data, "bcd", "def") == 0
  {
    var data := [["abc", "bcd", "cde"], ["abc", "cde", "def"]];
    ExampleTags();
    var u := ["abc", "bcd", "cde", "def"];
    forall t ensures t in kws <==> t in u {
      assert t in u ==> Count(data, t) >= 1;
    }
    ExampleSorted();
    SortedUnique(kws, u);
    ExamplePairs();
  }

  lemma ExampleTags()
    ensures Tags([["abc", "bcd", "cde"], ["abc", "cde", "def"]]) == ["abc", "bcd", "cde", "abc", "cde", "def"]
  {
    var data := [["abc", "bcd", "cde"], ["abc", "cde", "def"]];
    assert data[..1] == [["abc", "bcd", "cde"]];
    assert data[..1][..0] == [];
  }

  lemma ExampleSorted()
    ensures StrictlySorted(["abc", "bcd", "cde", "def"])
  {
  }

  lemma ExamplePairs()
    ensures var data := [["abc", "bcd", "cde"], ["abc", "cde", "def"]];
      PairCount(data, "abc", "cde") == 2 && PairCount(data, "bcd", "def") == 0
  {
    var data := [["abc", "bcd", "cde"], ["abc", "cde", "def"]];
    assert data[..1] == [["abc", "bcd", "cde"]];
    assert data[..1][..0] == [];
  }
}
