/** Python dictionaries as their items in insertion order, the counting of
    `collections.Counter`, and the helper `dict_sorted` that orders a dict
    by ascending key. */
module PyDict {
  /** The keys of a dict, in order. */
  function Keys<K, V>(d: seq<(K, V)>): (ks: seq<K>)
    ensures |ks| == |d| && forall i :: 0 <= i < |d| ==> ks[i] == d[i].0
  {
    if |d| == 0 then [] else [d[0].0] + Keys(d[1..])
  }

  /** The values of a dict, in order. */
  function Values<K, V>(d: seq<(K, V)>): seq<V> {
    seq(|d|, i requires 0 <= i < |d| => d[i].1)
  }

  /** A dict holds every key once. */
  ghost predicate DistinctKeys<K, V>(d: seq<(K, V)>) {
    forall i, j :: 0 <= i < j < |d| ==> d[i].0 != d[j].0
  }

  // ----- Counter -----

  /** `counter[k]`: the count of `k`, 0 when it is absent. */
  function CountOf<K(==)>(d: seq<(K, nat)>, k: K): nat {
    if |d| == 0 then 0 else if d[0].0 == k then d[0].1 else CountOf(d[1..], k)
  }

  /** `counter[x] += 1`: the entry of `x` goes up by one where it stands,
      or `(x, 1)` is appended. */
  function Bump<K(==)>(d: seq<(K, nat)>, x: K): seq<(K, nat)> {
    if |d| == 0 then [(x, 1)]
    else if d[0].0 == x then [(x, d[0].1 + 1)] + d[1..]
    else [d[0]] + Bump(d[1..], x)
  }

  /** `Counter(data)`: the counts of the items, keyed in order of first
      occurrence. */
  function Counter<K(==)>(data: seq<K>): seq<(K, nat)> {
    if |data| == 0 then [] else Bump(Counter(data[..|data| - 1]), data[|data| - 1])
  }

  /** The sum of the counts. */
  function TotalCount<K>(d: seq<(K, nat)>): nat {
    if |d| == 0 then 0 else d[0].1 + TotalCount(d[1..])
  }

  /** Bumping appends `x` to the keys when it is new and otherwise keeps
      them. */
  lemma {:induction false} BumpKeySeq<K>(d: seq<(K, nat)>, x: K)
    ensures Keys(Bump(d, x)) == if x in Keys(d) then Keys(d) else Keys(d) + [x]
  {
    if |d| > 0 && d[0].0 != x {
      BumpKeySeq(d[1..], x);
      var k := Keys(d[1..]);
      assert Keys(d) == [d[0].0] + k;
      assert Keys(Bump(d, x)) == [d[0].0] + Keys(Bump(d[1..], x));
      assert x in Keys(d) <==> x in k;
      assert [d[0].0] + (k + [x]) == ([d[0].0] + k) + [x];
    }
  }

  /** Bumping keeps the keys distinct. */
  lemma BumpDistinct<K>(d: seq<(K, nat)>, x: K)
    requires DistinctKeys(d)
    ensures DistinctKeys(Bump(d, x))
  {
    BumpKeySeq(d, x);
    var r, kd := Bump(d, x), Keys(d);
    forall i, j | 0 <= i < j < |r| ensures r[i].0 != r[j].0 {
      assert r[i].0 == Keys(r)[i] && r[j].0 == Keys(r)[j];
      if j == |kd| {
        assert Keys(r)[i] == kd[i];
      }
    }
  }

  /** Bumping raises the count of `x` alone. */
  lemma {:induction false} BumpCount<K>(d: seq<(K, nat)>, x: K, k: K)
    ensures CountOf(Bump(d, x), k) == CountOf(d, k) + (if k == x then 1 else 0)
  {
    if |d| > 0 && d[0].0 != x {
      BumpCount(d[1..], x, k);
      assert Bump(d, x)[1..] == Bump(d[1..], x);
    }
  }

  lemma {:induction false} BumpTotal<K>(d: seq<(K, nat)>, x: K)
    ensures TotalCount(Bump(d, x)) == TotalCount(d) + 1
  {
    if |d| > 0 && d[0].0 != x {
      BumpTotal(d[1..], x);
      assert Bump(d, x)[1..] == Bump(d[1..], x);
    }
  }

  /** The counter counts every occurrence: the count of `k` is its number
      of occurrences, its keys are the distinct items, and the counts sum
      to the length of `data`. */
  lemma {:induction false} CounterSpec<K>(data: seq<K>)
    ensures DistinctKeys(Counter(data))
    ensures forall k :: CountOf(Counter(data), k) == multiset(data)[k]
    ensures forall k :: k in Keys(Counter(data)) <==> k in data
    ensures TotalCount(Counter(data)) == |data|
  {
    if |data| > 0 {
      var init, x := data[..|data| - 1], data[|data| - 1];
      CounterSpec(init);
      assert data == init + [x];
      assert multiset(data) == multiset(init) + multiset{x};
      var c := Counter(init);
      assert Counter(data) == Bump(c, x);
      BumpKeySeq(c, x);
      BumpDistinct(c, x);
      BumpTotal(c, x);
      forall k ensures CountOf(Counter(data), k) == multiset(data)[k] {
        BumpCount(c, x, k);
      }
    }
  }

  /** The first occurrences in order: a later item adds a key only when it
      has not been seen. */
  lemma CounterKeysAppend<K>(data: seq<K>, x: K)
    ensures Keys(Counter(data + [x])) == if x in data then Keys(Counter(data)) else Keys(Counter(data)) + [x]
  {
    assert (data + [x])[..|data|] == data;
    CounterSpec(data);
    BumpKeySeq(Counter(data), x);
  }

  /** In a dict with distinct keys the count of a key is the value stored
      with it. */
  lemma {:induction false} CountAt<K>(d: seq<(K, nat)>, i: int)
    requires DistinctKeys(d) && 0 <= i < |d|
    ensures CountOf(d, d[i].0) == d[i].1
  {
    if i > 0 {
      CountAt(d[1..], i - 1);
    }
  }

  /** In a dict with distinct keys, `d[k] += 1` for a present key raises
      its entry where it stands. */
  lemma {:induction false} BumpAt<K>(d: seq<(K, nat)>, i: int)
    requires DistinctKeys(d) && 0 <= i < |d|
    ensures Bump(d, d[i].0) == d[i := (d[i].0, d[i].1 + 1)]
  {
    if i > 0 {
      BumpAt(d[1..], i - 1);
      assert d[0].0 != d[i].0;
      assert d[1..][i - 1] == d[i];
      assert [d[0]] + d[1..][i - 1 := (d[i].0, d[i].1 + 1)] == d[i := (d[i].0, d[i].1 + 1)];
    }
  }

  // ----- dict_sorted -----

  /** The keys of `d` never decrease. */
  ghost predicate KeysSorted<V>(d: seq<(real, V)>) {
    forall i, j :: 0 <= i < j < |d| ==> d[i].0 <= d[j].0
  }

  /** The keys of `d` strictly increase. */
  ghost predicate KeysAscending<V>(d: seq<(real, V)>) {
    forall i, j :: 0 <= i < j < |d| ==> d[i].0 < d[j].0
  }

  /** `e` inserted before the first entry of `d` with a key not below its
      own. */
  function InsertByKey<V>(e: (real, V), d: seq<(real, V)>): (r: seq<(real, V)>)
    requires KeysSorted(d)
    ensures KeysSorted(r) && |r| == |d| + 1
    ensures forall i :: 0 <= i < |r| ==> r[i] == e || r[i] in d
  {
    if d == [] || e.0 <= d[0].0 then [e] + d
    else [d[0]] + InsertByKey(e, d[1..])
  }

  lemma {:induction false} InsertByKeyPerm<V>(e: (real, V), d: seq<(real, V)>)
    requires KeysSorted(d)
    ensures multiset(InsertByKey(e, d)) == multiset(d) + multiset{e}
  {
    if d != [] && e.0 > d[0].0 {
      InsertByKeyPerm(e, d[1..]);
      assert d == [d[0]] + d[1..];
    }
  }

  lemma {:induction false} InsertByKeyKeys<V>(e: (real, V), d: seq<(real, V)>, k: real)
    requires KeysSorted(d)
    ensures k in Keys(InsertByKey(e, d)) <==> k == e.0 || k in Keys(d)
  {
    if d != [] && e.0 > d[0].0 {
      InsertByKeyKeys(e, d[1..], k);
    }
  }

  /** `dict_sorted(d)`: the items of `d` ordered by ascending key. */
  function DictSorted<V>(d: seq<(real, V)>): (r: seq<(real, V)>)
    ensures KeysSorted(r) && |r| == |d|
  {
    if d == [] then [] else InsertByKey(d[0], DictSorted(d[1..]))
  }

  /** Sorting only reorders the items. */
  lemma {:induction false} DictSortedPerm<V>(d: seq<(real, V)>)
    ensures multiset(DictSorted(d)) == multiset(d)
  {
    if d != [] {
      var t := DictSorted(d[1..]);
      DictSortedPerm(d[1..]);
      InsertByKeyPerm(d[0], t);
      assert DictSorted(d) == InsertByKey(d[0], t);
      assert d == [d[0]] + d[1..];
      assert multiset(d) == multiset{d[0]} + multiset(d[1..]);
    }
  }

  lemma {:induction false} DictSortedKeys<V>(d: seq<(real, V)>, k: real)
    ensures k in Keys(DictSorted(d)) <==> k in Keys(d)
  {
    if d != [] {
      DictSortedKeys(d[1..], k);
      InsertByKeyKeys(d[0], DictSorted(d[1..]), k);
    }
  }

  /** An entry whose key is new keeps the keys strictly ascending. */
  lemma {:induction false} InsertByKeyAscending<V>(e: (real, V), d: seq<(real, V)>)
    requires KeysAscending(d) && e.0 !in Keys(d)
    ensures KeysAscending(InsertByKey(e, d))
  {
    if d != [] && e.0 > d[0].0 {
      InsertByKeyAscending(e, d[1..]);
      AboveHead(d);
      var t := InsertByKey(e, d[1..]);
      assert forall j :: 0 <= j < |t| ==> d[0].0 < t[j].0;
      ConsAscending(d[0], t);
    }
  }

  lemma ConsAscending<V>(h: (real, V), t: seq<(real, V)>)
    requires KeysAscending(t) && forall j :: 0 <= j < |t| ==> h.0 < t[j].0
    ensures KeysAscending([h] + t)
  {
    var r := [h] + t;
    forall i, j | 0 <= i < j < |r| ensures r[i].0 < r[j].0 {
      if i > 0 {
        assert r[i] == t[i - 1];
      }
      assert r[j] == t[j - 1];
    }
  }

  /** In ascending items every later entry has a key above the first. */
  lemma AboveHead<V>(d: seq<(real, V)>)
    requires KeysAscending(d) && d != []
    ensures forall q :: q in d[1..] ==> d[0].0 < q.0
  {
    forall q | q in d[1..] ensures d[0].0 < q.0 {
      var m :| 0 <= m < |d[1..]| && d[1..][m] == q;
      assert d[m + 1] == q;
    }
  }

  /** A dict with distinct keys comes out strictly ascending. */
  lemma {:induction false} DictSortedAscending<V>(d: seq<(real, V)>)
    requires DistinctKeys(d)
    ensures KeysAscending(DictSorted(d))
  {
    if d != [] {
      DictSortedAscending(d[1..]);
      DictSortedKeys(d[1..], d[0].0);
      assert d[0].0 !in Keys(d[1..]);
      InsertByKeyAscending(d[0], DictSorted(d[1..]));
    }
  }

  /** Items already in ascending key order are left as they are. */
  lemma {:induction false} DictSortedOfSorted<V>(d: seq<(real, V)>)
    requires KeysAscending(d)
    ensures DictSorted(d) == d
  {
    if d != [] {
      DictSortedOfSorted(d[1..]);
    }
  }
}
