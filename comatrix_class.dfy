/** The class `CoMatrix` of gitopenlib/comatrix.py: co-occurrence counts
    of comma-separated names (authors or keywords) and the symmetric,
    optionally normalised matrix built from them. Both dicts are Python
    dicts in insertion order, modelled as `PyDict` item lists. */
module AuthorCoMatrix {
  import opened Wrappers
  import opened PyStr
  import opened PyDict

  // ----- pair keys -----

  /** The smaller of two names after the swap `if A > B: A, B = B, A`. */
  function Lo(a: string, b: string): string {
    if Less(b, a) then b else a
  }

  /** The larger of the two. */
  function Hi(a: string, b: string): string {
    if Less(b, a) then a else b
  }

  /** `A + "," + B` with the names in order. */
  function PairKey(a: string, b: string): string {
    Lo(a, b) + "," + Hi(a, b)
  }

  /** A pair and its reverse share one key, whose first name is at most
      the second. */
  lemma PairKeySymmetric(a: string, b: string)
    ensures PairKey(a, b) == PairKey(b, a)
    ensures !Less(Hi(a, b), Lo(a, b))
    ensures {Lo(a, b), Hi(a, b)} == {a, b}
  {
    if a != b {
      LessTotal(a, b);
      if Less(a, b) {
        LessAsymmetric(a, b);
      }
    } else {
      LessIrreflexive(a);
    }
  }

  /** Splitting a key on "," gives the two names back, since names never
      contain ",". */
  lemma PairKeySplit(a: string, b: string)
    requires ',' !in a && ',' !in b
    ensures Split(PairKey(a, b), ',') == [Lo(a, b), Hi(a, b)]
  {
    assert PairKey(a, b) == Lo(a, b) + [','] + Hi(a, b);
    SplitPair(Lo(a, b), Hi(a, b), ',');
  }

  /** Two pairs of names share a key exactly when they are the same two
      names. */
  lemma PairKeyInjective(a: string, b: string, c: string, d: string)
    requires ',' !in a && ',' !in b && ',' !in c && ',' !in d
    ensures PairKey(a, b) == PairKey(c, d) <==> (a == c && b == d) || (a == d && b == c)
  {
    PairKeySplit(a, b);
    PairKeySplit(c, d);
    PairKeySymmetric(a, b);
    PairKeySymmetric(c, d);
    if (a == c && b == d) || (a == d && b == c) {
      PairKeySymmetric(a, b);
    }
  }

  // ----- authors_stat -----

  /** The keys of the pairs `i < j` of one split string, in the order of
      the loops: `authors_co` loses its head before each inner loop, so
      the inner loop runs over the names after position `i`. */
  function KeyRow(xs: seq<string>, i: nat, m: nat): seq<string>
    requires i < |xs| && m <= |xs|
  {
    if m <= i + 1 then [] else KeyRow(xs, i, m - 1) + [PairKey(xs[i], xs[m - 1])]
  }

  /** The pair keys of the first `i` positions. */
  function PairKeysUpTo(xs: seq<string>, i: nat): seq<string>
    requires i <= |xs|
  {
    if i == 0 then [] else PairKeysUpTo(xs, i - 1) + KeyRow(xs, i - 1, |xs|)
  }

  function PairKeys(xs: seq<string>): seq<string> {
    PairKeysUpTo(xs, |xs|)
  }

  /** The names of every string, one after the other. */
  function AllNames(target: seq<string>): seq<string> {
    if |target| == 0 then [] else AllNames(target[..|target| - 1]) + Split(target[|target| - 1], ',')
  }

  /** The pair keys of every string, one after the other. */
  function KeyStream(target: seq<string>): seq<string> {
    if |target| == 0 then [] else KeyStream(target[..|target| - 1]) + PairKeys(Split(target[|target| - 1], ','))
  }

  lemma CounterSnoc<K>(s: seq<K>, x: K)
    ensures Counter(s + [x]) == Bump(Counter(s), x)
  {
    assert (s + [x])[..|s|] == s;
  }

  lemma Assoc<T>(a: seq<T>, b: seq<T>, c: seq<T>)
    ensures a + (b + c) == (a + b) + c
  {
  }

  /** A string of `n` names gives n·(n-1)/2 keys. */
  lemma {:induction false} PairKeysLength(xs: seq<string>, i: nat)
    requires i <= |xs|
    ensures 2 * |PairKeysUpTo(xs, i)| == i * (2 * |xs| - i - 1)
  {
    if i > 0 {
      PairKeysLength(xs, i - 1);
      KeyRowSpec(xs, i - 1, |xs|);
      PairKeysArith(|xs|, i);
    }
  }

  lemma PairKeysArith(n: int, i: int)
    ensures 2 * (n - i) + (i - 1) * (2 * n - i) == i * (2 * n - i - 1)
  {
  }

  /** The keys are those of the position pairs `p < q` with `p < i`. */
  lemma {:induction false} PairKeysMembers(xs: seq<string>, i: nat)
    requires i <= |xs|
    ensures forall k :: k in PairKeysUpTo(xs, i) <==>
      exists p, q :: 0 <= p < i && p < q < |xs| && k == PairKey(xs[p], xs[q])
  {
    if i > 0 {
      var j := i - 1;
      PairKeysMembers(xs, j);
      KeyRowSpec(xs, j, |xs|);
      assert PairKeysUpTo(xs, i) == PairKeysUpTo(xs, j) + KeyRow(xs, j, |xs|);
      forall k | k in PairKeysUpTo(xs, i)
        ensures exists p, q :: 0 <= p < i && p < q < |xs| && k == PairKey(xs[p], xs[q])
      {
        if k in PairKeysUpTo(xs, j) {
          var p, q :| 0 <= p < j && p < q < |xs| && k == PairKey(xs[p], xs[q]);
          assert p < i;
        } else {
          var q :| j < q < |xs| && k == PairKey(xs[j], xs[q]);
          assert j < i;
        }
      }
      forall k | exists p, q :: 0 <= p < i && p < q < |xs| && k == PairKey(xs[p], xs[q])
        ensures k in PairKeysUpTo(xs, i)
      {
        var p, q :| 0 <= p < i && p < q < |xs| && k == PairKey(xs[p], xs[q]);
        PairKeysStep(xs, j, p, q);
      }
    }
  }

  lemma PairKeysStep(xs: seq<string>, j: nat, p: nat, q: nat)
    requires j < |xs| && p <= j && p < q < |xs|
    requires forall k :: k in PairKeysUpTo(xs, j) <==>
      exists p', q' :: 0 <= p' < j && p' < q' < |xs| && k == PairKey(xs[p'], xs[q'])
    requires forall k :: k in KeyRow(xs, j, |xs|) <==> exists q' :: j < q' < |xs| && k == PairKey(xs[j], xs[q'])
    ensures PairKey(xs[p], xs[q]) in PairKeysUpTo(xs, j + 1)
  {
    var k := PairKey(xs[p], xs[q]);
    if p < j {
      assert k in PairKeysUpTo(xs, j);
    } else {
      assert k in KeyRow(xs, j, |xs|);
    }
  }

  lemma {:induction false} KeyRowSpec(xs: seq<string>, i: nat, m: nat)
    requires i < |xs| && m <= |xs|
    ensures |KeyRow(xs, i, m)| == if m <= i + 1 then 0 else m - i - 1
    ensures forall k :: k in KeyRow(xs, i, m) <==> exists q :: i < q < m && k == PairKey(xs[i], xs[q])
  {
    if m > i + 1 {
      KeyRowSpec(xs, i, m - 1);
      var row, k := KeyRow(xs, i, m - 1), PairKey(xs[i], xs[m - 1]);
      assert KeyRow(xs, i, m) == row + [k];
      forall k' ensures k' in row + [k] <==> k' in row || k' == k {
      }
    }
  }

  // ----- generate_matrix -----

  /** `au_group[key]**2 / (Fi * Fj)` when normalising, the count itself
      otherwise. */
  function EntryValue(value: nat, fi: nat, fj: nat, normal: bool): real
    requires !normal || (fi != 0 && fj != 0)
  {
    if normal then (value * value) as real / (fi * fj) as real else value as real
  }

  /** What one entry of `au_group` raises: `IndexError` for a key without
      ",", `KeyError` for a name missing from `au_dict`, and
      `ZeroDivisionError` for a name counted 0 when normalising. */
  function EntryError(e: (string, nat), dict: seq<(string, nat)>, normal: bool): Option<PyError> {
    var parts := Split(e.0, ',');
    if |parts| < 2 then Some(IndexOutOfRange)
    else if parts[0] !in Keys(dict) || parts[1] !in Keys(dict) then Some(KeyMissing)
    else if normal && (CountOf(dict, parts[0]) == 0 || CountOf(dict, parts[1]) == 0) then Some(ZeroDivision)
    else None
  }

  /** The value an entry that does not raise writes. */
  function KeyedValue(e: (string, nat), dict: seq<(string, nat)>, normal: bool): real
    requires EntryError(e, dict, normal) == None
  {
    var parts := Split(e.0, ',');
    EntryValue(e.1, CountOf(dict, parts[0]), CountOf(dict, parts[1]), normal)
  }

  /** The first error raised while reading the entries in order. */
  function GroupError(group: seq<(string, nat)>, dict: seq<(string, nat)>, normal: bool): Option<PyError> {
    if |group| == 0 then None
    else match GroupError(group[..|group| - 1], dict, normal)
      case Some(e) => Some(e)
      case None => EntryError(group[|group| - 1], dict, normal)
  }

  /** The cell at row `a`, column `b` once the entries are written: 1 on the
      diagonal and 0 elsewhere to begin with, and each entry `"A,B"` sets
      both `(A, B)` and `(B, A)`, a later entry overriding an earlier one. */
  function Written(group: seq<(string, nat)>, dict: seq<(string, nat)>, normal: bool, a: string, b: string): real
    requires GroupError(group, dict, normal) == None
  {
    if |group| == 0 then (if a == b then 1.0 else 0.0)
    else
      var e := group[|group| - 1];
      var parts := Split(e.0, ',');
      if (a == parts[0] && b == parts[1]) || (a == parts[1] && b == parts[0])
      then KeyedValue(e, dict, normal)
      else Written(group[..|group| - 1], dict, normal, a, b)
  }

  /** The position of `x` in `s` (the row or column of a label). */
  function IndexOf<T(==)>(s: seq<T>, x: T): (r: Option<nat>)
    ensures r.Some? ==> r.value < |s| && s[r.value] == x
    ensures r.None? <==> x !in s
  {
    if |s| == 0 then None
    else if s[0] == x then Some(0)
    else match IndexOf(s[1..], x)
      case None => None
      case Some(i) => Some(i + 1)
  }

  /** Once an entry has raised, the later entries do not matter. */
  lemma {:induction false} GroupErrorPersists(group: seq<(string, nat)>, dict: seq<(string, nat)>, normal: bool, k: nat)
    requires k <= |group| && GroupError(group[..k], dict, normal).Some?
    ensures GroupError(group, dict, normal) == GroupError(group[..k], dict, normal)
  {
    if k < |group| {
      var init := group[..|group| - 1];
      assert init[..k] == group[..k];
      GroupErrorPersists(init, dict, normal, k);
    } else {
      assert group[..k] == group;
    }
  }

  lemma GroupErrorSnoc(group: seq<(string, nat)>, dict: seq<(string, nat)>, normal: bool, k: nat)
    requires k < |group|
    ensures GroupError(group[..k + 1], dict, normal) ==
      match GroupError(group[..k], dict, normal) case Some(e) => Some(e) case None => EntryError(group[k], dict, normal)
  {
    assert group[..k + 1][..k] == group[..k];
  }

  lemma WrittenSnoc(group: seq<(string, nat)>, dict: seq<(string, nat)>, normal: bool, k: nat, a: string, b: string)
    requires k < |group| && GroupError(group[..k + 1], dict, normal) == None
    ensures GroupError(group[..k], dict, normal) == None && EntryError(group[k], dict, normal) == None
    ensures var parts := Split(group[k].0, ',');
      Written(group[..k + 1], dict, normal, a, b) ==
        if (a == parts[0] && b == parts[1]) || (a == parts[1] && b == parts[0])
        then KeyedValue(group[k], dict, normal)
        else Written(group[..k], dict, normal, a, b)
  {
    assert group[..k + 1][..k] == group[..k];
  }

  /** `matrix.loc[A, B] = E` and `matrix.loc[B, A] = E`. */
  method WriteCells(m: array2<real>, ia: nat, ib: nat, e: real)
    requires ia < m.Length0 && ib < m.Length1 && ib < m.Length0 && ia < m.Length1
    modifies m
    ensures forall i, j :: 0 <= i < m.Length0 && 0 <= j < m.Length1 ==>
      m[i, j] == if (i == ia && j == ib) || (i == ib && j == ia) then e else old(m[i, j])
  {
    m[ia, ib] := e;
    m[ib, ia] := e;
  }

  // ----- the matrix of authors_stat's output -----

  /** `write` sets both cells of a pair, so the matrix is symmetric. */
  lemma {:induction false} WrittenSymmetric(group: seq<(string, nat)>, dict: seq<(string, nat)>, normal: bool, a: string, b: string)
    requires GroupError(group, dict, normal) == None
    ensures Written(group, dict, normal, a, b) == Written(group, dict, normal, b, a)
  {
    if |group| > 0 {
      WrittenSymmetric(group[..|group| - 1], dict, normal, a, b);
    }
  }

  /** A key that names the pair it splits into. */
  predicate IsPairKey(k: string) {
    var p := Split(k, ',');
    |p| == 2 && k == PairKey(p[0], p[1])
  }

  /** An entry is written into the cell of `(a, b)` exactly when its key is
      the key of `a` and `b`. */
  lemma MatchIffKey(k: string, a: string, b: string)
    requires IsPairKey(k) && ',' !in a && ',' !in b
    ensures var p := Split(k, ',');
      ((a == p[0] && b == p[1]) || (a == p[1] && b == p[0])) <==> k == PairKey(a, b)
  {
    var p := Split(k, ',');
    SplitPieces(k, ',');
    assert p[0] == Split(k, ',')[0] && p[1] == Split(k, ',')[1];
    PairKeySymmetric(p[0], p[1]);
    if k == PairKey(a, b) {
      PairKeySplit(a, b);
    }
  }

  lemma {:induction false} GroupErrorNone(group: seq<(string, nat)>, dict: seq<(string, nat)>, normal: bool)
    requires NoEntryError(group, dict, normal)
    ensures GroupError(group, dict, normal) == None
  {
    if |group| > 0 {
      GroupErrorNone(group[..|group| - 1], dict, normal);
    }
  }

  /** Every entry reads without raising. */
  predicate NoEntryError(group: seq<(string, nat)>, dict: seq<(string, nat)>, normal: bool) {
    forall i :: 0 <= i < |group| ==> EntryError(group[i], dict, normal) == None
  }

  /** Every key names its pair. */
  predicate AllPairKeys(group: seq<(string, nat)>) {
    forall i :: 0 <= i < |group| ==> IsPairKey(group[i].0)
  }

  lemma AllPairKeysInit(group: seq<(string, nat)>)
    requires |group| > 0 && AllPairKeys(group)
    ensures AllPairKeys(group[..|group| - 1]) && IsPairKey(group[|group| - 1].0)
  {
    var init := group[..|group| - 1];
    assert forall i :: 0 <= i < |init| ==> init[i] == group[i];
  }

  /** A pair no entry is keyed by keeps the identity. */
  lemma {:induction false} WrittenAbsent(group: seq<(string, nat)>, dict: seq<(string, nat)>, normal: bool, a: string, b: string)
    requires GroupError(group, dict, normal) == None && AllPairKeys(group) && ',' !in a && ',' !in b
    requires PairKey(a, b) !in Keys(group)
    ensures Written(group, dict, normal, a, b) == if a == b then 1.0 else 0.0
  {
    if |group| > 0 {
      var init := group[..|group| - 1];
      AllPairKeysInit(group);
      KeysInitAbsent(group, PairKey(a, b));
      WrittenLast(group, dict, normal, a, b);
      WrittenAbsent(init, dict, normal, a, b);
    }
  }

  /** The entry keyed by the pair decides its cell. */
  lemma {:induction false} WrittenPresent(group: seq<(string, nat)>, dict: seq<(string, nat)>, normal: bool, a: string, b: string, i: nat)
    requires GroupError(group, dict, normal) == None && AllPairKeys(group) && DistinctKeys(group)
    requires ',' !in a && ',' !in b && i < |group| && group[i].0 == PairKey(a, b)
    ensures EntryError(group[i], dict, normal) == None
    ensures Written(group, dict, normal, a, b) == KeyedValue(group[i], dict, normal)
  {
    var init := group[..|group| - 1];
    AllPairKeysInit(group);
    WrittenLast(group, dict, normal, a, b);
    if i < |group| - 1 {
      assert init[i] == group[i];
      assert DistinctKeys(init);
      WrittenPresent(init, dict, normal, a, b, i);
    }
  }

  /** The last entry decides the cell of its own pair and leaves the others. */
  lemma WrittenLast(group: seq<(string, nat)>, dict: seq<(string, nat)>, normal: bool, a: string, b: string)
    requires |group| > 0 && IsPairKey(group[|group| - 1].0) && ',' !in a && ',' !in b
    requires GroupError(group, dict, normal) == None
    ensures GroupError(group[..|group| - 1], dict, normal) == None
    ensures EntryError(group[|group| - 1], dict, normal) == None
    ensures Written(group, dict, normal, a, b) ==
      if group[|group| - 1].0 == PairKey(a, b) then KeyedValue(group[|group| - 1], dict, normal)
      else Written(group[..|group| - 1], dict, normal, a, b)
  {
    MatchIffKey(group[|group| - 1].0, a, b);
  }

  /** A key absent from all entries is absent from the earlier ones and is
      not the last one. */
  lemma KeysInitAbsent<V>(d: seq<(string, V)>, k: string)
    requires |d| > 0 && k !in Keys(d)
    ensures k !in Keys(d[..|d| - 1]) && d[|d| - 1].0 != k
  {
    assert Keys(d)[|d| - 1] == d[|d| - 1].0;
    forall i | 0 <= i < |d| - 1 ensures Keys(d[..|d| - 1])[i] == Keys(d)[i] {
    }
  }

  /** Names never contain ",". */
  lemma {:induction false} NamesNoComma(target: seq<string>)
    ensures forall x :: x in AllNames(target) ==> ',' !in x
  {
    if |target| > 0 {
      NamesNoComma(target[..|target| - 1]);
      SplitPieces(target[|target| - 1], ',');
    }
  }

  /** A key that names its pair, both names among `names`. */
  predicate KeyOver(k: string, names: seq<string>) {
    IsPairKey(k) && Split(k, ',')[0] in names && Split(k, ',')[1] in names
  }

  lemma PairKeyOver(a: string, b: string, names: seq<string>)
    requires ',' !in a && ',' !in b && a in names && b in names
    ensures KeyOver(PairKey(a, b), names)
  {
    PairKeySplit(a, b);
    PairKeySymmetric(a, b);
  }

  /** Every key `authors_stat` counts is the key of two names it counts. */
  lemma {:induction false} KeyStreamOver(target: seq<string>)
    ensures forall k :: k in KeyStream(target) ==> KeyOver(k, AllNames(target))
  {
    if |target| > 0 {
      var init, xs := target[..|target| - 1], Split(target[|target| - 1], ',');
      KeyStreamOver(init);
      NamesNoComma(target);
      PairKeysMembers(xs, |xs|);
      forall k | k in KeyStream(target) ensures KeyOver(k, AllNames(target)) {
        if k in KeyStream(init) {
          assert KeyOver(k, AllNames(init));
        } else {
          assert k in PairKeys(xs);
          var p, q :| 0 <= p < |xs| && p < q < |xs| && k == PairKey(xs[p], xs[q]);
          PairKeyOver(xs[p], xs[q], AllNames(target));
        }
      }
    }
  }

  /** The cell of two names in the matrix `run` builds: the number `c` of
      position pairs at which they occur together, squared and divided by
      the product of their counts `fa` and `fb` when normalising; a pair
      that never occurs together keeps the identity, so the diagonal is 1
      unless a name repeats within one string. */
  function CellValue(target: seq<string>, normal: bool, a: string, b: string): real
    requires a in AllNames(target) && b in AllNames(target)
  {
    var c := multiset(KeyStream(target))[PairKey(a, b)];
    var fa, fb := multiset(AllNames(target))[a], multiset(AllNames(target))[b];
    if c == 0 then (if a == b then 1.0 else 0.0) else EntryValue(c, fa, fb, normal)
  }

  /** `generate_matrix` of the output of `authors_stat` raises nothing and
      its cells are the `CellValue`s. */
  lemma StatMatrix(target: seq<string>, normal: bool, a: string, b: string)
    requires a in AllNames(target) && b in AllNames(target)
    ensures var group, dict := Counter(KeyStream(target)), Counter(AllNames(target));
      GroupError(group, dict, normal) == None &&
      Written(group, dict, normal, a, b) == CellValue(target, normal, a, b)
  {
    var names, keys := AllNames(target), KeyStream(target);
    var group, dict := Counter(keys), Counter(names);
    StatEntries(target, normal);
    GroupErrorNone(group, dict, normal);
    NamesNoComma(target);
    if PairKey(a, b) in keys {
      StatPresent(target, normal, a, b);
    } else {
      CounterSpec(keys);
      assert multiset(keys)[PairKey(a, b)] == 0;
      WrittenAbsent(group, dict, normal, a, b);
    }
  }

  /** A pair that occurs together gets the value of its entry. */
  lemma StatPresent(target: seq<string>, normal: bool, a: string, b: string)
    requires a in AllNames(target) && b in AllNames(target) && PairKey(a, b) in KeyStream(target)
    requires ',' !in a && ',' !in b
    requires var group, dict := Counter(KeyStream(target)), Counter(AllNames(target));
      GroupError(group, dict, normal) == None && AllPairKeys(group) && DistinctKeys(group)
    ensures Written(Counter(KeyStream(target)), Counter(AllNames(target)), normal, a, b) ==
      EntryValue(multiset(KeyStream(target))[PairKey(a, b)], multiset(AllNames(target))[a], multiset(AllNames(target))[b], normal)
  {
    var names, keys := AllNames(target), KeyStream(target);
    var group, dict := Counter(keys), Counter(names);
    CounterSpec(keys);
    CounterSpec(names);
    var key := PairKey(a, b);
    var i :| 0 <= i < |group| && Keys(group)[i] == key;
    CountAt(group, i);
    WrittenPresent(group, dict, normal, a, b, i);
    KeyedPair(dict, normal, a, b, group[i]);
  }

  /** The value the entry of a pair writes, in terms of the counts. */
  lemma KeyedPair(dict: seq<(string, nat)>, normal: bool, a: string, b: string, e: (string, nat))
    requires ',' !in a && ',' !in b && e.0 == PairKey(a, b) && EntryError(e, dict, normal) == None
    ensures (!normal || (CountOf(dict, a) != 0 && CountOf(dict, b) != 0)) &&
      KeyedValue(e, dict, normal) == EntryValue(e.1, CountOf(dict, a), CountOf(dict, b), normal)
  {
    PairKeySplit(a, b);
    PairKeySymmetric(a, b);
    assert KeyedValue(e, dict, normal) == EntryValue(e.1, CountOf(dict, Lo(a, b)), CountOf(dict, Hi(a, b)), normal);
    EntryValueSwap(e.1, CountOf(dict, a), CountOf(dict, b), normal);
  }

  /** No entry `authors_stat` counts makes `generate_matrix` raise, each
      names its pair, and none repeats. */
  lemma StatEntries(target: seq<string>, normal: bool)
    ensures NoEntryError(Counter(KeyStream(target)), Counter(AllNames(target)), normal)
    ensures AllPairKeys(Counter(KeyStream(target)))
    ensures DistinctKeys(Counter(KeyStream(target)))
  {
    var names, keys := AllNames(target), KeyStream(target);
    var group, dict := Counter(keys), Counter(names);
    CounterSpec(keys);
    CounterSpec(names);
    KeyStreamOver(target);
    forall i | 0 <= i < |group|
      ensures EntryError(group[i], dict, normal) == None && IsPairKey(group[i].0)
    {
      assert Keys(group)[i] == group[i].0;
      assert KeyOver(group[i].0, names);
    }
  }

  /** The shape of the module's own example `"123,123,456"`: a name that
      repeats within one string makes the key `x,x`, which overwrites the
      diagonal cell of `x` with 1 / (2 * 2); `x` and `y` occur together at
      two position pairs; the diagonal cell of `y` keeps the identity. */
  lemma RepeatedNameExample(x: string, y: string)
    requires ',' !in x && ',' !in y && x != y
    ensures var target := [Join([x, x, y], ',')];
      x in AllNames(target) && y in AllNames(target) &&
      CellValue(target, true, x, x) == 0.25 &&
      CellValue(target, true, x, y) == 2.0 &&
      CellValue(target, true, y, y) == 1.0
  {
    var target := [Join([x, x, y], ',')];
    var xs := [x, x, y];
    RepeatedNameStream(x, y);
    PairKeyInjective(x, x, x, y);
    PairKeyInjective(y, y, x, x);
    PairKeyInjective(y, y, x, y);
    assert multiset(xs)[x] == 2 && multiset(xs)[y] == 1;
    var ks := multiset(KeyStream(target));
    assert ks[PairKey(x, x)] == 1 && ks[PairKey(x, y)] == 2 && ks[PairKey(y, y)] == 0;
    assert CellValue(target, true, x, x) == EntryValue(1, 2, 2, true);
    assert CellValue(target, true, x, y) == EntryValue(2, 2, 1, true);
    RepeatedNameValues();
  }

  lemma RepeatedNameValues()
    ensures EntryValue(1, 2, 2, true) == 0.25 && EntryValue(2, 2, 1, true) == 2.0
  {
  }

  lemma RepeatedNameStream(x: string, y: string)
    requires ',' !in x && ',' !in y
    ensures var target := [Join([x, x, y], ',')];
      AllNames(target) == [x, x, y] &&
      KeyStream(target) == [PairKey(x, x), PairKey(x, y), PairKey(x, y)]
  {
    var target := [Join([x, x, y], ',')];
    JoinSplit([x, x, y], ',');
    assert target[..0] == [];
    RepeatedNameKeys(x, y);
  }

  lemma RepeatedNameKeys(x: string, y: string)
    ensures PairKeys([x, x, y]) == [PairKey(x, x), PairKey(x, y), PairKey(x, y)]
  {
    var xs := [x, x, y];
    assert KeyRow(xs, 0, 3) == [PairKey(x, x), PairKey(x, y)] by {
      assert KeyRow(xs, 0, 1) == [];
      assert KeyRow(xs, 0, 2) == [PairKey(x, x)];
    }
    assert KeyRow(xs, 1, 3) == [PairKey(x, y)] by {
      assert KeyRow(xs, 1, 2) == [];
    }
    assert KeyRow(xs, 2, 3) == [];
    assert PairKeysUpTo(xs, 1) == KeyRow(xs, 0, 3);
    assert PairKeysUpTo(xs, 2) == KeyRow(xs, 0, 3) + KeyRow(xs, 1, 3);
  }

  /** `Fi * Fj` does not depend on which name comes first. */
  lemma EntryValueSwap(value: nat, fi: nat, fj: nat, normal: bool)
    requires !normal || (fi != 0 && fj != 0)
    ensures EntryValue(value, fi, fj, normal) == EntryValue(value, fj, fi, normal)
  {
    assert fi * fj == fj * fi;
  }

  lemma ZeroProduct(x: nat, y: nat)
    ensures x * y == 0 <==> x == 0 || y == 0
  {
    if x != 0 && y != 0 {
      assert x * y >= y;
    }
  }

  /** One pass of the loop of `generate_matrix`: the entry `(key, value)`
      either raises, leaving the matrix as it was, or writes its value into
      the two cells of its names. */
  method ApplyEntry(m: array2<real>, entry: (string, nat), dict: seq<(string, nat)>, normal: bool)
    returns (err: Option<PyError>)
    requires DistinctKeys(dict) && m.Length0 == |dict| && m.Length1 == |dict|
    modifies m
    ensures err == EntryError(entry, dict, normal)
    ensures err.Some? ==> forall i, j :: 0 <= i < m.Length0 && 0 <= j < m.Length1 ==> m[i, j] == old(m[i, j])
    ensures err.None? ==> var parts := Split(entry.0, ',');
      forall i, j :: 0 <= i < |dict| && 0 <= j < |dict| ==>
        m[i, j] == if (dict[i].0 == parts[0] && dict[j].0 == parts[1]) || (dict[i].0 == parts[1] && dict[j].0 == parts[0])
          then KeyedValue(entry, dict, normal)
          else old(m[i, j])
  {
    var labels := Keys(dict);
    var key, value := entry.0, entry.1;
    var parts := Split(key, ',');
    if |parts| < 2 {
      return Some(IndexOutOfRange);
    }
    var a, b := parts[0], parts[1];
    var ia, ib := IndexOf(labels, a), IndexOf(labels, b);
    if ia.None? || ib.None? {
      return Some(KeyMissing);
    }
    var fi, fj := dict[ia.value].1, dict[ib.value].1;
    CountAt(dict, ia.value);
    CountAt(dict, ib.value);
    var e: real;
    if normal {
      ZeroProduct(fi, fj);
      if fi * fj == 0 {
        return Some(ZeroDivision);
      }
      e := (value * value) as real / (fi * fj) as real;
    } else {
      e := value as real;
    }
    WriteCells(m, ia.value, ib.value, e);
    return None;
  }

  /** What one pass of the loop over the names of a string adds. */
  lemma StatStep(names: seq<string>, keys: seq<string>, authors: seq<string>, i: nat)
    requires i < |authors|
    ensures Counter(names + authors[..i + 1]) == Bump(Counter(names + authors[..i]), authors[i])
    ensures keys + PairKeysUpTo(authors, i + 1) == (keys + PairKeysUpTo(authors, i)) + KeyRow(authors, i, |authors|)
  {
    NamesStep(names, authors, i);
    Assoc(keys, PairKeysUpTo(authors, i), KeyRow(authors, i, |authors|));
  }

  lemma NamesStep(names: seq<string>, authors: seq<string>, i: nat)
    requires i < |authors|
    ensures Counter(names + authors[..i + 1]) == Bump(Counter(names + authors[..i]), authors[i])
  {
    CounterSnoc(names + authors[..i], authors[i]);
    assert authors[..i + 1] == authors[..i] + [authors[i]];
    Assoc(names, authors[..i], [authors[i]]);
  }

  /** What one pass of the inner loop adds. */
  lemma RowStep(keys: seq<string>, authors: seq<string>, i: nat, j: nat)
    requires i < j < |authors|
    ensures Counter(keys + KeyRow(authors, i, j + 1)) == Bump(Counter(keys + KeyRow(authors, i, j)), PairKey(authors[i], authors[j]))
  {
    var k := PairKey(authors[i], authors[j]);
    assert KeyRow(authors, i, j + 1) == KeyRow(authors, i, j) + [k];
    Assoc(keys, KeyRow(authors, i, j), [k]);
    CounterSnoc(keys + KeyRow(authors, i, j), k);
  }

  /** The inner loop starts with no keys of its own. */
  lemma RowStart(keys: seq<string>, authors: seq<string>, i: nat)
    requires i < |authors|
    ensures Counter(keys + KeyRow(authors, i, i + 1)) == Counter(keys)
  {
    assert keys + KeyRow(authors, i, i + 1) == keys;
  }

  class CoMatrix {
    var target: seq<string>
    var normal: bool

    /** `CoMatrix(target, normal)`. */
    constructor (target: seq<string>, normal: bool)
      ensures this.target == target && this.normal == normal
    {
      this.target := target;
      this.normal := normal;
    }

    /** `authors_stat(target)`: `au_dict` counts every name in order of
        first appearance and `au_group` counts the key of every position
        pair `i < j` of every string. */
    method AuthorsStat(target: seq<string>) returns (auGroup: seq<(string, nat)>, auDict: seq<(string, nat)>)
      ensures auDict == Counter(AllNames(target))
      ensures auGroup == Counter(KeyStream(target))
    {
      auGroup, auDict := [], [];
      var k := 0;
      while k < |target|
        invariant 0 <= k <= |target|
        invariant auDict == Counter(AllNames(target[..k]))
        invariant auGroup == Counter(KeyStream(target[..k]))
      {
        auGroup, auDict := StatOne(target[k], auGroup, auDict, AllNames(target[..k]), KeyStream(target[..k]));
        assert target[..k + 1][..k] == target[..k];
        k := k + 1;
      }
      assert target[..|target|] == target;
    }

    /** The loop body for one string of `target`. */
    method StatOne(s: string, group0: seq<(string, nat)>, dict0: seq<(string, nat)>,
                   ghost names: seq<string>, ghost keys: seq<string>)
      returns (auGroup: seq<(string, nat)>, auDict: seq<(string, nat)>)
      requires dict0 == Counter(names) && group0 == Counter(keys)
      ensures auDict == Counter(names + Split(s, ','))
      ensures auGroup == Counter(keys + PairKeys(Split(s, ',')))
    {
      var authors := Split(s, ',');
      auGroup, auDict := group0, dict0;
      var i := 0;
      assert names + authors[..0] == names;
      assert keys + PairKeysUpTo(authors, 0) == keys;
      while i < |authors|
        invariant 0 <= i <= |authors|
        invariant auDict == Counter(names + authors[..i])
        invariant auGroup == Counter(keys + PairKeysUpTo(authors, i))
      {
        var au := authors[i];
        StatStep(names, keys, authors, i);
        auDict := Bump(auDict, au);
        auGroup := PairLoop(authors, i, auGroup, keys + PairKeysUpTo(authors, i));
        i := i + 1;
      }
      assert authors[..|authors|] == authors;
    }

    /** `A, B = au, au_c`, swapped when `A > B`, joined by ",". */
    method CoKey(au: string, auC: string) returns (coAu: string)
      ensures coAu == PairKey(au, auC)
    {
      var a, b := au, auC;
      if Less(b, a) {
        a, b := b, a;
      }
      coAu := a + "," + b;
    }

    /** The inner loop: the pairs of `authors[i]` with the names after it. */
    method PairLoop(authors: seq<string>, i: nat, group0: seq<(string, nat)>, ghost keys: seq<string>)
      returns (auGroup: seq<(string, nat)>)
      requires i < |authors| && group0 == Counter(keys)
      ensures auGroup == Counter(keys + KeyRow(authors, i, |authors|))
    {
      auGroup := group0;
      var au := authors[i];
      var j := i + 1;
      RowStart(keys, authors, i);
      while j < |authors|
        invariant i + 1 <= j <= |authors|
        invariant auGroup == Counter(keys + KeyRow(authors, i, j))
      {
        var coAu := CoKey(au, authors[j]);
        RowStep(keys, authors, i, j);
        auGroup := Bump(auGroup, coAu);
        j := j + 1;
      }
      assert j == |authors|;
    }

    /** `generate_matrix(au_group, au_dict)`: a matrix with a row and a
        column per name of `au_dict`, in its order, holding the written
        cells, or the error the first bad entry raises. */
    method GenerateMatrix(auGroup: seq<(string, nat)>, auDict: seq<(string, nat)>) returns (r: Result<array2<real>>)
      requires DistinctKeys(auDict)
      ensures r.Err? <==> GroupError(auGroup, auDict, normal).Some?
      ensures r.Err? ==> r.error == GroupError(auGroup, auDict, normal).value
      ensures r.Ok? ==> fresh(r.value) && r.value.Length0 == |auDict| && r.value.Length1 == |auDict|
      ensures r.Ok? ==> GroupError(auGroup, auDict, normal) == None
      ensures r.Ok? ==> forall i, j :: 0 <= i < |auDict| && 0 <= j < |auDict| ==>
        r.value[i, j] == Written(auGroup, auDict, normal, auDict[i].0, auDict[j].0)
    {
      var labels := Keys(auDict);
      var n := |auDict|;
      var matrix := new real[n, n]((i, j) => if i == j then 1.0 else 0.0);
      var k := 0;
      while k < |auGroup|
        invariant 0 <= k <= |auGroup|
        invariant GroupError(auGroup[..k], auDict, normal) == None
        invariant forall i, j :: 0 <= i < n && 0 <= j < n ==>
          matrix[i, j] == Written(auGroup[..k], auDict, normal, labels[i], labels[j])
      {
        GroupErrorSnoc(auGroup, auDict, normal, k);
        var err := ApplyEntry(matrix, auGroup[k], auDict, normal);
        if err.Some? {
          GroupErrorPersists(auGroup, auDict, normal, k + 1);
          return Err(err.value);
        }
        forall i, j | 0 <= i < n && 0 <= j < n
          ensures matrix[i, j] == Written(auGroup[..k + 1], auDict, normal, labels[i], labels[j])
        {
          WrittenSnoc(auGroup, auDict, normal, k, labels[i], labels[j]);
        }
        k := k + 1;
      }
      assert auGroup[..|auGroup|] == auGroup;
      return Ok(matrix);
    }

    /** `run` without writing the CSV and TSV files: the matrix of the
        names of `target`, in order of first appearance, holding their
        `CellValue`s. */
    method Run() returns (labels: seq<string>, matrix: array2<real>)
      ensures labels == Keys(Counter(AllNames(target)))
      ensures forall x :: x in labels <==> x in AllNames(target)
      ensures fresh(matrix) && matrix.Length0 == |labels| && matrix.Length1 == |labels|
      ensures forall i, j :: 0 <= i < |labels| && 0 <= j < |labels| ==>
        labels[i] in AllNames(target) && labels[j] in AllNames(target) &&
        matrix[i, j] == CellValue(target, normal, labels[i], labels[j])
    {
      var auGroup, auDict := AuthorsStat(target);
      CounterSpec(AllNames(target));
      StatEntries(target, normal);
      GroupErrorNone(auGroup, auDict, normal);
      var r := GenerateMatrix(auGroup, auDict);
      labels := Keys(auDict);
      matrix := r.value;
      forall i, j | 0 <= i < |labels| && 0 <= j < |labels|
        ensures matrix[i, j] == CellValue(target, normal, labels[i], labels[j])
      {
        StatMatrix(target, normal, labels[i], labels[j]);
      }
    }
  }
}
