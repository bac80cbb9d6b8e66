/** The list and string helpers of gitopenlib/utils/basics.py, which
    gitopenlib/utils.py repeats line for line: `chunks`, `remove_0_str`,
    `strips` and `sort_list`. */
module Basics {
  import opened Wrappers
  import opened Seqs
  import opened PyStr

  // ----- chunks -----

  /** `int(math.ceil(a / float(m)))`, in exact arithmetic. */
  function CeilDiv(a: nat, m: int): int
    requires m != 0
  {
    if m > 0 then (a + m - 1) / m else -(a / -m)
  }

  /** The ceiling is the least multiple count covering `a`. */
  lemma CeilDivSpec(a: nat, m: int)
    requires m > 0
    ensures CeilDiv(a, m) >= 0
    ensures a <= CeilDiv(a, m) * m
    ensures a > 0 ==> CeilDiv(a, m) > 0 && (CeilDiv(a, m) - 1) * m < a
  {
    var q := CeilDiv(a, m);
    var r := (a + m - 1) % m;
    assert a + m - 1 == q * m + r && 0 <= r < m;
    assert (q - 1) * m == q * m - m;
  }

  /** A negative `m` gives a ceiling that is 0 exactly when `a` is below
      `-m`, and negative otherwise. */
  lemma CeilDivNegative(a: nat, m: int)
    requires m < 0
    ensures CeilDiv(a, m) <= 0
    ensures CeilDiv(a, m) == 0 <==> a < -m
  {
  }

  /** `[arr[i : i + n] for i in range(0, len(arr), n)]` for `n > 0`. */
  function Pieces<T>(arr: seq<T>, n: nat): seq<seq<T>>
    requires n > 0
    decreases |arr|
  {
    if |arr| == 0 then []
    else if |arr| <= n then [arr]
    else [arr[..n]] + Pieces(arr[n..], n)
  }

  /** `chunks(arr, m)`: pieces of length `ceil(len(arr) / m)`; `m == 0`
      divides by zero, and a step of 0 makes `range` raise. */
  function Chunks<T>(arr: seq<T>, m: int): Result<seq<seq<T>>> {
    if m == 0 then Err(ZeroDivision)
    else
      var n := CeilDiv(|arr|, m);
      if n == 0 then Err(BadValue("range() arg 3 must not be zero"))
      else if n < 0 then Ok([])
      else Ok(Pieces(arr, n))
  }

  /** The pieces put back together give the list. */
  lemma {:induction false} PiecesFlatten<T>(arr: seq<T>, n: nat)
    requires n > 0
    ensures Flatten(Pieces(arr, n)) == arr
    decreases |arr|
  {
    if |arr| > n {
      PiecesFlatten(arr[n..], n);
      assert Pieces(arr, n)[1..] == Pieces(arr[n..], n);
      assert arr == arr[..n] + arr[n..];
    } else if |arr| > 0 {
      assert Flatten([arr]) == arr + Flatten([]);
    }
  }

  /** Every piece but the last has length `n`; the last has 1 to `n`
      items; there are as many pieces as multiples of `n` needed to cover
      the list. */
  lemma {:induction false} PiecesShape<T>(arr: seq<T>, n: nat)
    requires n > 0
    ensures var p := Pieces(arr, n);
      (|p| == 0 <==> |arr| == 0)
      && (forall k :: 0 <= k < |p| - 1 ==> |p[k]| == n)
      && (|p| > 0 ==> 1 <= |p[|p| - 1]| <= n)
      && (|p| > 0 ==> (|p| - 1) * n < |arr| <= |p| * n)
    decreases |arr|
  {
    var p := Pieces(arr, n);
    if |arr| > n {
      var rest := Pieces(arr[n..], n);
      PiecesShape(arr[n..], n);
      assert p[1..] == rest;
      assert |p| == |rest| + 1;
      forall k | 0 <= k < |p| - 1 ensures |p[k]| == n {
        if k > 0 {
          assert p[k] == rest[k - 1];
        }
      }
      assert p[|p| - 1] == rest[|rest| - 1];
      assert (|p| - 1) * n == (|rest| - 1) * n + n;
      assert |p| * n == |rest| * n + n;
    }
  }

  /** `k * n`, the start of piece `k`, counted out step by step. */
  function Offset(k: nat, n: nat): nat {
    if k == 0 then 0 else Offset(k - 1, n) + n
  }

  lemma {:induction false} OffsetIsProduct(k: nat, n: nat)
    ensures Offset(k, n) == k * n
  {
    if k > 0 {
      OffsetIsProduct(k - 1, n);
      assert k * n == (k - 1) * n + n;
    }
  }

  /** Piece `k` is the slice `arr[k * n : k * n + n]` of the comprehension,
      cut at the end of the list. */
  lemma {:induction false} PieceAt<T>(arr: seq<T>, n: nat, k: nat)
    requires n > 0 && k < |Pieces(arr, n)|
    ensures Offset(k, n) < |arr|
    ensures Pieces(arr, n)[k] == arr[Offset(k, n) .. Min(Offset(k, n) + n, |arr|)]
    decreases |arr|
  {
    if k > 0 {
      var rest := arr[n..];
      assert Pieces(arr, n)[k] == Pieces(rest, n)[k - 1];
      PieceAt(rest, n, k - 1);
      var j := Offset(k - 1, n);
      SliceShift(arr, n, j, Min(j + n, |rest|));
    } else if |arr| <= n {
      assert arr[0..|arr|] == arr;
    }
  }

  function Min(a: int, b: int): int {
    if a <= b then a else b
  }

  lemma SliceShift<T>(arr: seq<T>, n: nat, j: nat, e: nat)
    requires n <= |arr| && j <= e <= |arr| - n
    ensures arr[n..][j..e] == arr[j + n..e + n]
    ensures Min(j + n + n, |arr|) == Min(j + n, |arr| - n) + n
  {
  }

  /** For a positive `m` and a non-empty list, `chunks` splits the list
      into at most `m` pieces of length `ceil(len / m)`, the last one
      possibly shorter and never empty, which put together give the list
      back. */
  lemma ChunksSpec<T>(arr: seq<T>, m: int)
    requires m > 0 && |arr| > 0
    ensures Chunks(arr, m).Ok?
    ensures var p, n := Chunks(arr, m).value, CeilDiv(|arr|, m);
      n > 0 && p == Pieces(arr, n) && Flatten(p) == arr
      && 0 < |p| <= m
      && (forall k :: 0 <= k < |p| - 1 ==> |p[k]| == n)
      && 1 <= |p[|p| - 1]| <= n
  {
    var n := CeilDiv(|arr|, m);
    CeilDivSpec(|arr|, m);
    PiecesFlatten(arr, n);
    PiecesShape(arr, n);
    var p := Pieces(arr, n);
    // (|p| - 1) * n < |arr| <= m * n, so |p| - 1 < m
    if |p| > m {
      assert (|p| - 1) * n >= m * n by {
        MulMonotone(m, |p| - 1, n);
      }
    }
  }

  lemma MulMonotone(a: nat, b: nat, n: nat)
    requires a <= b
    ensures a * n <= b * n
  {
  }

  /** The error cases: `m == 0` divides by zero; an empty list, or a
      negative `m` beyond the length, gives a step of 0; a negative `m` not
      beyond it gives a negative step and no pieces. */
  lemma ChunksErrors<T>(arr: seq<T>, m: int)
    ensures m == 0 ==> Chunks(arr, m) == Err(ZeroDivision)
    ensures m != 0 && |arr| == 0 ==> Chunks(arr, m) == Err(BadValue("range() arg 3 must not be zero"))
    ensures m < 0 && 0 < |arr| < -m ==> Chunks(arr, m) == Err(BadValue("range() arg 3 must not be zero"))
    ensures m < 0 && |arr| >= -m ==> Chunks(arr, m) == Ok([])
  {
    if m < 0 {
      CeilDivNegative(|arr|, m);
    } else if m > 0 && |arr| == 0 {
      assert CeilDiv(0, m) == 0;
    }
  }

  // ----- remove_0_str -----

  /** `remove_0_str(data)`: the items whose `str` is not empty, `render`
      standing for `str`. */
  function RemoveEmpty<T>(data: seq<T>, render: T -> string): seq<T> {
    Filter(data, x => |render(x)| != 0)
  }

  /** It keeps exactly the items with a non-empty rendering, in their
      order, and a second pass changes nothing. */
  lemma RemoveEmptySpec<T>(data: seq<T>, render: T -> string)
    ensures forall x :: x in RemoveEmpty(data, render) <==> x in data && |render(x)| != 0
    ensures IsSubseq(RemoveEmpty(data, render), data)
    ensures RemoveEmpty(RemoveEmpty(data, render), render) == RemoveEmpty(data, render)
  {
    var keep := (x: T) => |render(x)| != 0;
    forall x ensures x in Filter(data, keep) <==> x in data && keep(x) {
      FilterMembers(data, keep, x);
    }
    FilterSubseq(data, keep);
    FilterIdempotent(data, keep);
  }

  /** On strings `str` is the identity: the empty strings go. */
  lemma RemoveEmptyStrings(data: seq<string>)
    ensures forall x :: x in RemoveEmpty(data, s => s) <==> x in data && x != ""
  {
    RemoveEmptySpec(data, s => s);
  }

  // ----- strips -----

  /** `strips(string)`. */
  function Strips(s: string): string {
    ReplaceAll(ReplaceAll(ReplaceAll(Strip(s), "\n", ""), "\r", ""), "\r\n", "")
  }

  /** Neither a line feed nor a carriage return. */
  predicate NotBreak(c: char) {
    c != '\n' && c != '\r'
  }

  /** `strips` strips both ends and deletes every line feed and carriage
      return; the last `replace("\r\n", "")` never finds anything. */
  lemma StripsSpec(s: string)
    ensures Strips(s) == Filter(Strip(s), NotBreak)
    ensures Strips(s) == ReplaceAll(ReplaceAll(Strip(s), "\n", ""), "\r", "")
    ensures '\n' !in Strips(s) && '\r' !in Strips(s)
  {
    var t := Strip(s);
    var a := ReplaceAll(t, "\n", "");
    ReplaceCharDeletes(t, '\n');
    ReplaceCharDeletes(a, '\r');
    FilterTwice(t);
    var b := ReplaceAll(a, "\r", "");
    assert b == Filter(t, NotBreak);
    FilterNoBreak(t);
    ReplaceAbsent(b, "\r\n", "");
  }

  lemma FilterNoBreak(t: string)
    ensures '\n' !in Filter(t, NotBreak) && '\r' !in Filter(t, NotBreak)
  {
  }

  /** Deleting line feeds and then carriage returns deletes both. */
  lemma {:induction false} FilterTwice(t: string)
    ensures Filter(Filter(t, x => x != '\n'), x => x != '\r') == Filter(t, NotBreak)
  {
    if |t| > 0 {
      FilterTwice(t[1..]);
    }
  }

  /** `strips` is idempotent. */
  lemma StripsIdempotent(s: string)
    ensures Strips(Strips(s)) == Strips(s)
  {
    var t := Strip(s);
    var r := Strips(s);
    StripsSpec(s);
    StripSpec(s);
    if |t| > 0 {
      FilterKeepsEnds(t);
      assert LeadingSpaces(r) == 0 && TrailingSpaces(r) == 0;
    }
    assert Strip(r) == r;
    StripsSpec(r);
    FilterAllKept(r, NotBreak);
  }

  /** Deleting breaks from a string that neither starts nor ends with white
      space keeps its first and last character. */
  lemma FilterKeepsEnds(t: string)
    requires |t| > 0 && !IsSpace(t[0]) && !IsSpace(t[|t| - 1])
    ensures var r := Filter(t, NotBreak); |r| > 0 && r[0] == t[0] && r[|r| - 1] == t[|t| - 1]
  {
    var n := |t| - 1;
    assert t == t[..n] + [t[n]];
    FilterConcat(t[..n], [t[n]], NotBreak);
    assert Filter([t[n]], NotBreak) == [t[n]];
    if n > 0 {
      assert t[..n] == [t[0]] + t[1..n];
      assert Filter(t[..n], NotBreak)[0] == t[0];
    }
  }

  // ----- sort_list -----

  /** An item of the list `sort_list` sorts: a number or a string (flag 0),
      a dict as its items in insertion order (flag 1), or a tuple of numbers
      (flags 0 and 2). */
  datatype Item = Basic(value: int) | String(text: string) | Record(fields: seq<(string, int)>) | Tuple(elems: seq<int>)

  /** `d.get(key, 0)`: the value of the first item holding `key`, or 0. */
  function GetOr(fields: seq<(string, int)>, key: string): (v: int)
    ensures (forall i :: 0 <= i < |fields| ==> fields[i].0 != key) ==> v == 0
    ensures forall i :: 0 <= i < |fields| && fields[i].0 == key && (forall j :: 0 <= j < i ==> fields[j].0 != key) ==>
      v == fields[i].1
  {
    if |fields| == 0 then 0
    else if fields[0].0 == key then fields[0].1
    else
      var v := GetOr(fields[1..], key);
      assert forall i :: 1 <= i < |fields| ==> fields[i] == fields[1..][i - 1];
      v
  }

  // Flag 0: the items themselves are compared.

  /** The kind of an item. Python orders two items only when they are of
      one kind, and never orders two dicts. */
  function KindOf(x: Item): nat {
    match x
    case Basic(_) => 0
    case String(_) => 1
    case Tuple(_) => 2
    case Record(_) => 3
  }

  /** `a < b` on tuples of numbers: element by element, a proper prefix
      first. */
  predicate TupleLess(a: seq<int>, b: seq<int>) {
    if |b| == 0 then false
    else if |a| == 0 then true
    else if a[0] != b[0] then a[0] < b[0]
    else TupleLess(a[1..], b[1..])
  }

  lemma {:induction false} TupleLessTransitive(a: seq<int>, b: seq<int>, c: seq<int>)
    requires TupleLess(a, b) && TupleLess(b, c)
    ensures TupleLess(a, c)
  {
    if |a| > 0 && a[0] == b[0] && b[0] == c[0] {
      TupleLessTransitive(a[1..], b[1..], c[1..]);
    }
  }

  lemma {:induction false} TupleLessTotal(a: seq<int>, b: seq<int>)
    ensures a == b || TupleLess(a, b) || TupleLess(b, a)
  {
    if |a| > 0 && |b| > 0 && a[0] == b[0] {
      TupleLessTotal(a[1..], b[1..]);
      if a[1..] == b[1..] {
        assert a == [a[0]] + a[1..] && b == [b[0]] + b[1..];
      }
    }
  }

  lemma {:induction false} TupleLessAsymmetric(a: seq<int>, b: seq<int>)
    requires TupleLess(a, b)
    ensures !TupleLess(b, a)
  {
    if |a| > 0 && a[0] == b[0] {
      TupleLessAsymmetric(a[1..], b[1..]);
    }
  }

  /** `x <= y` as Python compares two items of one kind: numbers by value,
      strings and tuples element by element. Items that Python cannot
      compare are ordered by their kind, which keeps the order total;
      `sort_list` raises before it would compare them. */
  predicate NaturalLe(x: Item, y: Item) {
    match (x, y)
    case (Basic(a), Basic(b)) => a <= b
    case (String(a), String(b)) => !Less(b, a)
    case (Tuple(a), Tuple(b)) => !TupleLess(b, a)
    case _ => KindOf(x) <= KindOf(y)
  }

  /** The natural order is total and transitive. */
  lemma NaturalTotal(x: Item, y: Item)
    ensures NaturalLe(x, y) || NaturalLe(y, x)
  {
    match (x, y)
    case (String(a), String(b)) =>
      if Less(a, b) {
        LessAsymmetric(a, b);
      }
    case (Tuple(a), Tuple(b)) =>
      if TupleLess(a, b) {
        TupleLessAsymmetric(a, b);
      }
    case _ =>
  }

  lemma NaturalTransitive(x: Item, y: Item, z: Item)
    requires NaturalLe(x, y) && NaturalLe(y, z)
    ensures NaturalLe(x, z)
  {
    match (x, y, z)
    case (String(a), String(b), String(c)) =>
      if Less(c, a) {
        LessTotal(a, b);
        if Less(a, b) {
          LessTransitive(c, a, b);
        }
      }
    case (Tuple(a), Tuple(b), Tuple(c)) =>
      if TupleLess(c, a) {
        TupleLessTotal(a, b);
        if TupleLess(a, b) {
          TupleLessTransitive(c, a, b);
        }
      }
    case _ =>
  }

  /** Python can order the items: they are all numbers, all strings or all
      tuples. */
  predicate OneKind(data: seq<Item>) {
    |data| > 0 && !data[0].Record? && forall i :: 0 <= i < |data| ==> KindOf(data[i]) == KindOf(data[0])
  }

  /** The items are in natural order, ascending or descending. */
  ghost predicate InNaturalOrder(s: seq<Item>, ascending: bool) {
    forall i, j :: 0 <= i < j < |s| ==> if ascending then NaturalLe(s[i], s[j]) else NaturalLe(s[j], s[i])
  }

  // Flags 1 and 2: the items are compared by a key.

  /** The key `sort_list` sorts dicts by: `key`, or for `key == ""` the
      first key of the first dict, which `data[0].items()[0]` is meant to
      fetch. An empty list or an empty first dict has no such key, and an
      item without `items()` raises AttributeError. */
  function ResolveKey(data: seq<Item>, key: string): Result<string> {
    if key != "" then Ok(key)
    else if |data| == 0 then Err(IndexOutOfRange)
    else if !data[0].Record? then Err(TypeMismatch)
    else if |data[0].fields| == 0 then Err(IndexOutOfRange)
    else Ok(data[0].fields[0].0)
  }

  /** `key, _ = data[0].items()[0]` as written: a `dict_items` view cannot
      be indexed, so an empty key always raises. */
  function ResolveKeyAsWritten(data: seq<Item>, key: string): Result<string> {
    if key != "" then Ok(key)
    else if |data| == 0 then Err(IndexOutOfRange)
    else Err(TypeMismatch)
  }

  /** As written no empty key is ever resolved: `sort_list([{"a": 1}],
      flag=1)` raises TypeError where the first key "a" was meant. */
  lemma ResolveKeyAsWrittenFails(data: seq<Item>)
    ensures ResolveKeyAsWritten(data, "").Err?
    ensures var d := [Record([("a", 1)])];
      ResolveKeyAsWritten(d, "") == Err(TypeMismatch) && ResolveKey(d, "") == Ok("a")
  {
  }

  /** An empty key resolves exactly when the first item is a non-empty
      dict, and then to its first key, so that dict sorts by its first
      value. */
  lemma ResolveKeySpec(data: seq<Item>)
    ensures ResolveKey(data, "").Ok? <==> |data| > 0 && data[0].Record? && |data[0].fields| > 0
    ensures ResolveKey(data, "").Ok? ==>
      ResolveKey(data, "").value == data[0].fields[0].0
      && KeyOf(data[0], 1, 0, ResolveKey(data, "").value) == Ok(data[0].fields[0].1)
  {
  }

  /** The value an item is sorted by: `x.get(key, 0)` for flag 1, `x[position]`
      for flag 2; anything else raises. */
  function KeyOf(x: Item, flag: int, position: nat, key: string): Result<int> {
    if flag == 1 then
      (if x.Record? then Ok(GetOr(x.fields, key)) else Err(TypeMismatch))
    else match x
      case Tuple(e) => if position < |e| then Ok(e[position]) else Err(IndexOutOfRange)
      case Record(_) => Err(KeyMissing)
      case _ => Err(TypeMismatch)
  }

  /** The error raised while computing the keys, in list order. */
  function FirstKeyError(data: seq<Item>, flag: int, position: nat, key: string): (e: Option<PyError>)
    ensures e.None? <==> forall i :: 0 <= i < |data| ==> KeyOf(data[i], flag, position, key).Ok?
  {
    if |data| == 0 then None
    else if KeyOf(data[0], flag, position, key).Err? then Some(KeyOf(data[0], flag, position, key).error)
    else
      var e := FirstKeyError(data[1..], flag, position, key);
      assert forall i :: 1 <= i < |data| ==> data[i] == data[1..][i - 1];
      e
  }

  /** The position flag 2 sorts by: `position`, or 0 when it is out of the
      range of the first item. */
  function EffectivePosition(data: seq<Item>, position: int): nat {
    if |data| == 0 then 0
    else
      var size := match data[0]
        case Tuple(e) => |e|
        case Record(f) => |f|
        case String(t) => |t|
        case Basic(_) => 0;
      if position < 0 || position >= size then 0 else position
  }

  /** The position the keys are computed with: the effective one for
      flag 2, unused otherwise. */
  function SortPosition(data: seq<Item>, flag: int, position: int): nat {
    if flag == 2 then EffectivePosition(data, position) else 0
  }

  /** The key the keys are computed with: the resolved one for flag 1. */
  function SortKey(data: seq<Item>, flag: int, key: string): string {
    if flag == 1 && ResolveKey(data, key).Ok? then ResolveKey(data, key).value else key
  }

  /** What makes `sort_list` raise, if anything. */
  function SortListError(data: seq<Item>, flag: int, position: int, key: string): Option<PyError> {
    if flag == 0 then
      // with fewer than two items nothing is compared
      if |data| <= 1 || OneKind(data) then None else Some(TypeMismatch)
    else if flag == 1 then
      match ResolveKey(data, key)
      case Err(e) => Some(e)
      case Ok(k) => FirstKeyError(data, 1, 0, k)
    else if flag == 2 then
      if |data| == 0 then Some(IndexOutOfRange)
      else if data[0].Basic? then Some(TypeMismatch)
      else FirstKeyError(data, 2, SortPosition(data, flag, position), key)
    else None
  }

  /** The rank an item is sorted by: its key, negated for a descending
      sort. */
  function Rank(x: Item, flag: int, position: nat, key: string, ascending: bool): int {
    var k := KeyOf(x, flag, position, key);
    if k.Err? then 0 else if ascending then k.value else -k.value
  }

  /** The keys of `s` ascend (or descend). */
  ghost predicate InKeyOrder(s: seq<Item>, flag: int, position: nat, key: string, ascending: bool) {
    forall i, j :: 0 <= i < j < |s| ==>
      KeyOf(s[i], flag, position, key).Ok? && KeyOf(s[j], flag, position, key).Ok? &&
      if ascending then KeyOf(s[i], flag, position, key).value <= KeyOf(s[j], flag, position, key).value
      else KeyOf(s[i], flag, position, key).value >= KeyOf(s[j], flag, position, key).value
  }

  /** Whether `x` may stand before `y` once the list is sorted. */
  predicate Before(x: Item, y: Item, flag: int, position: nat, key: string, ascending: bool) {
    if flag == 0 then (if ascending then NaturalLe(x, y) else NaturalLe(y, x))
    else Rank(x, flag, position, key, ascending) <= Rank(y, flag, position, key, ascending)
  }

  lemma BeforeTotalPreorder(flag: int, position: nat, key: string, ascending: bool)
    ensures TotalPreorder((x, y) => Before(x, y, flag, position, key, ascending))
  {
    forall x, y ensures Before(x, y, flag, position, key, ascending) || Before(y, x, flag, position, key, ascending) {
      NaturalTotal(x, y);
    }
    forall x, y, z | Before(x, y, flag, position, key, ascending) && Before(y, z, flag, position, key, ascending)
      ensures Before(x, z, flag, position, key, ascending)
    {
      if flag == 0 {
        if ascending {
          NaturalTransitive(x, y, z);
        } else {
          NaturalTransitive(z, y, x);
        }
      }
    }
  }

  /** `sort_list(data, ascending, flag, position, key)`: `data` is sorted in
      place, by the items themselves (flag 0) or by their keys (flags 1 and
      2), ascending or descending, and returned; an unknown flag returns it
      untouched. A failing key leaves the list as it was; a failing
      comparison leaves a permutation of it. */
  method SortList(data: array<Item>, ascending: bool, flag: int, position: int, key: string)
    returns (r: Result<seq<Item>>)
    modifies data
    ensures SortListError(old(data[..]), flag, position, key).Some? ==>
      r == Err(SortListError(old(data[..]), flag, position, key).value)
      && multiset(data[..]) == multiset(old(data[..]))
    ensures SortListError(old(data[..]), flag, position, key).Some? && flag != 0 ==> data[..] == old(data[..])
    ensures SortListError(old(data[..]), flag, position, key).None? ==>
      r == Ok(data[..]) && multiset(data[..]) == multiset(old(data[..]))
    ensures SortListError(old(data[..]), flag, position, key).None? && flag == 0 ==>
      InNaturalOrder(data[..], ascending)
    ensures SortListError(old(data[..]), flag, position, key).None? && (flag == 1 || flag == 2) ==>
      InKeyOrder(data[..], flag, SortPosition(old(data[..]), flag, position), SortKey(old(data[..]), flag, key), ascending)
    ensures (flag < 0 || flag > 2) ==> data[..] == old(data[..])
  {
    var err := SortListError(data[..], flag, position, key);
    if err.Some? {
      return Err(err.value);
    }
    if 0 <= flag <= 2 {
      var pos := SortPosition(data[..], flag, position);
      var k := SortKey(data[..], flag, key);
      ghost var before := data[..];
      BeforeTotalPreorder(flag, pos, k, ascending);
      SortBy(data, (x, y) => Before(x, y, flag, pos, k, ascending));
      if flag != 0 {
        KeysAfterSort(before, data[..], flag, pos, k);
        RankOrderIsKeyOrder(data[..], flag, pos, k, ascending);
      }
    }
    return Ok(data[..]);
  }

  /** Sorting only moves items, so every key still exists afterwards. */
  lemma KeysAfterSort(before: seq<Item>, after: seq<Item>, flag: int, position: nat, key: string)
    requires multiset(after) == multiset(before)
    requires forall i :: 0 <= i < |before| ==> KeyOf(before[i], flag, position, key).Ok?
    ensures forall i :: 0 <= i < |after| ==> KeyOf(after[i], flag, position, key).Ok?
  {
    forall i | 0 <= i < |after| ensures KeyOf(after[i], flag, position, key).Ok? {
      assert after[i] in multiset(after);
      var j :| 0 <= j < |before| && before[j] == after[i];
    }
  }

  /** Ranks in order are keys in order once every key exists. */
  lemma RankOrderIsKeyOrder(s: seq<Item>, flag: int, position: nat, key: string, ascending: bool)
    requires flag != 0
    requires forall i :: 0 <= i < |s| ==> KeyOf(s[i], flag, position, key).Ok?
    requires InOrder(s, (x, y) => Before(x, y, flag, position, key, ascending))
    ensures InKeyOrder(s, flag, position, key, ascending)
  {
    forall i, j | 0 <= i < j < |s|
      ensures if ascending then KeyOf(s[i], flag, position, key).value <= KeyOf(s[j], flag, position, key).value
              else KeyOf(s[i], flag, position, key).value >= KeyOf(s[j], flag, position, key).value
    {
      assert Before(s[i], s[j], flag, position, key, ascending);
    }
  }

  // `list.sort`, as a stable insertion sort by a total preorder.

  /** `le` is a total preorder: any two values compare, and in a
      transitive way. */
  ghost predicate TotalPreorder<T(!new)>(le: (T, T) -> bool) {
    (forall x, y :: le(x, y) || le(y, x))
    && (forall x, y, z :: le(x, y) && le(y, z) ==> le(x, z))
  }

  /** Every value may stand before every later one. */
  ghost predicate InOrder<T>(s: seq<T>, le: (T, T) -> bool) {
    forall i, j :: 0 <= i < j < |s| ==> le(s[i], s[j])
  }

  /** `list.sort`: an insertion sort in place by `le`. */
  method SortBy<T(!new)>(a: array<T>, le: (T, T) -> bool)
    requires TotalPreorder(le)
    modifies a
    ensures InOrder(a[..], le)
    ensures multiset(a[..]) == multiset(old(a[..]))
  {
    var i := 0;
    while i < a.Length
      invariant 0 <= i <= a.Length
      invariant InOrder(a[..i], le)
      invariant multiset(a[..]) == multiset(old(a[..]))
    {
      InsertBy(a, i, le);
      i := i + 1;
    }
    assert a[..] == a[..i];
  }

  /** Moves `a[i]` left past every item it must stand before. */
  method InsertBy<T(!new)>(a: array<T>, i: int, le: (T, T) -> bool)
    requires TotalPreorder(le)
    requires 0 <= i < a.Length && InOrder(a[..i], le)
    modifies a
    ensures InOrder(a[..i + 1], le)
    ensures multiset(a[..]) == multiset(old(a[..]))
  {
    var k := i;
    assert forall p :: 0 <= p < i ==> a[p] == a[..i][p];
    while k > 0 && !le(a[k - 1], a[k])
      invariant Inserting(a[..], le, i, k)
      invariant multiset(a[..]) == multiset(old(a[..]))
      decreases k
    {
      InsertingStep(a[..], le, i, k);
      a[k], a[k - 1] := a[k - 1], a[k];
      k := k - 1;
    }
    InsertingDone(a[..], le, i, k);
  }

  /** While `a[i]` travels left to cell `k`: the other cells of `a[..i+1]`
      are in order and no cell on its right may stand before it. */
  ghost predicate Inserting<T>(s: seq<T>, le: (T, T) -> bool, i: int, k: int) {
    0 <= k <= i < |s|
    && (forall p, q :: 0 <= p < q <= i && p != k && q != k ==> le(s[p], s[q]))
    && (forall q :: k < q <= i ==> !le(s[q], s[k]))
  }

  lemma InsertingStep<T>(s: seq<T>, le: (T, T) -> bool, i: int, k: int)
    requires Inserting(s, le, i, k) && 0 < k && !le(s[k - 1], s[k])
    ensures Inserting(s[k := s[k - 1]][k - 1 := s[k]], le, i, k - 1)
  {
  }

  lemma InsertingDone<T(!new)>(s: seq<T>, le: (T, T) -> bool, i: int, k: int)
    requires TotalPreorder(le)
    requires Inserting(s, le, i, k) && (k == 0 || le(s[k - 1], s[k]))
    ensures InOrder(s[..i + 1], le)
  {
    forall p, q | 0 <= p < q <= i ensures le(s[p], s[q]) {
      if p != k && q != k {
      } else if p == k {
        assert !le(s[q], s[k]);
      } else if p < k - 1 {
        assert le(s[p], s[k - 1]);
      }
    }
  }

  // Properties of `sort_list`.

  /** Flag 0 raises exactly when two or more items are not all numbers,
      all strings or all tuples. */
  lemma NaturalErrors(data: seq<Item>, position: int, key: string)
    ensures SortListError(data, 0, position, key).None? <==>
      |data| <= 1
      || (forall i :: 0 <= i < |data| ==> data[i].Basic?)
      || (forall i :: 0 <= i < |data| ==> data[i].String?)
      || (forall i :: 0 <= i < |data| ==> data[i].Tuple?)
  {
  }

  /** The source's own flag-0 examples, numbers and strings, raise
      nothing, and neither do tuples. */
  lemma NaturalExamples()
    ensures SortListError([Basic(6), Basic(4), Basic(9), Basic(10), Basic(0)], 0, 0, "").None?
    ensures SortListError([String("acc"), String("cdef"), String("xyz"), String("0234"), String("123")], 0, 0, "").None?
    ensures SortListError([Tuple([2]), Tuple([1])], 0, 0, "").None?
    ensures SortListError([Basic(1), String("1")], 0, 0, "") == Some(TypeMismatch)
  {
    var t := [String("acc"), String("cdef"), String("xyz"), String("0234"), String("123")];
    assert forall i :: 0 <= i < |t| ==> t[i].String?;
    var u := [Tuple([2]), Tuple([1])];
    assert forall i :: 0 <= i < |u| ==> u[i].Tuple?;
    var n := [Basic(6), Basic(4), Basic(9), Basic(10), Basic(0)];
    assert forall i :: 0 <= i < |n| ==> n[i].Basic?;
    var m := [Basic(1), String("1")];
    assert KindOf(m[1]) != KindOf(m[0]);
  }

  /** Flag 0 sorts numbers by value, ascending or descending. */
  lemma SortNumbers(s: seq<Item>, ascending: bool)
    requires forall i :: 0 <= i < |s| ==> s[i].Basic?
    requires InNaturalOrder(s, ascending)
    ensures forall i, j :: 0 <= i < j < |s| ==>
      if ascending then s[i].value <= s[j].value else s[i].value >= s[j].value
  {
    forall i, j | 0 <= i < j < |s|
      ensures if ascending then s[i].value <= s[j].value else s[i].value >= s[j].value
    {
      assert if ascending then NaturalLe(s[i], s[j]) else NaturalLe(s[j], s[i]);
    }
  }

  /** Flag 0 sorts strings code point by code point: no string stands
      before a smaller one (after it, when descending). */
  lemma SortStrings(s: seq<Item>, ascending: bool)
    requires forall i :: 0 <= i < |s| ==> s[i].String?
    requires InNaturalOrder(s, ascending)
    ensures forall i, j :: 0 <= i < j < |s| ==>
      if ascending then !Less(s[j].text, s[i].text) else !Less(s[i].text, s[j].text)
  {
    forall i, j | 0 <= i < j < |s|
      ensures if ascending then !Less(s[j].text, s[i].text) else !Less(s[i].text, s[j].text)
    {
      assert if ascending then NaturalLe(s[i], s[j]) else NaturalLe(s[j], s[i]);
    }
  }

  /** Flag 0 sorts tuples element by element. */
  lemma SortTupleItems(s: seq<Item>, ascending: bool)
    requires forall i :: 0 <= i < |s| ==> s[i].Tuple?
    requires InNaturalOrder(s, ascending)
    ensures forall i, j :: 0 <= i < j < |s| ==>
      if ascending then !TupleLess(s[j].elems, s[i].elems) else !TupleLess(s[i].elems, s[j].elems)
  {
    forall i, j | 0 <= i < j < |s|
      ensures if ascending then !TupleLess(s[j].elems, s[i].elems) else !TupleLess(s[i].elems, s[j].elems)
    {
      assert if ascending then NaturalLe(s[i], s[j]) else NaturalLe(s[j], s[i]);
    }
  }

  /** Flag 1: a dict without the key sorts as if it held 0, and an empty
      key raises exactly when it cannot be resolved. */
  lemma SortRecords(data: seq<Item>, position: int, key: string)
    ensures forall f: seq<(string, int)> :: (forall i :: 0 <= i < |f| ==> f[i].0 != key) ==> KeyOf(Record(f), 1, 0, key) == Ok(0)
    ensures key == "" && ResolveKey(data, key).Err? ==> SortListError(data, 1, position, key) == Some(ResolveKey(data, key).error)
    ensures key == "" && |data| == 0 ==> SortListError(data, 1, position, key) == Some(IndexOutOfRange)
    ensures (key != "" || (|data| > 0 && data[0].Record? && |data[0].fields| > 0)) && (forall i :: 0 <= i < |data| ==> data[i].Record?) ==>
      SortListError(data, 1, position, key).None?
  {
  }

  /** Flag 2: a position outside the first tuple sorts by position 0, and
      an empty list raises an index error. */
  lemma SortTuples(data: seq<Item>, position: int, key: string)
    ensures |data| > 0 && data[0].Tuple? && (position < 0 || position >= |data[0].elems|) ==>
      EffectivePosition(data, position) == 0 && SortListError(data, 2, position, key) == SortListError(data, 2, 0, key)
    ensures |data| > 0 && data[0].Tuple? && 0 <= position < |data[0].elems| ==> EffectivePosition(data, position) == position
    ensures |data| == 0 ==> SortListError(data, 2, position, key) == Some(IndexOutOfRange)
  {
  }

  /** An unknown flag never raises and leaves the list as it is. */
  lemma SortUnknownFlag(data: seq<Item>, flag: int, position: int, key: string)
    requires flag < 0 || flag > 2
    ensures SortListError(data, flag, position, key).None?
  {
  }
}
