/** List comprehensions shared by several helpers: keeping the items that
    pass a test (`[x for x in xs if keep(x)]`) and concatenating a list of
    lists. */
module Seqs {
  /** `[x for x in s if keep(x)]`. */
  function Filter<T>(s: seq<T>, keep: T -> bool): (r: seq<T>)
    ensures |r| <= |s|
    ensures forall i :: 0 <= i < |r| ==> keep(r[i])
  {
    if |s| == 0 then []
    else if keep(s[0]) then [s[0]] + Filter(s[1..], keep)
    else Filter(s[1..], keep)
  }

  /** `t` is `s` with some items left out, the others in their order. */
  ghost predicate IsSubseq<T>(t: seq<T>, s: seq<T>)
    decreases |s|
  {
    if |t| == 0 then true
    else if |s| == 0 then false
    else if t[0] == s[0] then IsSubseq(t[1..], s[1..])
    else IsSubseq(t, s[1..])
  }

  /** An item is kept exactly when it is in the list and passes the test. */
  lemma {:induction false} FilterMembers<T>(s: seq<T>, keep: T -> bool, x: T)
    ensures x in Filter(s, keep) <==> x in s && keep(x)
  {
    if |s| > 0 {
      FilterMembers(s[1..], keep, x);
      assert s == [s[0]] + s[1..];
    }
  }

  /** The kept items keep their order. */
  lemma {:induction false} FilterSubseq<T>(s: seq<T>, keep: T -> bool)
    ensures IsSubseq(Filter(s, keep), s)
  {
    if |s| > 0 {
      FilterSubseq(s[1..], keep);
      var t := Filter(s[1..], keep);
      if keep(s[0]) {
        assert ([s[0]] + t)[1..] == t;
      } else {
        SubseqOfTail(t, s);
      }
    }
  }

  lemma SubseqOfTail<T>(t: seq<T>, s: seq<T>)
    requires |s| > 0 && IsSubseq(t, s[1..])
    ensures IsSubseq(t, s)
    decreases |s|, 0
  {
    if |t| > 0 && t[0] == s[0] {
      SubseqDropHead(t, s[1..]);
    }
  }

  /** A subsequence stays one when its first item is dropped. */
  lemma {:induction false} SubseqDropHead<T>(t: seq<T>, s: seq<T>)
    requires |t| > 0 && IsSubseq(t, s)
    ensures IsSubseq(t[1..], s)
    decreases |s|, 1
  {
    if t[0] != s[0] {
      SubseqDropHead(t, s[1..]);
      SubseqOfTail(t[1..], s);
    } else if |t| > 1 {
      SubseqOfTail(t[1..], s);
    }
  }

  /** Filtering twice with the same test changes nothing. */
  lemma {:induction false} FilterIdempotent<T>(s: seq<T>, keep: T -> bool)
    ensures Filter(Filter(s, keep), keep) == Filter(s, keep)
  {
    FilterAllKept(Filter(s, keep), keep);
  }

  /** A list whose items all pass is kept whole. */
  lemma {:induction false} FilterAllKept<T>(s: seq<T>, keep: T -> bool)
    requires forall i :: 0 <= i < |s| ==> keep(s[i])
    ensures Filter(s, keep) == s
  {
    if |s| > 0 {
      FilterAllKept(s[1..], keep);
    }
  }

  /** Filtering a concatenation filters each part. */
  lemma {:induction false} FilterConcat<T>(s: seq<T>, t: seq<T>, keep: T -> bool)
    ensures Filter(s + t, keep) == Filter(s, keep) + Filter(t, keep)
  {
    if |s| > 0 {
      FilterConcat(s[1..], t, keep);
      assert (s + t)[1..] == s[1..] + t;
    } else {
      assert s + t == t;
    }
  }

  /** The lists of `ss` one after the other. */
  function Flatten<T>(ss: seq<seq<T>>): seq<T> {
    if |ss| == 0 then [] else ss[0] + Flatten(ss[1..])
  }
}
