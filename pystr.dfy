/** The Python `str` methods the helpers rely on, over strings as
    sequences of code points: `strip()`, `split()`, `split(sep)`,
    `split(sep, 1)`, `sep.join`, `replace` and the ordering `<` of
    strings. */
module PyStr {
  import opened Seqs
  import opened Wrappers

  /** The characters `str.isspace()` accepts, which `strip()` and `split()`
      remove. */
  predicate IsSpace(c: char) {
    ('\t' <= c <= '\r') || ('\U{1C}' <= c <= ' ') || c == '\U{85}' || c == '\U{A0}'
    || c == '\U{1680}' || ('\U{2000}' <= c <= '\U{200A}') || c == '\U{2028}' || c == '\U{2029}'
    || c == '\U{202F}' || c == '\U{205F}' || c == '\U{3000}'
  }

  /** No character of `s` is white space. */
  predicate NoSpace(s: string) {
    forall i :: 0 <= i < |s| ==> !IsSpace(s[i])
  }

  // ----- strip -----

  /** The number of leading white-space characters. */
  function LeadingSpaces(s: string): (n: nat)
    ensures n <= |s| && forall i :: 0 <= i < n ==> IsSpace(s[i])
    ensures n < |s| ==> !IsSpace(s[n])
  {
    if |s| == 0 || !IsSpace(s[0]) then 0 else 1 + LeadingSpaces(s[1..])
  }

  /** The number of trailing white-space characters. */
  function TrailingSpaces(s: string): (n: nat)
    ensures n <= |s| && forall i :: |s| - n <= i < |s| ==> IsSpace(s[i])
    ensures n < |s| ==> !IsSpace(s[|s| - n - 1])
  {
    if |s| == 0 || !IsSpace(s[|s| - 1]) then 0 else 1 + TrailingSpaces(s[..|s| - 1])
  }

  /** `s.strip()`. */
  function Strip(s: string): string {
    var t := s[LeadingSpaces(s)..];
    t[..|t| - TrailingSpaces(t)]
  }

  /** `strip()` removes white space at both ends and nothing else: the
      result is a slice of `s`, the parts cut off are white space, and the
      result neither starts nor ends with white space. */
  lemma StripSpec(s: string)
    ensures var r := Strip(s);
      exists i, j :: 0 <= i <= j <= |s| && r == s[i..j]
        && (forall k :: 0 <= k < i ==> IsSpace(s[k]))
        && (forall k :: j <= k < |s| ==> IsSpace(s[k]))
    ensures |Strip(s)| > 0 ==> !IsSpace(Strip(s)[0]) && !IsSpace(Strip(s)[|Strip(s)| - 1])
  {
    var i := LeadingSpaces(s);
    var t := s[i..];
    var j := i + |t| - TrailingSpaces(t);
    assert Strip(s) == s[i..j];
    forall k | j <= k < |s| ensures IsSpace(s[k]) {
      assert s[k] == t[k - i];
    }
    if |Strip(s)| > 0 {
      assert Strip(s)[0] == t[0];
    }
  }

  /** Stripping twice is stripping once. */
  lemma StripIdempotent(s: string)
    ensures Strip(Strip(s)) == Strip(s)
  {
    StripSpec(s);
    var r := Strip(s);
    if |r| > 0 {
      assert LeadingSpaces(r) == 0;
      assert TrailingSpaces(r) == 0;
    }
  }

  /** A string without white space is its own stripping. */
  lemma StripNoSpace(s: string)
    requires NoSpace(s)
    ensures Strip(s) == s
  {
    if |s| > 0 {
      assert LeadingSpaces(s) == 0 && TrailingSpaces(s) == 0;
    }
  }

  // ----- split(sep), sep.join -----

  /** `s.split(sep)` for a one-character separator: the pieces between
      separators, empty ones included. */
  function Split(s: string, sep: char): (r: seq<string>)
    ensures |r| >= 1
  {
    if |s| == 0 then [""]
    else if s[0] == sep then [""] + Split(s[1..], sep)
    else var rest := Split(s[1..], sep); [[s[0]] + rest[0]] + rest[1..]
  }

  /** `sep.join(ps)`. */
  function Join(ps: seq<string>, sep: char): string {
    if |ps| == 0 then "" else if |ps| == 1 then ps[0] else ps[0] + [sep] + Join(ps[1..], sep)
  }

  /** Joining the pieces with the separator gives the string back. */
  lemma {:induction false} SplitJoin(s: string, sep: char)
    ensures Join(Split(s, sep), sep) == s
  {
    if |s| > 0 {
      SplitJoin(s[1..], sep);
      var rest := Split(s[1..], sep);
      if s[0] == sep {
        assert Split(s, sep)[1..] == rest;
        assert s == [sep] + s[1..];
      } else {
        var r := Split(s, sep);
        assert r[1..] == rest[1..];
        if |rest| > 1 {
          assert rest == [rest[0]] + rest[1..];
          assert Join(rest, sep) == rest[0] + [sep] + Join(rest[1..], sep);
        }
        assert s == [s[0]] + s[1..];
      }
    }
  }

  /** No piece contains the separator. */
  lemma {:induction false} SplitPieces(s: string, sep: char)
    ensures forall i :: 0 <= i < |Split(s, sep)| ==> sep !in Split(s, sep)[i]
  {
    if |s| > 0 {
      SplitPieces(s[1..], sep);
      var rest := Split(s[1..], sep);
      var r := Split(s, sep);
      if s[0] != sep {
        forall i | 0 <= i < |r| ensures sep !in r[i] {
          if i > 0 {
            assert r[i] == rest[i];
          }
        }
      } else {
        forall i | 0 <= i < |r| ensures sep !in r[i] {
          if i > 0 {
            assert r[i] == rest[i - 1];
          }
        }
      }
    }
  }

  /** Splitting pieces joined by a separator they do not contain gives the
      pieces back. */
  lemma {:induction false} JoinSplit(ps: seq<string>, sep: char)
    requires |ps| >= 1 && forall i :: 0 <= i < |ps| ==> sep !in ps[i]
    ensures Split(Join(ps, sep), sep) == ps
    decreases |ps|, |ps[0]|
  {
    var p := ps[0];
    if |p| > 0 {
      // peel off the first character of the first piece
      var ps' := [p[1..]] + ps[1..];
      JoinSplit(ps', sep);
      JoinCons(ps, sep);
      JoinCons(ps', sep);
      assert Join(ps, sep) == [p[0]] + Join(ps', sep);
      assert [p[0]] + p[1..] == p;
      assert ps == [p] + ps'[1..];
    } else if |ps| > 1 {
      JoinSplit(ps[1..], sep);
      assert Join(ps, sep) == [sep] + Join(ps[1..], sep);
      assert ([sep] + Join(ps[1..], sep))[1..] == Join(ps[1..], sep);
    }
  }

  /** The join starts with the first piece. */
  lemma JoinCons(ps: seq<string>, sep: char)
    requires |ps| >= 1
    ensures Join(ps, sep) == ps[0] + (if |ps| == 1 then "" else [sep] + Join(ps[1..], sep))
  {
  }

  /** Two strings without the separator joined by it split back into the
      two. */
  lemma SplitPair(a: string, b: string, sep: char)
    requires sep !in a && sep !in b
    ensures Split(a + [sep] + b, sep) == [a, b]
  {
    JoinSplit([a, b], sep);
    assert Join([a, b], sep) == a + [sep] + b;
  }

  // ----- split(sep, 1) -----

  /** The position of the first `c` in `s`, if any. */
  function Find(s: string, c: char): (r: Option<nat>)
    ensures r.Some? ==> r.value < |s| && s[r.value] == c && c !in s[..r.value]
    ensures r.None? <==> c !in s
  {
    if |s| == 0 then None
    else if s[0] == c then Some(0)
    else match Find(s[1..], c)
      case None => None
      case Some(k) => assert s[..k + 1] == [s[0]] + s[1..][..k]; Some(k + 1)
  }

  /** `s.split(sep, 1)`: the whole string when the separator is absent,
      otherwise the parts before and after its first occurrence. */
  function SplitOnce(s: string, sep: char): (r: seq<string>)
    ensures 1 <= |r| <= 2
    ensures |r| == 1 <==> sep !in s
    ensures |r| == 1 ==> r[0] == s
    ensures |r| == 2 ==> sep !in r[0] && s == r[0] + [sep] + r[1]
  {
    match Find(s, sep)
    case None => [s]
    case Some(k) => assert s == s[..k] + [sep] + s[k + 1..]; [s[..k], s[k + 1..]]
  }

  /** Splitting once at a separator the first part does not contain gives
      the two parts. */
  lemma SplitOnceAt(a: string, b: string, sep: char)
    requires sep !in a
    ensures SplitOnce(a + [sep] + b, sep) == [a, b]
  {
    FindAfter(a, b, sep);
    var s := a + [sep] + b;
    assert s[..|a|] == a && s[|a| + 1..] == b;
  }

  /** The first separator after a part without one is right after it. */
  lemma {:induction false} FindAfter(a: string, b: string, sep: char)
    requires sep !in a
    ensures Find(a + [sep] + b, sep) == Some(|a|)
  {
    if |a| > 0 {
      assert (a + [sep] + b)[1..] == a[1..] + [sep] + b;
      FindAfter(a[1..], b, sep);
    }
  }

  // ----- split() -----

  /** The length of the run of non-space characters `s` starts with. */
  function WordLength(s: string): (n: nat)
    ensures n <= |s| && NoSpace(s[..n])
    ensures n < |s| ==> IsSpace(s[n])
  {
    if |s| == 0 || IsSpace(s[0]) then 0
    else
      var k := WordLength(s[1..]);
      assert s[..k + 1] == [s[0]] + s[1..][..k];
      k + 1
  }

  /** `s.split()`: the maximal runs of non-space characters. */
  function Words(s: string): (r: seq<string>)
    ensures forall i :: 0 <= i < |r| ==> |r[i]| > 0 && NoSpace(r[i])
    decreases |s|
  {
    if |s| == 0 then []
    else if IsSpace(s[0]) then Words(s[1..])
    else var n := WordLength(s); [s[..n]] + Words(s[n..])
  }

  /** A string without white space is one word, or none when empty. */
  lemma WordsNoSpace(s: string)
    requires NoSpace(s)
    ensures Words(s) == if |s| == 0 then [] else [s]
  {
    if |s| > 0 {
      WordLengthNoSpace(s);
      assert !IsSpace(s[0]);
      assert s[..|s|] == s && s[|s|..] == [];
      assert Words(s) == [s[..|s|]] + Words(s[|s|..]);
    }
  }

  lemma {:induction false} WordLengthNoSpace(s: string)
    requires NoSpace(s)
    ensures WordLength(s) == |s|
  {
    if |s| > 0 {
      WordLengthNoSpace(s[1..]);
    }
  }

  /** The words hold exactly the non-space characters, in order. */
  lemma {:induction false} WordsFlatten(s: string)
    ensures Flatten(Words(s)) == Filter(s, c => !IsSpace(c))
    decreases |s|
  {
    var keep := (c: char) => !IsSpace(c);
    if |s| > 0 {
      if IsSpace(s[0]) {
        WordsFlatten(s[1..]);
      } else {
        var n := WordLength(s);
        WordsFlatten(s[n..]);
        assert s == s[..n] + s[n..];
        FilterConcat(s[..n], s[n..], keep);
        FilterAllKept(s[..n], keep);
        assert Words(s)[1..] == Words(s[n..]);
      }
    }
  }

  // ----- replace -----

  /** `s.replace(pat, rep)`: every non-overlapping occurrence of `pat`,
      scanning from the left, becomes `rep`. */
  function ReplaceAll(s: string, pat: string, rep: string): string
    requires |pat| > 0
    decreases |s|
  {
    if |s| < |pat| then s
    else if s[..|pat|] == pat then rep + ReplaceAll(s[|pat|..], pat, rep)
    else [s[0]] + ReplaceAll(s[1..], pat, rep)
  }

  /** Replacing one character by nothing deletes it. */
  lemma {:induction false} ReplaceCharDeletes(s: string, c: char)
    ensures ReplaceAll(s, [c], "") == Filter(s, x => x != c)
  {
    if |s| > 0 {
      ReplaceCharDeletes(s[1..], c);
      assert s[..1] == [s[0]];
    }
  }

  /** A pattern whose first character is absent leaves the string as it
      is. */
  lemma {:induction false} ReplaceAbsent(s: string, pat: string, rep: string)
    requires |pat| > 0 && pat[0] !in s
    ensures ReplaceAll(s, pat, rep) == s
  {
    if |s| >= |pat| {
      assert s[..|pat|][0] == s[0];
      ReplaceAbsent(s[1..], pat, rep);
      assert s == [s[0]] + s[1..];
    }
  }

  // ----- ordering -----

  /** `a < b` on strings: code point by code point, a proper prefix first. */
  predicate Less(a: string, b: string) {
    if |b| == 0 then false
    else if |a| == 0 then true
    else if a[0] != b[0] then a[0] < b[0]
    else Less(a[1..], b[1..])
  }

  /** `<` on strings is a strict total order. */
  lemma {:induction false} LessIrreflexive(a: string)
    ensures !Less(a, a)
  {
    if |a| > 0 {
      LessIrreflexive(a[1..]);
    }
  }

  lemma {:induction false} LessTransitive(a: string, b: string, c: string)
    requires Less(a, b) && Less(b, c)
    ensures Less(a, c)
  {
    if |a| > 0 && a[0] == b[0] && b[0] == c[0] {
      LessTransitive(a[1..], b[1..], c[1..]);
    }
  }

  lemma {:induction false} LessTotal(a: string, b: string)
    ensures a == b || Less(a, b) || Less(b, a)
  {
    if |a| > 0 && |b| > 0 && a[0] == b[0] {
      LessTotal(a[1..], b[1..]);
      if a[1..] == b[1..] {
        assert a == [a[0]] + a[1..] && b == [b[0]] + b[1..];
      }
    }
  }

  lemma {:induction false} LessAsymmetric(a: string, b: string)
    requires Less(a, b)
    ensures !Less(b, a)
  {
    if |a| > 0 && a[0] == b[0] {
      LessAsymmetric(a[1..], b[1..]);
    }
  }
}
