/** Python's built-in `sum` over exact reals, and the facts about it that
    several indicators share. */
module Sums {
  import opened RealArith

  /** `sum(s)`, adding from the left. */
  function Sum(s: seq<real>): real {
    if |s| == 0 then 0.0 else Sum(s[..|s| - 1]) + s[|s| - 1]
  }

  ghost predicate NonNegative(s: seq<real>) {
    forall k :: 0 <= k < |s| ==> s[k] >= 0.0
  }

  lemma {:induction false} SumNonNegative(s: seq<real>)
    requires NonNegative(s)
    ensures Sum(s) >= 0.0
  {
    if |s| > 0 {
      SumNonNegative(s[..|s| - 1]);
    }
  }

  lemma SumAppend(s: seq<real>, x: real)
    ensures Sum(s + [x]) == Sum(s) + x
  {
    assert (s + [x])[..|s|] == s;
  }

  /** A sum of values in [0, 1] lies between 0 and their number. */
  lemma {:induction false} SumOfUnits(s: seq<real>)
    requires forall k :: 0 <= k < |s| ==> 0.0 <= s[k] <= 1.0
    ensures 0.0 <= Sum(s) <= |s| as real
  {
    if |s| > 0 {
      SumOfUnits(s[..|s| - 1]);
    }
  }

  /** Adding from the left or taking the head first gives the same sum. */
  lemma {:induction false} SumCons(x: real, s: seq<real>)
    ensures Sum([x] + s) == x + Sum(s)
  {
    if |s| > 0 {
      SumCons(x, s[..|s| - 1]);
      assert ([x] + s)[..|s|] == [x] + s[..|s| - 1];
    }
  }

  /** Dividing every term divides the sum. */
  lemma {:induction false} SumDivided(v: seq<real>, t: real)
    requires t != 0.0
    ensures Sum(seq(|v|, i requires 0 <= i < |v| => v[i] / t)) == Sum(v) / t
  {
    var w := seq(|v|, i requires 0 <= i < |v| => v[i] / t);
    if |v| > 0 {
      var init := v[..|v| - 1];
      SumDivided(init, t);
      assert w[..|v| - 1] == seq(|init|, i requires 0 <= i < |init| => init[i] / t);
      DivAdd(Sum(init), v[|v| - 1], t);
    }
  }

  /** Over non-negative terms a longer prefix has a larger sum. */
  lemma {:induction false} PrefixSumMono(v: seq<real>, i: nat, j: nat)
    requires NonNegative(v) && i <= j <= |v|
    ensures 0.0 <= Sum(v[..i]) <= Sum(v[..j])
  {
    if i < j {
      PrefixSumMono(v, i, j - 1);
      assert v[..j][..j - 1] == v[..j - 1];
    } else {
      assert NonNegative(v[..i]);
      SumNonNegative(v[..i]);
    }
  }
}
