/** Facts of ordered-field arithmetic on `real` that the solver does not
    find by itself, each on plain numbers. */
module RealArith {

  lemma MulNonNeg(a: real, b: real)
    requires a >= 0.0 && b >= 0.0
    ensures a * b >= 0.0
  {
  }

  lemma MulPos(a: real, b: real)
    requires a > 0.0 && b > 0.0
    ensures a * b > 0.0
  {
  }

  lemma SqNonNeg(x: real)
    ensures x * x >= 0.0
  {
    if x >= 0.0 {
      MulNonNeg(x, x);
    } else {
      var y := -x;
      MulNonNeg(y, y);
      assert y * y == x * x;
    }
  }

  lemma SqPos(x: real)
    requires x != 0.0
    ensures x * x > 0.0
  {
    if x > 0.0 {
      MulPos(x, x);
    } else {
      var y := -x;
      MulPos(y, y);
      assert y * y == x * x;
    }
  }

  /** A product with a positive factor has the sign of the other factor. */
  lemma PosFactor(k: real, t: real)
    requires k > 0.0 && k * t >= 0.0
    ensures t >= 0.0
  {
    if t < 0.0 {
      MulPos(k, -t);
    }
  }

  /** Multiplying by a non-negative number keeps `<=`. */
  lemma MulLe(a: real, b: real, c: real)
    requires a <= b && c >= 0.0
    ensures a * c <= b * c
  {
    MulNonNeg(b - a, c);
    assert (b - a) * c == b * c - a * c;
  }

  /** A positive factor can be cancelled from both sides of `<=`. */
  lemma CancelLe(a: real, b: real, c: real)
    requires c > 0.0 && a * c <= b * c
    ensures a <= b
  {
    if a > b {
      MulPos(a - b, c);
    }
  }

  /** A non-zero factor can be cancelled from both sides of `==`. */
  lemma CancelEq(a: real, b: real, c: real)
    requires c != 0.0 && a * c == b * c
    ensures a == b
  {
    assert (a - b) * c == 0.0;
  }

  /** Dividing and multiplying back by a non-zero number is the identity. */
  lemma DivMul(x: real, t: real)
    requires t != 0.0
    ensures (x / t) * t == x
  {
  }

  lemma DivPos(x: real, t: real)
    requires x > 0.0 && t > 0.0
    ensures x / t > 0.0
  {
    DivMul(x, t);
    if x / t <= 0.0 {
      MulLe(x / t, 0.0, t);
    }
  }

  /** Fractions over one denominator add their numerators. */
  lemma DivAdd(a: real, b: real, t: real)
    requires t != 0.0
    ensures a / t + b / t == (a + b) / t
  {
    DivMul(a, t);
    DivMul(b, t);
    DivMul(a + b, t);
    assert (a / t + b / t) * t == a + b;
    CancelEq(a / t + b / t, (a + b) / t, t);
  }

  /** Dividing by a positive number keeps the order. */
  lemma DivMono(a: real, b: real, t: real)
    requires a <= b && t > 0.0
    ensures a / t <= b / t
  {
    DivPos(1.0, t);
    DivIsScale(a, t);
    DivIsScale(b, t);
    MulLe(a, b, 1.0 / t);
  }

  /** A part of a positive whole, over the whole, lies in [0, 1]. */
  lemma DivUnit(p: real, t: real)
    requires 0.0 <= p <= t && t > 0.0
    ensures 0.0 <= p / t <= 1.0
  {
    DivMono(p, t, t);
    DivSelf(t);
    DivIsScale(p, t);
    DivPos(1.0, t);
    MulNonNeg(1.0 / t, p);
  }

  lemma DivSelf(x: real)
    requires x != 0.0
    ensures x / x == 1.0
  {
    DivMul(x, x);
    CancelEq(x / x, 1.0, x);
  }

  lemma DivIsScale(x: real, t: real)
    requires t != 0.0
    ensures x / t == (1.0 / t) * x
  {
    DivMul(x, t);
    DivMul(1.0, t);
    assert ((1.0 / t) * x) * t == ((1.0 / t) * t) * x;
    CancelEq(x / t, (1.0 / t) * x, t);
  }

  /** `s / m` lies in [0, 1/2] when `0 <= 2 s <= m`. */
  lemma HalfBound(s: real, m: real)
    requires m > 0.0 && 0.0 <= s && 2.0 * s <= m
    ensures 0.0 <= (1.0 / m) * s <= 0.5
  {
    var q := 1.0 / m;
    DivMul(1.0, m);
    PosFactor(m, q);
    MulNonNeg(q, s);
    MulLe(2.0 * s, m, q);
    assert (2.0 * s) * q == 2.0 * (q * s);
  }

  lemma SplitWeight(p: real, d: real)
    ensures p * d + p * (1.0 - d) == p
  {
  }
}
