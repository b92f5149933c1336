/** Small facts of integer arithmetic that the solver does not find on its own. */
module Arith {

  /** Sign facts about a product with a positive factor. */
  lemma MulSign(p: int, k: int)
    requires p > 0
    ensures k >= 0 ==> p * k >= 0
    ensures k >= 1 ==> p * k >= p
    ensures k <= -1 ==> p * k <= -p
  {
  }

  lemma MulAssoc(a: int, b: int, c: int)
    ensures (a * b) * c == a * (b * c)
  {
  }

  lemma MulDistrib(a: int, b: int, c: int)
    ensures a * (b + c) == a * b + a * c
  {
  }

  lemma MulLe(a: int, b: int, c: int)
    requires a >= 0 && b <= c
    ensures a * b <= a * c
  {
    assert a * c - a * b == a * (c - b);
  }

  /** Euclidean division is unique: the quotient and remainder are determined. */
  lemma DivModUnique(v: int, p: int, q: int, r: int)
    requires p > 0 && 0 <= r < p && v == p * q + r
    ensures v / p == q && v % p == r
  {
    var q0, r0 := v / p, v % p;
    assert p * (q - q0) == r0 - r;
    MulSign(p, q - q0);
  }

  /** Dividing a value below `d * p` by `d` gives less than `p`. */
  lemma DivBelow(v: int, d: int, p: int)
    requires d > 0 && 0 <= v < d * p
    ensures 0 <= v / d < p
  {
    var q := v / d;
    assert d * q + v % d == v;
    assert d * (q - p) == d * q - d * p;
    MulSign(d, q - p);
    MulSign(d, q + 1);
  }
}
