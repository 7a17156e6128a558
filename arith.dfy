/** Facts about natural division and remainder used by the curve and the grid. */
module Arith {

  /** Multiplication by a natural number is monotone. */
  lemma MulMonotone(a: nat, b: nat, d: nat)
    requires a <= b
    ensures a * d <= b * d
  {
    var k := b - a;
    assert b * d == a * d + k * d;
  }

  /** Quotient and remainder are fixed by any decomposition v == q * d + r with r < d. */
  lemma DivModUnique(v: nat, d: nat, q: nat, r: nat)
    requires r < d
    requires v == q * d + r
    ensures v / d == q && v % d == r
  {
    var q', r' := v / d, v % d;
    assert v == q' * d + r';
    if q' < q {
      MulMonotone(q' + 1, q, d);
    } else if q < q' {
      MulMonotone(q + 1, q', d);
    }
  }

  /** A number below the divisor is its own remainder. */
  lemma ModBelow(v: nat, d: nat)
    requires v < d
    ensures v % d == v && v / d == 0
  {
    DivModUnique(v, d, 0, v);
  }

  /** Splitting off a block of m * d: the low digit below d, the digit above it, and the rest. */
  lemma SplitMod(v: nat, d: nat, m: nat)
    requires d > 0 && m > 0
    ensures (v % (m * d)) % d == v % d
    ensures (v % (m * d)) / d == (v / d) % m
    ensures (v / d) / m == v / (m * d)
  {
    var md := m * d;
    var top, a := v / md, v % md;
    DivMod(v, md);
    var a1, a0 := a / d, a % d;
    DivMod(a, d);
    if a1 >= m {
      MulMonotone(m, a1, d);
    }
    Regroup(top, m, d, a1, a0);
    DivModUnique(v, d, top * m + a1, a0);
    DivModUnique(v / d, m, top, a1);
  }

  /** Euclidean division of a natural number by a positive one. */
  lemma DivMod(v: nat, d: nat)
    requires d > 0
    ensures v == (v / d) * d + v % d && v % d < d
  {
  }

  /** Moving the digit `a1` from the low part into the top part. */
  lemma Regroup(top: nat, m: nat, d: nat, a1: nat, a0: nat)
    ensures top * (m * d) + (a1 * d + a0) == (top * m + a1) * d + a0
  {
    assert top * (m * d) == (top * m) * d;
  }

  /** Reflecting y inside a multiple n of s reflects its remainder modulo s. */
  lemma ReflectMod(n: nat, s: nat, y: nat)
    requires s > 0 && n % s == 0 && y < n
    ensures (n - 1 - y) % s == s - 1 - y % s
  {
    var t, a, b := n / s, y / s, y % s;
    assert n == t * s;
    assert y == a * s + b;
    if t <= a {
      MulMonotone(t, a, s);
    }
    assert t * s == (t - a - 1) * s + a * s + s;
    assert n - 1 - y == (t - a - 1) * s + (s - 1 - b);
    DivModUnique(n - 1 - y, s, t - a - 1, s - 1 - b);
  }
}
