/** Quotients, remainders and multiples of natural numbers. */
module Division {

  lemma DivMod(n: nat, d: nat)
    requires d > 0
    ensures n == n / d * d + n % d && n / d >= 0
  {
  }

  lemma MulMono(a: nat, b: nat, f: nat)
    requires a <= b
    ensures a * f <= b * f
  {
    assert (b - a) * f >= 0;
  }

  lemma QuotientIs(n: nat, f: nat, q: nat, r: nat)
    requires f > 0 && n == q * f + r && r < f
    ensures n / f == q && n % f == r
  {
    var q', r' := n / f, n % f;
    assert n == q' * f + r';
    if q < q' {
      assert (q + 1) * f <= q' * f by { MulMono(q + 1, q', f); }
    } else if q' < q {
      assert (q' + 1) * f <= q * f by { MulMono(q' + 1, q, f); }
    }
  }

  predicate Aligned(n: nat, alignment: nat)
    requires alignment > 0
  {
    n % alignment == 0
  }

  lemma AlignedSum(x: nat, y: nat, p: nat)
    requires p > 0 && Aligned(x, p) && Aligned(y, p)
    ensures Aligned(x + y, p)
  {
    var a, b := x / p, y / p;
    assert x == a * p && y == b * p;
    assert (a + b) * p == a * p + b * p;
    QuotientIs(x + y, p, a + b, 0);
  }

  lemma AlignedDifference(x: nat, y: nat, p: nat)
    requires p > 0 && y <= x && Aligned(x, p) && Aligned(y, p)
    ensures Aligned(x - y, p)
  {
    var a, b := x / p, y / p;
    assert x == a * p && y == b * p;
    SmallerQuotient(a, b, p);
    assert (a - b) * p == a * p - b * p;
    QuotientIs(x - y, p, a - b, 0);
  }

  lemma SmallerQuotient(a: nat, b: nat, p: nat)
    requires p > 0 && b * p <= a * p
    ensures b <= a
  {
    if a < b {
      MulMono(a + 1, b, p);
    }
  }

  lemma AlignedTwice(n: nat, m: nat, p: nat)
    requires m > 0 && p > 0 && Aligned(n, m) && Aligned(m, p)
    ensures Aligned(n, p)
  {
    var a, b := n / m, m / p;
    assert n == a * m && m == b * p;
    assert a * (b * p) == (a * b) * p;
    QuotientIs(n, p, a * b, 0);
  }

  lemma OffsetOf(base: nat, m: nat, offset: nat)
    requires m > 0 && Aligned(base, m) && offset < m
    ensures (base + offset) % m == offset
  {
    var q := base / m;
    assert base == q * m;
    QuotientIs(base + offset, m, q, offset);
  }

  /** Rounding down to whole multiples. */
  lemma RoundDown(n: nat, p: nat)
    requires p > 0
    ensures Aligned(n / p * p, p) && n / p * p <= n < n / p * p + p
  {
    DivMod(n, p);
    QuotientIs(n / p * p, p, n / p, 0);
  }
}
