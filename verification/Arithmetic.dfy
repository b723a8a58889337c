/** Facts about products and quotients of variables. */
module Arithmetic {
  function Min(a: nat, b: nat): nat { if a < b then a else b }

  lemma MulLess(a: nat, b: nat, n: nat)
    requires a < b
    ensures a * n + n <= b * n
  {
    var d: nat := b - a - 1;
    assert b * n == a * n + n + d * n;
  }

  lemma DivModUnique(p: nat, n: nat, q: nat, r: nat)
    requires p == q * n + r && r < n
    ensures p / n == q && p % n == r
  {
    var q', r' := p / n, p % n;
    assert p == q' * n + r';
    if q < q' {
      MulLess(q, q', n);
    } else if q' < q {
      MulLess(q', q, n);
    }
  }

  lemma DivBound(p: nat, m: nat, n: nat)
    requires p < m * n && n > 0
    ensures p / n < m && (p / n) * n + p % n == p
  {
    if p / n > m { MulLess(m, p / n, n); }
  }

  lemma SquareMonotone(n: nat, m: nat)
    requires n <= m
    ensures n * n <= m * m
  {
    if n < m {
      MulLess(n, m, n);
      MulLess(n, m, m);
    }
  }

  /** A number written with a quotient and a remainder. */
  lemma Digits(q: nat, bound: nat, n: nat, r: nat)
    requires q < bound && r < n
    ensures q * n + r < bound * n && (q * n + r) / n == q && (q * n + r) % n == r
  {
    MulLess(q, bound, n);
    DivModUnique(q * n + r, n, q, r);
  }
}
