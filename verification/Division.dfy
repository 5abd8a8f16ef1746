/** Products and quotients of natural numbers. */
module Division {

  lemma MulMonotone(a: nat, b: nat, c: nat)
    requires a <= b
    ensures a * c <= b * c
  {
  }

  lemma MulCancel(a: nat, b: nat, c: nat)
    requires a * c < b * c
    ensures a < b
  {
  }

  lemma DivBelow(n: nat, p: nat, q: nat)
    requires p > 0 && n < q * p
    ensures n / p < q
  {
  }

  lemma DivMonotone(a: nat, b: nat, p: nat)
    requires p > 0 && a <= b
    ensures a / p <= b / p
  {
    if a / p > b / p {
      MulMonotone(b / p + 1, a / p, p);
    }
  }

  lemma SmallMod(n: nat, m: nat)
    requires n < m
    ensures n % m == n
  {
  }

  lemma QuotientBounds(n: nat, p: nat)
    requires p > 0
    ensures (n / p) * p <= n < (n / p + 1) * p
  {
  }

  lemma DivAntitone(n: nat, p: nat, p': nat)
    requires 0 < p <= p'
    ensures n / p' <= n / p
  {
    var q := n / p + 1;
    QuotientBounds(n, p);
    MulMonotone(p, p', q);
    assert p * q == q * p && p' * q == q * p';
    DivBelow(n, p', q);
  }

  lemma MulDiv(m: nat, p: nat)
    requires p > 0
    ensures (m * p) / p == m
  {
    if (m * p) / p < m { MulMonotone((m * p) / p + 1, m, p); }
    if (m * p) / p > m { MulMonotone(m + 1, (m * p) / p, p); }
  }

  lemma MulExceeds(k: nat, d: nat)
    requires d > 0
    ensures k + d - 1 < (k + 1) * d
  {
  }

  /** Rounding up a quotient. */
  lemma CeilBounds(n: nat, r: nat)
    requires r > 0
    ensures var q := (n + r - 1) / r; q * r >= n && (q > 0 ==> (q - 1) * r < n)
  {
  }

  lemma MulAssoc(a: nat, b: nat, c: nat)
    ensures (a * b) * c == a * (b * c)
  {
  }
}
