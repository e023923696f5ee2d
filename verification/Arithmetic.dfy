// Facts about products and remainders.

module Arithmetic {

  lemma DivModUnique(a: nat, d: nat, q: nat, r: nat)
    requires a == q * d + r && r < d
    ensures a % d == r && a / d == q
  {
    assert a / d * d + a % d == q * d + r;
    TimesGrows(d, q, a / d);
    TimesGrows(d, a / d, q);
  }

  lemma {:induction false} TimesGrows(d: nat, m: nat, n: nat)
    ensures m < n ==> m * d + d <= n * d
    decreases n
  {
    if m + 1 < n {
      TimesGrows(d, m, n - 1);
    }
    assert n * d == (n - 1) * d + d;
  }

  lemma TimesAtMost(m: nat, n: nat, k: nat)
    ensures m <= n ==> m * k <= n * k
  {
    TimesGrows(k, m, n);
  }

  lemma Quotient(a: nat, w: nat)
    requires w > 0
    ensures a / w * w <= a < a / w * w + w
  {
  }

  lemma QuotientAtMostIff(a: nat, w: nat, n: nat)
    requires w > 0
    ensures a / w <= n <==> a < n * w + w
  {
    Quotient(a, w);
    TimesGrows(w, n, a / w);
    TimesAtMost(a / w, n, w);
  }
}
