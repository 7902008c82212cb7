// Small facts about products, quotients and remainders of naturals.
module Arith {

  lemma {:induction false} MulStep(a: nat, b: nat, n: nat)
    requires a < b
    ensures a * n + n <= b * n
    decreases b - a
  {
    assert (a + 1) * n == a * n + n;
    if a + 1 < b {
      MulStep(a + 1, b, n);
    }
  }

  lemma MulMono(a: nat, b: nat, n: nat)
    requires a <= b
    ensures a * n <= b * n
  {
    if a < b { MulStep(a, b, n); }
  }

  /** Quotient and remainder are determined by the defining equation. */
  lemma DivModUnique(x: nat, n: nat, q: nat, r: nat)
    requires r < n && x == q * n + r
    ensures x / n == q && x % n == r
  {
    var q', r' := x / n, x % n;
    DivModJoin(x, n);
    if q' < q { MulStep(q', q, n); }
    if q < q' { MulStep(q, q', n); }
  }

  lemma DivModJoin(x: nat, n: nat)
    requires n > 0
    ensures x == x / n * n + x % n && x % n < n
  {
    assert x == n * (x / n) + x % n;
    assert n * (x / n) == x / n * n;
  }

  lemma DivBelow(x: nat, n: nat, q: nat)
    requires n > 0
    ensures x / n < q <==> x < q * n
  {
    DivModJoin(x, n);
    if x / n < q { MulStep(x / n, q, n); } else { MulMono(q, x / n, n); }
  }

  lemma SplitShift(x: nat, n: nat)
    requires 0 < n <= x
    ensures x / n == (x - n) / n + 1 && x % n == (x - n) % n
  {
    var q, r := (x - n) / n, (x - n) % n;
    DivModJoin(x - n, n);
    assert (q + 1) * n == q * n + n;
    DivModUnique(x, n, q + 1, r);
  }
}
