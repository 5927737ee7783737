/** The few facts about products, quotients, powers of two and set sizes the other modules share. */
module Arith {
  function Max(a: nat, b: nat): nat { if a < b then b else a }

  lemma {:induction false} MulAtLeast(k: nat, n: nat)
    requires k >= 1
    ensures k * n >= n
  {
    if k > 1 { MulAtLeast(k - 1, n); assert k * n == (k - 1) * n + n; }
  }

  /** A quotient and remainder, once found, are the ones `/` and `%` give. */
  lemma DivModUnique(x: int, n: nat, q: int, r: nat)
    requires n > 0 && r < n && x == q * n + r
    ensures x % n == r && x / n == q
  {
    var q', r' := x / n, x % n;
    assert x == q' * n + r';
    assert q' * n - q * n == (q' - q) * n;
    if q' > q {
      MulAtLeast(q' - q, n);
    } else if q' < q {
      assert q * n - q' * n == (q - q') * n;
      MulAtLeast(q - q', n);
    }
  }

  lemma SubsetSize<T>(a: set<T>, b: set<T>)
    requires a <= b
    ensures |a| <= |b|
  {
    assert b == a + (b - a);
  }
}
