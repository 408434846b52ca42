/** Products and remainders, away from everything else. */
module Arithmetic {

  lemma Monotone(a: int, b: int, c: nat)
    ensures a <= b ==> a * c <= b * c
  {
  }

  /** A remainder is the one number below the modulus that completes a multiple. */
  lemma RemainderUnique(n: nat, m: nat, k: nat, r: nat)
    requires n == k * m + r && r < m
    ensures n % m == r
  {
    var q, x := n / m, n % m;
    assert n == q * m + x && x < m;
    Monotone(q + 1, k, m);
    Monotone(k + 1, q, m);
  }
}
