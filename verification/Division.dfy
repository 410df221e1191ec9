/** Quotients and remainders of products, which the solver does not find by itself. */
module Division {

  lemma Remainder(n: nat, m: nat, a: nat, r: nat)
    requires m >= 1 && n == m * a + r && r < m
    ensures n % m == r && n / m == a
  {
    var q := n / m;
    assert n == m * q + n % m;
    assert q < a ==> m * (q + 1) <= m * a;
    assert a < q ==> m * (a + 1) <= m * q;
  }

  /** Dividing by one number and then by another is dividing by their product. */
  lemma DivideTwice(n: nat, k: nat, m: nat)
    requires k >= 1 && m >= 1
    ensures k * m >= 1 && n / k / m == n / (k * m)
  {
    var q, r := n / k, n % k;
    var a, b := q / m, q % m;
    assert n == k * q + r && q == m * a + b;
    ProductFits(k, m, b, r);
    assert k * (m * a) == (k * m) * a;
    assert k * q == k * (m * a) + k * b;
    Remainder(n, k * m, a, k * b + r);
  }

  lemma ProductFits(k: nat, m: nat, b: nat, r: nat)
    requires b < m && r < k
    ensures k * m >= 1 && k * b + r < k * m
  {
    assert k * (b + 1) <= k * m;
  }
}
