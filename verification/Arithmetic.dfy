/** Laws of multiplication and division, one at a time, for proofs whose factors are large terms. */
module Arithmetic {

  lemma Associate(a: int, b: int, c: int)
    ensures a * (b * c) == a * b * c
  {
  }

  lemma Distribute(a: int, b: int, c: int)
    ensures a * (b + c) == a * b + a * c
    ensures a * (b - c) == a * b - a * c
  {
  }

  lemma Monotone(a: int, b: int, c: int)
    requires a <= b && c >= 0
    ensures a * c <= b * c
  {
  }

  lemma NonNegative(a: nat, b: nat)
    ensures a * b >= 0
    ensures a > 0 && b > 0 ==> a * b >= a && a * b >= b
  {
  }

  /** Quotient and remainder are determined by what they stand for. */
  lemma Divided(x: int, m: nat, k: int, r: int)
    requires m > 0 && x == m * k + r && 0 <= r < m
    ensures x / m == k && x % m == r
  {
    var d := x / m - k;
    assert m * d == r - x % m;
    assert d >= 1 ==> m * d >= m;
    assert d <= -1 ==> m * d <= -1 * m;
  }

  lemma RemainderAdds(c: nat, k: nat, m: nat)
    requires m > 0
    ensures (c % m + k) % m == (c + k) % m
  {
    var q, d, r := c / m, (c % m + k) / m, (c % m + k) % m;
    Distribute(m, q, d);
    Divided(c + k, m, q + d, r);
  }
}
