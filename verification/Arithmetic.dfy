/** Facts about quotients, remainders and multiples of a variable number. */
module Arithmetic {

  lemma MulAtLeast(k: int, m: nat)
    requires k >= 1
    ensures k * m >= m
  {
  }

  lemma EuclidUnique(q: int, r: int, q': int, r': int, m: nat)
    requires 0 <= r < m && 0 <= r' < m && q * m + r == q' * m + r'
    ensures q == q' && r == r'
  {
    assert (q - q') * m == q * m - q' * m == r' - r;
    if q > q' { MulAtLeast(q - q', m); }
    if q < q' {
      assert (q' - q) * m == -((q - q') * m);
      MulAtLeast(q' - q, m);
    }
  }

  lemma DivModUnique(x: int, q: int, r: int, m: nat)
    requires 0 <= r < m && x == q * m + r
    ensures x % m == r && x / m == q
  {
    EuclidUnique(q, r, x / m, x % m, m);
  }

  lemma ModShift(x: int, k: int, m: nat)
    requires m > 0
    ensures (x + k * m) % m == x % m
  {
    var q := x / m;
    assert x + k * m == (q + k) * m + x % m;
    DivModUnique(x + k * m, q + k, x % m, m);
  }

  /** One subtraction is enough below twice the modulus. */
  lemma ModOfSum(x: nat, m: nat)
    requires x < 2 * m
    ensures x % m == if x < m then x else x - m
  {
    if x < m { DivModUnique(x, 0, x, m); } else { DivModUnique(x, 1, x - m, m); }
  }

  lemma SmallMultipleIsZero(k: int, m: nat)
    requires -1 * m < k * m < m
    ensures k == 0
  {
    if k > 0 { MulAtLeast(k, m); }
    if k < 0 { assert (-k) * m == -(k * m); MulAtLeast(-k, m); }
  }
}
