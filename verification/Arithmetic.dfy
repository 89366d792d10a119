/** Quotients and remainders from the division written out. */
module Arithmetic {

  lemma DivIs(a: int, k: int, q: int, r: int)
    requires k > 0 && 0 <= r < k && a == k * q + r
    ensures a / k == q && a % k == r
  {
    var d := a / k - q;
    assert k * d == r - a % k;
    Grows(k, d);
  }

  lemma Grows(k: int, d: int)
    requires k > 0
    ensures d >= 1 ==> k * d >= k
    ensures d <= -1 ==> k * d <= -k
  {
  }

  /** Adding a multiple of the divisor adds to the quotient. */
  lemma DivShift(a: int, k: int, m: int)
    requires k > 0
    ensures (a + k * m) / k == a / k + m
  {
    var q, r := a / k, a % k;
    assert a + k * m == k * (q + m) + r;
    DivIs(a + k * m, k, q + m, r);
  }

  lemma DivStep(y: int, k: int)
    requires k > 0
    ensures y / k - (y - 1) / k == if y % k == 0 then 1 else 0
  {
    var q, r := y / k, y % k;
    assert y == k * q + r;
    if r == 0 {
      assert y - 1 == k * (q - 1) + (k - 1);
      DivIs(y - 1, k, q - 1, k - 1);
    } else {
      assert y - 1 == k * q + (r - 1);
      DivIs(y - 1, k, q, r - 1);
    }
  }
}
