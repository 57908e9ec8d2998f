/** Facts about division that the solver needs spelled out. */
module Arithmetic {

  lemma MulGrows(d: int, m: int)
    requires 0 < m
    ensures d >= 1 ==> d * m >= m
    ensures d <= -1 ==> d * m <= -m
  {
    if d >= 1 {
      assert (d - 1) * m >= 0;
    } else if d <= -1 {
      assert (-d - 1) * m >= 0;
    }
  }

  lemma ModUnique(x: int, k: int, m: int, r: int)
    requires 0 <= r < m && x == k * m + r
    ensures x % m == r
  {
    var q := x / m;
    assert x == m * q + x % m;
    assert (q - k) * m == q * m - k * m == r - x % m;
    MulGrows(q - k, m);
  }

  lemma DivUnique(x: int, k: int, m: int, r: int)
    requires 0 <= r < m && x == k * m + r
    ensures x / m == k
  {
    ModUnique(x, k, m, r);
    assert x == m * (x / m) + r;
    assert (x / m - k) * m == 0;
    MulGrows(x / m - k, m);
  }
}
