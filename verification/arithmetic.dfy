/** Facts about remainders and products that several modules need. */
module Arithmetic {

  /** The remainder is the r below m with x == q * m + r. */
  lemma ModUnique(x: nat, m: nat, q: nat, r: nat)
    requires m > 0 && x == q * m + r && r < m
    ensures x % m == r
  {
    var d := x / m - q;
    assert d * m == r - x % m;
    MulAtLeast(d, m);
  }

  lemma MulAtLeast(d: int, m: int)
    requires m > 0
    ensures d >= 1 ==> d * m >= m
    ensures d <= -1 ==> d * m <= -m
  {
  }

  lemma ModStep(i: nat, m: nat)
    requires 0 < m <= i
    ensures i % m == (i - m) % m <= i
  {
    var q := (i - m) / m;
    assert i - m == q * m + (i - m) % m;
    assert i == (q + 1) * m + (i - m) % m;
    ModUnique(i, m, q + 1, (i - m) % m);
  }
}
