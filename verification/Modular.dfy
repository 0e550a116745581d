/** Remainders by a modulus that is not a constant. */
module Modular {
  lemma Grows(d: int, m: int)
    requires 0 < m
    ensures d >= 1 ==> d * m >= m
    ensures d <= -1 ==> d * m <= -m
  {
    if d >= 1 {
      assert (d - 1) * m >= 0;
    } else {
      assert (-d) * m >= 0;
      assert d <= -1 ==> (-d - 1) * m >= 0;
    }
  }

  lemma SmallMultiple(d: int, m: int, e: int)
    requires 0 < m && d * m == e && -m < e < m
    ensures d == 0
  {
    Grows(d, m);
  }

  /** The remainder is the only one in range. */
  lemma Remainder(a: nat, q: nat, m: nat, r: nat)
    requires 0 < m && r < m && a == q * m + r
    ensures a % m == r && a / m == q
  {
    var p, s := a / m, a % m;
    assert a == p * m + s;
    assert (p - q) * m == r - s;
    SmallMultiple(p - q, m, r - s);
  }

  lemma Successor(k: nat, m: nat)
    requires 0 < m
    ensures (k + 1) % m == if k % m + 1 == m then 0 else k % m + 1
  {
    var q, r := k / m, k % m;
    if r + 1 == m {
      assert k + 1 == (q + 1) * m;
      Remainder(k + 1, q + 1, m, 0);
    } else {
      Remainder(k + 1, q, m, r + 1);
    }
  }

  /** Fewer than m apart, different remainders. */
  lemma Distinct(a: nat, b: nat, m: nat)
    requires a < b < a + m
    ensures a % m != b % m
  {
    if a % m == b % m {
      var d := b / m - a / m;
      assert d * m == b - a;
      SmallMultiple(d, m, b - a);
    }
  }
}
