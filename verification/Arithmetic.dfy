/** Quotients and remainders, one step at a time. */
module Arithmetic {
  lemma WrapNext(x: nat, m: nat)
    requires 0 < m
    ensures (x + 1) % m == if x % m + 1 == m then 0 else x % m + 1
  {
    FloorStep(x, m);
  }

  lemma QuotientUnique(v: int, m: nat, q: int, r: nat)
    requires v == q * m + r && r < m
    ensures v / m == q && v % m == r
  {
    var q', r' := v / m, v % m;
    assert (q - q') * m == r' - r;
    if q != q' {
      FarApart(q - q', m);
      assert false;
    }
  }

  lemma FarApart(k: int, m: nat)
    requires k != 0
    ensures k * m >= m || k * m <= 0 - m
  {
    if k > 0 {
      TimesAtLeast(k, m);
    } else {
      TimesAtLeast(0 - k, m);
      assert (0 - k) * m == 0 - k * m;
    }
  }

  lemma {:induction false} TimesAtLeast(k: nat, m: nat)
    requires k > 0
    ensures k * m >= m
  {
    if k > 1 {
      TimesAtLeast(k - 1, m);
      assert k * m == (k - 1) * m + m;
    }
  }

  lemma FloorStep(x: int, m: nat)
    requires 0 < m
    ensures (x + 1) / m == x / m + (if x % m + 1 == m then 1 else 0)
    ensures (x + 1) % m == if x % m + 1 == m then 0 else x % m + 1
  {
    var q, r := x / m, x % m;
    if r + 1 == m {
      assert x + 1 == (q + 1) * m + 0;
      QuotientUnique(x + 1, m, q + 1, 0);
    } else {
      assert x + 1 == q * m + (r + 1);
      QuotientUnique(x + 1, m, q, r + 1);
    }
  }
}
