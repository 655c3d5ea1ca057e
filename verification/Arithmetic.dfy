/** Facts about quotients and remainders that the codecs need. */
module Arithmetic {

  lemma ProductGap(q: nat, q': nat, m: nat)
    ensures q < q' ==> q' * m - q * m >= m
    ensures q' <= q ==> q' * m <= q * m
  {
    var d := q' - q;
    assert q' * m - q * m == d * m;
    if d >= 1 {
      assert d * m == m + (d - 1) * m;
    }
  }

  lemma EuclidUnique(m: nat, q: nat, r: nat, q': nat, r': nat)
    requires r < m && r' < m && q * m + r == q' * m + r'
    ensures q == q' && r == r'
  {
    ProductGap(q, q', m);
    ProductGap(q', q, m);
  }

  lemma RemainderUnique(v: nat, q: nat, m: nat)
    requires v < m
    ensures (v + q * m) % m == v
  {
    var t := v + q * m;
    assert t == (t / m) * m + t % m;
    EuclidUnique(m, t / m, t % m, q, v);
  }

  lemma SumOfRemainder(a: nat, b: nat, m: nat)
    requires m > 0
    ensures (a % m + b) % m == (a + b) % m
  {
    var q, r := (a % m + b) / m, (a % m + b) % m;
    assert a + b == r + (q + a / m) * m;
    RemainderUnique(r, q + a / m, m);
  }

  lemma HalfQuotient(v: nat, m: nat)
    requires m > 0
    ensures v / (2 * m) == v / 2 / m
  {
    var h := v / 2;
    var q, r := h / m, h % m;
    assert h == q * m + r && r < m;
    assert v == 2 * h + v % 2;
    assert q * (2 * m) == 2 * (q * m);
    QuotientUnique(v, q, 2 * m, 2 * r + v % 2);
  }

  lemma QuotientUnique(v: nat, q: nat, m: nat, r: nat)
    requires r < m && v == q * m + r
    ensures v / m == q
  {
    assert v == (v / m) * m + v % m;
    EuclidUnique(m, v / m, v % m, q, r);
  }

  lemma MultipleOf(q: nat, m: nat)
    requires m > 0
    ensures (q * m) % m == 0 && (q * m) / m == q
  {
    var t := q * m;
    assert t == (t / m) * m + t % m;
    EuclidUnique(m, t / m, t % m, q, 0);
  }
}
