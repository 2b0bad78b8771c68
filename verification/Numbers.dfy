/** Powers and quotients, for the places where bits, digits and blocks are cut out of numbers. */
module Numbers {
  function Power2(n: nat): (p: nat)
    ensures p > 0
  {
    if n == 0 then 1 else 2 * Power2(n - 1)
  }

  function Pow10(k: nat): (p: nat)
    ensures p > 0
  {
    if k == 0 then 1 else 10 * Pow10(k - 1)
  }

  lemma MulAtLeast(k: int, m: nat)
    requires k >= 1
    ensures k * m >= m
  {}

  /** Quotient and remainder are determined by the remainder's range. */
  lemma DivModOf(q: int, r: nat, m: nat)
    requires r < m
    ensures (q * m + r) / m == q && (q * m + r) % m == r
  {
    var x := q * m + r;
    var d, e := x / m, x % m;
    assert (q - d) * m == e - r;
    if q > d {
      MulAtLeast(q - d, m);
      assert false;
    } else if q < d {
      MulAtLeast(d - q, m);
      assert false;
    }
  }

  /** Dividing twice is dividing once by the product. */
  lemma DivideTwice(x: nat, a: nat, m: nat)
    requires a > 0 && m > 0
    ensures a * m > 0 && x / a / m == x / (a * m)
  {
    var q, r, low := x / a / m, x / a % m, x % a;
    assert x / a == q * m + r;
    Regroup(x, q, r, low, a, m);
    DivModOf(q, r * a + low, a * m);
  }

  lemma Regroup(x: nat, q: nat, r: nat, low: nat, a: nat, m: nat)
    requires low < a && r < m && x == (q * m + r) * a + low
    ensures r * a + low < a * m && x == q * (a * m) + (r * a + low)
  {
    assert (q * m + r) * a == q * (a * m) + r * a;
    MulAtLeast(m - r, a);
    assert (m - r) * a == a * m - r * a;
  }
}
