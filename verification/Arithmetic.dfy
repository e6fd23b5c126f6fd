/** Division and powers of two. */
module Arithmetic {

  lemma AtLeastOnce(k: nat, m: nat)
    requires k > 0
    ensures k * m >= m
  {
  }

  lemma Distribute(a: int, b: int, m: int)
    ensures (a - b) * m == a * m - b * m && (a + b) * m == a * m + b * m
  {
  }

  /** Quotient and remainder are determined by their equation. */
  lemma DivModUnique(v: int, m: nat, q: int, r: nat)
    requires r < m && v == q * m + r
    ensures v / m == q && v % m == r
  {
    var q', r' := v / m, v % m;
    assert v == q' * m + r' && 0 <= r' < m;
    Distribute(q, q', m);
    Distribute(q', q, m);
    if q' < q { AtLeastOnce(q - q', m); } else if q < q' { AtLeastOnce(q' - q, m); }
  }

  lemma Associate(a: int, b: int, c: int)
    ensures a * (b * c) == (a * b) * c
  {
  }

  /** Adding multiples of the divisor moves the quotient only. */
  lemma ModPlus(v: int, m: nat, k: int)
    requires m > 0
    ensures (v + k * m) / m == v / m + k && (v + k * m) % m == v % m
  {
    Distribute(v / m, k, m);
    DivModUnique(v + k * m, m, v / m + k, v % m);
  }

  lemma ModScale(v: int, m: nat, c: nat)
    requires m > 0 && c > 0
    ensures m * c > 0 && (v * c) % (m * c) == (v % m) * c
  {
    var q, r := v / m, v % m;
    assert v == q * m + r;
    Distribute(q * m, r, c);
    Associate(q, m, c);
    Distribute(m, r, c);
    AtLeastOnce(m - r, c);
    AtLeastOnce(m, c);
    DivModUnique(v * c, m * c, q, r * c);
  }

  lemma ModMod(v: int, m: nat, c: nat)
    requires m > 0 && c > 0
    ensures c * m > 0 && (v % (c * m)) % m == v % m
  {
    AtLeastOnce(c, m);
    var q, r := v / (c * m), v % (c * m);
    assert v == q * (c * m) + r;
    Associate(q, c, m);
    ModPlus(r, m, q * c);
  }

  function Pow(b: nat, n: nat): (p: nat)
    ensures b > 0 ==> p > 0
  {
    if n == 0 then 1 else b * Pow(b, n - 1)
  }

  lemma {:induction false} PowSum(base: nat, a: nat, b: nat)
    ensures Pow(base, a + b) == Pow(base, a) * Pow(base, b)
  {
    if a != 0 {
      PowSum(base, a - 1, b);
      Associate(base, Pow(base, a - 1), Pow(base, b));
    }
  }

  lemma Powers()
    ensures Pow(2, 2) == 4 && Pow(2, 5) == 32 && Pow(2, 12) == 0x1000 && Pow(2, 14) == 0x4000 && Pow(2, 19) == 0x8_0000
    ensures Pow(2, 64) == 0x1_0000_0000_0000_0000
    ensures Pow(2, 10) == 0x400 && Pow(2, 21) == 0x20_0000 && Pow(2, 29) == 0x2000_0000
    ensures Pow(2, 63) == 0x8000_0000_0000_0000
  {
    assert Pow(2, 3) == 8;
    assert Pow(2, 7) == 0x80;
    PowSum(2, 7, 7);
    PowSum(2, 5, 5);
    PowSum(2, 10, 2);
    PowSum(2, 14, 5);
    PowSum(2, 19, 2);
    PowSum(2, 19, 10);
    PowSum(2, 29, 29);
    PowSum(2, 58, 5);
    PowSum(2, 63, 1);
  }
}
