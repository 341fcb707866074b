/** Facts about division that the solver does not find by itself. */
module Arithmetic {
  const U32: nat := 0x1_0000_0000

  lemma MulBound(d: int, m: int)
    requires m > 0
    ensures d >= 1 ==> d * m >= m
    ensures d <= -1 ==> d * m <= -m
  {
    if d >= 1 {
      assert d * m == m + (d - 1) * m;
    } else if d <= -1 {
      assert d * m == -m + (d + 1) * m;
    }
  }

  /** Quotient and remainder are determined by their equation. */
  lemma Residue(x: int, m: nat, q: int, y: nat)
    requires m > 0 && x == q * m + y && y < m
    ensures x % m == y && x / m == q
  {
    var d := x / m - q;
    assert d * m == y - x % m;
    MulBound(d, m);
  }

  lemma ModMinus(a: nat, n: nat)
    requires 0 < n <= a
    ensures (a - n) % n == a % n && (a - n) / n == a / n - 1
  {
    assert a - n == (a / n - 1) * n + a % n;
    Residue(a - n, n, a / n - 1, a % n);
  }

  function Pow2(k: nat): (p: nat)
    ensures p >= 1
  {
    if k == 0 then 1 else 2 * Pow2(k - 1)
  }

  lemma Powers()
    ensures Pow2(24) == 0x100_0000 && Pow2(32) == U32
  {
    assert Pow2(8) == 0x100;
    assert Pow2(16) == 0x1_0000;
  }
}
