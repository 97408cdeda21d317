/** Integers of fixed width as C computes with them, and division. */
module CInts {

  /** The int32 that a 32-bit result is stored as; overflow wraps. */
  function ToInt32(x: int): int {
    var y := x % 0x1_0000_0000;
    if y < 0x8000_0000 then y else y - 0x1_0000_0000
  }

  // ---------- Division ----------

  lemma DivideUnique(a: int, m: nat, q: int, r: int)
    requires 0 < m && a == q * m + r && 0 <= r < m
    ensures a / m == q
  {
    assert a == a / m * m + a % m;
    SameQuotient(a / m, a % m, q, r, m);
  }

  lemma SameQuotient(p: int, s: int, q: int, r: int, m: nat)
    requires p * m + s == q * m + r && 0 <= s < m && 0 <= r < m
    ensures p == q
  {
    Multiply(q - p, m);
    assert (q - p) * m == q * m - p * m;
  }

  lemma Multiply(d: int, m: nat)
    requires m > 0
    ensures d > 0 ==> d * m >= m && d * m >= d
    ensures d < 0 ==> d * m <= 0 - m
  {
  }
}
