/** The C int, and division with remainder for the modules that reason about `%`. */
module Arithmetic {

  /** A 32-bit int: arithmetic on it verifies only where it cannot overflow. */
  newtype int32 = x: int | -0x8000_0000 <= x < 0x8000_0000

  lemma ProductGrows(d: int, k: int)
    requires 0 < d
    ensures 1 <= k ==> d <= d * k
    ensures k <= -1 ==> d * k <= -d
  {
  }

  lemma RemainderIsUnique(x: int, d: int, q: int, r: int)
    requires 0 <= r < d
    requires x == d * q + r
    ensures x % d == r && x / d == q
  {
    assert d * (q - x / d) == x % d - r;
    ProductGrows(d, q - x / d);
  }

  lemma MultipleHasNoRemainder(d: int, q: int)
    requires 0 < d
    ensures (d * q) % d == 0 && (d * q) / d == q
  {
    RemainderIsUnique(d * q, d, q, 0);
  }

  ghost function Pow2(n: nat): nat {
    if n == 0 then 1 else 2 * Pow2(n - 1)
  }

  lemma Pow2Ten(n: nat)
    ensures Pow2(n + 10) == 1024 * Pow2(n)
  {
    assert Pow2(n + 5) == 2 * Pow2(n + 4) == 4 * Pow2(n + 3) == 8 * Pow2(n + 2) == 16 * Pow2(n + 1);
    assert Pow2(n + 10) == 2 * Pow2(n + 9) == 4 * Pow2(n + 8) == 8 * Pow2(n + 7) == 16 * Pow2(n + 6);
  }
}
