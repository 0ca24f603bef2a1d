/** Integer facts shared by the models: powers of two, rounding up, and the
    division facts that the allocators and the FAT reader rest on. */
module Arithmetic {

  /** Largest value of the source's `usize`. */
  const USIZE_MAX: nat := 0xFFFF_FFFF_FFFF_FFFF

  function Min(x: int, y: int): int { if x < y then x else y }

  function Max(x: int, y: int): int { if x < y then y else x }

  function Pow2(n: nat): (r: nat)
    ensures r > 0
  {
    if n == 0 then 1 else 2 * Pow2(n - 1)
  }

  lemma {:induction false} Pow2Monotone(a: nat, b: nat)
    requires a <= b
    ensures Pow2(a) <= Pow2(b)
    decreases b
  {
    if a < b {
      Pow2Monotone(a, b - 1);
    }
  }

  lemma {:induction false} Pow2Add(a: nat, b: nat)
    ensures Pow2(a + b) == Pow2(a) * Pow2(b)
  {
    if b > 0 {
      Pow2Add(a, b - 1);
      assert Pow2(a + b) == 2 * (Pow2(a) * Pow2(b - 1));
    }
  }

  /** The powers of two that are word sizes. */
  lemma WordSizes()
    ensures Pow2(15) == 0x8000 && Pow2(16) == 0x1_0000
    ensures Pow2(63) == 0x8000_0000_0000_0000 && Pow2(64) == 0x1_0000_0000_0000_0000
  {
    assert Pow2(4) == 16;
    Pow2Add(4, 4);
    Pow2Add(8, 8);
    Pow2Add(16, 16);
    Pow2Add(32, 32);
    assert Pow2(16) == 2 * Pow2(15) && Pow2(64) == 2 * Pow2(63);
  }

  /** The exponent of `next_power_of_two`: the least k with n <= 2^k. */
  function CeilLog2(n: nat): (k: nat)
    ensures n <= Pow2(k)
    ensures k > 0 ==> Pow2(k - 1) < n
  {
    if n <= 1 then 0 else 1 + CeilLog2((n + 1) / 2)
  }

  /** `next_multiple_of`. */
  function AlignUp(x: nat, m: nat): (r: nat)
    requires m > 0
    ensures r % m == 0
    ensures x <= r < x + m
  {
    if x % m == 0 then x else
      ModStep(x, m);
      x + (m - x % m)
  }

  lemma ModStep(x: nat, m: nat)
    requires m > 0
    ensures (x + (m - x % m)) % m == 0
  {
    assert x + (m - x % m) == m * (x / m + 1);
    MultipleMod(x / m + 1, m);
  }

  lemma MultipleMod(q: nat, m: nat)
    requires m > 0
    ensures (m * q) % m == 0
  {
    DivModUnique(m * q, m, q, 0);
  }

  lemma MulAtLeast(m: int, d: int)
    requires m > 0
    ensures d >= 1 ==> m * d >= m
    ensures d <= -1 ==> m * d <= -m
  {
  }

  lemma MulSub(m: int, p: int, q: int)
    ensures m * (p - q) == m * p - m * q
  {
  }

  /** Quotient and remainder are unique. */
  lemma DivModUnique(x: int, m: int, q: int, r: int)
    requires m > 0 && x == m * q + r && 0 <= r < m
    ensures x / m == q && x % m == r
  {
    MulSub(m, q, x / m);
    MulAtLeast(m, q - x / m);
  }

  /** Two multiples of m closer than m are equal. */
  lemma MultiplesApart(x: nat, y: nat, m: nat)
    requires m > 0 && x % m == 0 && y % m == 0
    requires x < y + m && y < x + m
    ensures x == y
  {
    MulSub(m, x / m, y / m);
    MulAtLeast(m, x / m - y / m);
  }

  /** AlignUp yields the least multiple that is not below x. */
  lemma AlignUpLeast(x: nat, m: nat, y: nat)
    requires m > 0 && y % m == 0 && x <= y
    ensures AlignUp(x, m) <= y
  {
    var r := AlignUp(x, m);
    if y < r {
      MultiplesApart(y, r, m);
    }
  }
}
