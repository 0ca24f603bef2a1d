/** Bitwise operations on words, and what they come to when one operand is a power of two
    or a mask of low bits. */
module Bits {
  import opened Arithmetic

  /** Bitwise and. */
  function And(x: nat, y: nat): (r: nat)
    ensures r <= x && r <= y
  {
    if x == 0 || y == 0 then 0 else x % 2 * (y % 2) + 2 * And(x / 2, y / 2)
  }

  /** Bitwise or. */
  function Or(x: nat, y: nat): nat {
    if x == 0 then y else if y == 0 then x else Max(x % 2, y % 2) + 2 * Or(x / 2, y / 2)
  }

  lemma Pow2Halves(k: nat)
    requires k > 0
    ensures Pow2(k) / 2 == Pow2(k - 1) && Pow2(k) % 2 == 0
    ensures (Pow2(k) - 1) / 2 == Pow2(k - 1) - 1 && (Pow2(k) - 1) % 2 == 1
  {
  }

  /** Dividing by two halves the quotient and the remainder by a power of two. */
  lemma HalfMod(x: nat, k: nat)
    requires k > 0
    ensures x % Pow2(k) == x % 2 + 2 * ((x / 2) % Pow2(k - 1))
    ensures x / Pow2(k) == (x / 2) / Pow2(k - 1)
  {
    var h := Pow2(k - 1);
    var q, r := (x / 2) / h, (x / 2) % h;
    assert x == 2 * (h * q + r) + x % 2 == (2 * h) * q + (2 * r + x % 2);
    DivModUnique(x, 2 * h, q, 2 * r + x % 2);
  }

  /** Masking with the k low bits is the remainder by 2^k. */
  lemma {:induction false} AndMask(x: nat, k: nat)
    ensures And(x, Pow2(k) - 1) == x % Pow2(k)
  {
    hide Pow2;
    var p := Pow2(k);
    if k == 0 {
      assert p == 1 by { PowZero(); }
    } else if x == 0 {
      DivModUnique(0, p, 0, 0);
    } else {
      Pow2Halves(k);
      HalfMod(x, k);
      AndMask(x / 2, k - 1);
      AndStep(x, p - 1);
    }
  }

  lemma PowZero()
    ensures Pow2(0) == 1
  {
  }

  lemma AndStep(x: nat, y: nat)
    requires y % 2 == 1
    ensures And(x, y) == x % 2 + 2 * And(x / 2, y / 2)
  {
  }

  /** Masking with bit k of a word below 2^(k + 1) tests whether the word reaches 2^k. */
  lemma {:induction false} AndBit(x: nat, k: nat)
    requires x < Pow2(k + 1)
    ensures And(x, Pow2(k)) == if x < Pow2(k) then 0 else Pow2(k)
  {
    if k > 0 && x > 0 {
      Pow2Halves(k);
      AndBit(x / 2, k - 1);
    }
  }

  /** Setting a bit above the word adds it. */
  lemma {:induction false} OrBit(x: nat, k: nat)
    requires x < Pow2(k)
    ensures Or(x, Pow2(k)) == x + Pow2(k)
  {
    if x > 0 {
      Pow2Halves(k);
      OrBit(x / 2, k - 1);
    }
  }
}
