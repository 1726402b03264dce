/** Bitwise `|` and `&` on natural numbers, and when they are arithmetic. Shifts by a constant are written
    as multiplication and division by a power of two. */
module Bits {
  import opened Modular

  function Pow2(k: nat): (r: nat)
    ensures r >= 1
  {
    if k == 0 then 1 else 2 * Pow2(k - 1)
  }

  function Or(a: nat, b: nat): nat {
    if a == 0 then b
    else 2 * Or(a / 2, b / 2) + (if a % 2 == 1 || b % 2 == 1 then 1 else 0)
  }

  function And(a: nat, b: nat): nat {
    if a == 0 then 0
    else 2 * And(a / 2, b / 2) + (if a % 2 == 1 && b % 2 == 1 then 1 else 0)
  }

  lemma {:induction false} AndZero(a: nat)
    ensures And(a, 0) == 0
  {
    if a > 0 {
      AndZero(a / 2);
    }
  }

  lemma {:induction false} OrZero(a: nat)
    ensures Or(a, 0) == a
  {
    if a > 0 {
      OrZero(a / 2);
    }
  }

  lemma HalfMod(a: nat, m: nat)
    requires m > 0
    ensures a % (2 * m) == 2 * (a / 2 % m) + a % 2
  {
    var q, r := a / 2 / m, a / 2 % m;
    assert a / 2 == m * q + r;
    assert a == (2 * m) * q + (2 * r + a % 2);
    ModUnique(2 * m, a, q, 2 * r + a % 2);
  }

  /** Masking with k ones keeps the value modulo 2^k. */
  lemma {:induction false} AndMask(a: nat, k: nat)
    ensures And(a, Pow2(k) - 1) == a % Pow2(k)
    decreases k
  {
    if k == 0 {
      AndZero(a);
    } else {
      MaskStep(a, Pow2(k - 1), k);
    }
  }

  lemma {:induction false} MaskStep(a: nat, m: nat, k: nat)
    requires k > 0 && m == Pow2(k - 1)
    ensures And(a, 2 * m - 1) == a % (2 * m)
    decreases k, 0
  {
    AndMask(a / 2, k - 1);
    HalfMod(a, m);
    assert (2 * m - 1) / 2 == m - 1 && (2 * m - 1) % 2 == 1;
  }

  /** A number shifted past all the bits of another is joined to it by addition. */
  lemma {:induction false} OrDisjoint(hi: nat, k: nat, lo: nat)
    requires lo < Pow2(k)
    ensures Or(hi * Pow2(k), lo) == hi * Pow2(k) + lo
    decreases k
  {
    if hi == 0 {
    } else if k == 0 {
      OrZero(hi);
    } else {
      assert hi * Pow2(k) == 2 * (hi * Pow2(k - 1));
      OrDisjoint(hi, k - 1, lo / 2);
    }
  }

  lemma PowersUsed()
    ensures Pow2(3) == 0x8 && Pow2(4) == 0x10 && Pow2(6) == 0x40 && Pow2(9) == 0x200 && Pow2(15) == 0x8000
    ensures Pow2(21) == 0x20_0000 && Pow2(24) == 0x100_0000 && Pow2(27) == 0x800_0000 && Pow2(32) == 0x1_0000_0000
    ensures Pow2(63) == 0x8000_0000_0000_0000
  {
    assert Pow2(8) == 0x100;
    assert Pow2(16) == 0x1_0000;
    assert Pow2(24) == 0x100_0000;
    assert Pow2(32) == 0x1_0000_0000;
    assert Pow2(40) == 0x100_0000_0000;
    assert Pow2(48) == 0x1_0000_0000_0000;
    assert Pow2(56) == 0x100_0000_0000_0000;
  }

  lemma Mask(x: nat, k: nat, ones: nat)
    requires ones == Pow2(k) - 1
    ensures And(x, ones) == x % (ones + 1)
  {
    AndMask(x, k);
  }

  function Low3(x: nat): (r: nat)
    ensures r == x % 8
  {
    PowersUsed();
    Mask(x, 3, 0x7);
    And(x, 0x7)
  }

  function Low6(x: nat): (r: nat)
    ensures r == x % 0x40
  {
    PowersUsed();
    Mask(x, 6, 0x3f);
    And(x, 0x3f)
  }

  function Low9(x: nat): (r: nat)
    ensures r == x % 0x200
  {
    PowersUsed();
    Mask(x, 9, 0x1ff);
    And(x, 0x1ff)
  }

  function Low15(x: nat): (r: nat)
    ensures r == x % 0x8000
  {
    PowersUsed();
    Mask(x, 15, 0x7fff);
    And(x, 0x7fff)
  }

  function Low27(x: nat): (r: nat)
    ensures r == x % 0x800_0000
  {
    PowersUsed();
    Mask(x, 27, 0x7ff_ffff);
    And(x, 0x7ff_ffff)
  }
}
