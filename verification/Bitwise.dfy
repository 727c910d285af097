/**
 What the bitwise operators of C compute when an operand is a mask or a single bit.

 The masks of the simulator are runs of ones, their complements, and words with one bit set
 or cleared; each law is an induction over the bits.
 */
module Bitwise {
  import opened Words

  /** The low n bits of x. */
  function Low(x: nat, n: nat): nat {
    x % Pow2(n)
  }

  lemma Pow2Step(n: nat)
    requires n > 0
    ensures Pow2(n) == 2 * Pow2(n - 1)
  {
  }

  lemma LowOfHalf(x: nat, n: nat)
    requires n > 0
    ensures Low(x, n) == 2 * Low(x / 2, n - 1) + x % 2
  {
    DivDiv(x, 2, Pow2(n - 1));
  }

  lemma BitOfHalf(x: nat, i: nat)
    requires i > 0
    ensures Bit(x / 2, i - 1) == Bit(x, i)
  {
    DivDiv(x, 2, Pow2(i - 1));
  }

  lemma LowestBit(x: nat)
    ensures Bit(x, 0) == x % 2 && Low(x, 0) == 0 && Pow2(0) == 1
  {
  }

  // ---------------------------------------------------------------- one bit at a time

  lemma {:induction false} OrCommutes(x: nat, y: nat)
    ensures OrBits(x, y) == OrBits(y, x)
  {
    if x != 0 && y != 0 { OrCommutes(x / 2, y / 2); }
  }

  lemma OrEven(x: nat, h: nat)
    ensures OrBits(x, 2 * h) == x % 2 + 2 * OrBits(x / 2, h)
  {
    DivModUnique(2 * h, 2, h, 0);
  }

  lemma AndZero(x: nat)
    ensures AndBits(x, 0) == 0
  {
  }

  lemma AndEven(x: nat, h: nat)
    ensures AndBits(x, 2 * h) == 2 * AndBits(x / 2, h)
  {
    DivModUnique(2 * h, 2, h, 0);
  }

  lemma AndOdd(x: nat, h: nat)
    ensures AndBits(x, 2 * h + 1) == x % 2 + 2 * AndBits(x / 2, h)
  {
    DivModUnique(2 * h + 1, 2, h, 1);
  }

  // ---------------------------------------------------------------- masks

  /** Or of disjoint bit ranges is addition. */
  lemma {:induction false} OrDisjoint(lo: nat, hi: nat, k: nat)
    requires lo < Pow2(k)
    ensures OrBits(lo, hi * Pow2(k)) == lo + hi * Pow2(k)
  {
    if k == 0 {
    } else {
      OrDisjoint(lo / 2, hi, k - 1);
      OrEven(lo, hi * Pow2(k - 1));
      Associate(hi, Pow2(k - 1), 2);
      hide OrBits;
    }
  }

  /** Masking with n ones keeps the low n bits. */
  lemma {:induction false} AndLowMask(x: nat, n: nat)
    ensures AndBits(x, Pow2(n) - 1) == Low(x, n)
  {
    LowestBit(x);
    AndZero(x);
    hide AndBits, Low, Pow2, Bit;
    if n > 0 {
      Pow2Step(n);
      LowOfHalf(x, n);
      AndLowMask(x / 2, n - 1);
      AndOdd(x, Pow2(n - 1) - 1);
    }
  }

  /** Masking with n ones above k zeros removes the low k bits. */
  lemma {:induction false} AndHighMask(x: nat, k: nat, n: nat)
    requires k <= n
    ensures Pow2(n) >= Pow2(k)
    ensures AndBits(x, Pow2(n) - Pow2(k)) == Low(x, n) - Low(x, k)
  {
    hide AndBits, Low, Pow2, Bit;
    LowestBit(x);
    if k == 0 {
      AndLowMask(x, n);
    } else {
      Pow2Step(n);
      Pow2Step(k);
      LowOfHalf(x, n);
      LowOfHalf(x, k);
      AndHighMask(x / 2, k - 1, n - 1);
      AndEven(x, Pow2(n - 1) - Pow2(k - 1));
    }
  }

  /** `set_bit` adds the bit when it is missing. */
  lemma {:induction false} OrPower(x: nat, i: nat)
    ensures OrBits(x, Pow2(i)) == if Bit(x, i) == 1 then x else x + Pow2(i)
  {
    LowestBit(x);
    if i == 0 {
      OrEven(x, 0);
      assert OrBits(x / 2, 0) == x / 2;
    } else {
      hide OrBits, Bit, Pow2;
      Pow2Step(i);
      OrEven(x, Pow2(i - 1));
      OrPower(x / 2, i - 1);
      BitOfHalf(x, i);
    }
  }

  /** `clr_bit` removes the bit when it is there; the mask is n ones with a hole at i. */
  lemma {:induction false} AndHole(x: nat, i: nat, n: nat)
    requires i < n
    ensures Pow2(n) - 1 - Pow2(i) >= 0
    ensures AndBits(x, Pow2(n) - 1 - Pow2(i)) == Low(x, n) - if Bit(x, i) == 1 then Pow2(i) else 0
    decreases i
  {
    hide AndBits, Bit, Pow2, Low;
    LowestBit(x);
    Pow2Step(n);
    LowOfHalf(x, n);
    if i == 0 {
      AndLowMask(x / 2, n - 1);
      AndEven(x, Pow2(n - 1) - 1);
    } else {
      Pow2Step(i);
      AndHole(x / 2, i - 1, n - 1);
      AndOdd(x, Pow2(n - 1) - 1 - Pow2(i - 1));
      BitOfHalf(x, i);
    }
  }

  lemma OneBit(i: nat)
    requires i < 32
    ensures Shl(1, i) == Pow2(i) < 0x1_0000_0000
  {
    Pow2Word();
    Pow2AtLeast(32, i + 1);
    DivModUnique(Pow2(i), 0x1_0000_0000, 0, Pow2(i));
  }

  lemma WholeWord(x: Word)
    ensures Low(x, 32) == x && Pow2(32) == 0x1_0000_0000
  {
    Pow2Word();
  }

  /** The macros `set_bit` and `clr_bit` of util.h, at bit i. */
  lemma SetAndClear(x: Word, i: nat)
    requires i < 32
    ensures SetBit(x, i) == if Bit(x, i) == 1 then x else x + Pow2(i)
    ensures ClrBit(x, i) == if Bit(x, i) == 1 then x - Pow2(i) else x
  {
    hide AndBits, OrBits, Bit, Shl, Low, Pow2;
    OneBit(i);
    OrPower(x, i);
    AndHole(x, i, 32);
    WholeWord(x);
  }

  // ---------------------------------------------------------------- bit by bit

  lemma AndHalves(x: nat, y: nat)
    ensures AndBits(x, y) % 2 == 1 <==> x % 2 == 1 && y % 2 == 1
    ensures AndBits(x, y) / 2 == AndBits(x / 2, y / 2)
  {
    if x != 0 && y != 0 {
      var b := if x % 2 == 1 && y % 2 == 1 then 1 else 0;
      assert x % 2 * (y % 2) == b;
      DivModUnique(AndBits(x, y), 2, AndBits(x / 2, y / 2), b);
    }
  }

  lemma OrHalves(x: nat, y: nat)
    ensures OrBits(x, y) % 2 == 1 <==> x % 2 == 1 || y % 2 == 1
    ensures OrBits(x, y) / 2 == OrBits(x / 2, y / 2)
  {
    if x != 0 && y != 0 {
      DivModUnique(OrBits(x, y), 2, OrBits(x / 2, y / 2), if x % 2 + y % 2 > 0 then 1 else 0);
    }
  }

  lemma XorHalves(x: nat, y: nat)
    ensures XorBits(x, y) % 2 == 1 <==> x % 2 != y % 2
    ensures XorBits(x, y) / 2 == XorBits(x / 2, y / 2)
  {
    if x != 0 && y != 0 {
      Parity(x, y);
      var h, b := XorBits(x / 2, y / 2), if x % 2 == y % 2 then 0 else 1;
      assert XorBits(x, y) == b + 2 * h;
      hide XorBits;
      DivModUnique(XorBits(x, y), 2, h, b);
    }
  }

  lemma Parity(x: nat, y: nat)
    ensures (x + y) % 2 == if x % 2 == y % 2 then 0 else 1
  {
  }

  /** The operators act on each bit separately. */
  lemma {:induction false} EachBit(x: nat, y: nat, i: nat)
    ensures Bit(AndBits(x, y), i) == 1 <==> Bit(x, i) == 1 && Bit(y, i) == 1
    ensures Bit(OrBits(x, y), i) == 1 <==> Bit(x, i) == 1 || Bit(y, i) == 1
    ensures Bit(XorBits(x, y), i) == 1 <==> Bit(x, i) != Bit(y, i)
  {
    hide AndBits, OrBits, XorBits, Bit, Low;
    AndHalves(x, y); OrHalves(x, y); XorHalves(x, y);
    BitsAreBits(x, y, i);
    if i == 0 {
      LowestBit(x); LowestBit(y);
      LowestBit(AndBits(x, y)); LowestBit(OrBits(x, y)); LowestBit(XorBits(x, y));
    } else {
      EachBit(x / 2, y / 2, i - 1);
      BitOfHalf(x, i); BitOfHalf(y, i);
      BitOfHalf(AndBits(x, y), i); BitOfHalf(OrBits(x, y), i); BitOfHalf(XorBits(x, y), i);
    }
  }

  lemma BitsAreBits(x: nat, y: nat, i: nat)
    ensures Bit(x, i) < 2 && Bit(y, i) < 2
  {
  }

  lemma {:induction false} EachBitOfNot(x: nat, n: nat, i: nat)
    requires x < Pow2(n) && i < n
    ensures Bit(Pow2(n) - 1 - x, i) == 1 - Bit(x, i)
  {
    hide Bit, Low, Pow2;
    Pow2Step(n);
    var m := Pow2(n) - 1 - x;
    assert m % 2 == 1 - x % 2 && m / 2 == Pow2(n - 1) - 1 - x / 2;
    if i == 0 {
      LowestBit(x); LowestBit(m);
    } else {
      EachBitOfNot(x / 2, n - 1, i - 1);
      BitOfHalf(x, i); BitOfHalf(m, i);
    }
  }
}
