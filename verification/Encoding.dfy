/**
 The fields of an instruction word, and the `get_bits` macro that extracts them.
 */
module Encoding {
  import opened Words
  import opened Bitwise
  import opened ArmCore

  function CondOf(ins: Word): (c: int) ensures 0 <= c < 16 { ins / 0x1000_0000 }
  function ClassOf(ins: Word): (c: int) ensures 0 <= c < 8 { ins / 0x200_0000 % 8 }
  function OpcodeOf(ins: Word): (c: int) ensures 0 <= c < 16 { ins / 0x20_0000 % 16 }
  function RnOf(ins: Word): GReg { ins / 0x1_0000 % 16 }
  function RdOf(ins: Word): GReg { ins / 0x1000 % 16 }
  function RsOf(ins: Word): GReg { ins / 0x100 % 16 }
  function RmOf(ins: Word): GReg { ins % 16 }
  function ShiftImmOf(ins: Word): (c: nat) ensures c < 32 { ins / 0x80 % 32 }
  function ShiftTypeOf(ins: Word): (c: int) ensures 0 <= c < 4 { ins / 0x20 % 4 }

  predicate Bit24(ins: Word) { ins / 0x100_0000 % 2 == 1 }
  predicate Bit23(ins: Word) { ins / 0x80_0000 % 2 == 1 }
  predicate Bit22(ins: Word) { ins / 0x40_0000 % 2 == 1 }
  predicate Bit21(ins: Word) { ins / 0x20_0000 % 2 == 1 }
  predicate Bit20(ins: Word) { ins / 0x10_0000 % 2 == 1 }
  predicate Bit7(ins: Word) { ins / 0x80 % 2 == 1 }
  predicate Bit6(ins: Word) { ins / 0x40 % 2 == 1 }
  predicate Bit5(ins: Word) { ins / 0x20 % 2 == 1 }
  predicate Bit4(ins: Word) { ins / 0x10 % 2 == 1 }

  /** The mask of the macro: n ones. */
  lemma LowMask(n: nat)
    requires 0 < n < 32
    ensures Pow2(n) <= 0x1_0000_0000
    ensures Not(Shl(Shr(0xFFFF_FFFF, n), n)) == Pow2(n) - 1
  {
    var a, b := Pow2(n), Pow2(32 - n);
    assert a * b == 0x1_0000_0000 by { Pow2Word(); Pow2Add(n, 32 - n); }
    Distribute(b, 1, a);
    MulMonotone(1, b, a);
    DivModUnique(0xFFFF_FFFF, a, b - 1, a - 1);
    DivModUnique((b - 1) * a, 0x1_0000_0000, 0, (b - 1) * a);
  }

  /** util.h:34: the macro's masks and shifts come to a quotient and a remainder. */
  lemma GetBitsIsField(x: Word, h: nat, l: nat)
    requires l <= h < 32 && h - l < 31
    ensures GetBits(x, h, l) == x / Pow2(l) % Pow2(h - l + 1)
  {
    LowMask(h - l + 1);
    AndLowMask(Shr(x, l), h - l + 1);
    hide Shl, Not;
  }

  lemma FieldPowers()
    ensures Pow2(0) == 1 && Pow2(2) == 4 && Pow2(3) == 8 && Pow2(4) == 16 && Pow2(5) == 32
    ensures Pow2(7) == 0x80 && Pow2(8) == 0x100 && Pow2(12) == 0x1000 && Pow2(16) == 0x1_0000
    ensures Pow2(21) == 0x20_0000 && Pow2(25) == 0x200_0000 && Pow2(28) == 0x1000_0000
  {
    Pow2Add(16, 5);
    Pow2Add(21, 4);
    Pow2Add(25, 3);
  }

  lemma FieldIs(x: Word, h: nat, l: nat, below: nat, width: nat)
    requires l <= h < 32 && h - l < 31 && below == Pow2(l) && width == Pow2(h - l + 1)
    ensures GetBits(x, h, l) == x / below % width
  {
    GetBitsIsField(x, h, l);
  }

  /** The single bits are those of `get_bit`. */
  lemma BitsAreGetBit(ins: Word)
    ensures (Bit24(ins) <==> Bit(ins, 24) == 1) && (Bit23(ins) <==> Bit(ins, 23) == 1)
    ensures (Bit22(ins) <==> Bit(ins, 22) == 1) && (Bit21(ins) <==> Bit(ins, 21) == 1)
    ensures (Bit20(ins) <==> Bit(ins, 20) == 1) && (Bit7(ins) <==> Bit(ins, 7) == 1)
    ensures (Bit6(ins) <==> Bit(ins, 6) == 1) && (Bit5(ins) <==> Bit(ins, 5) == 1) && (Bit4(ins) <==> Bit(ins, 4) == 1)
  {
    FieldPowers();
    Pow2Step(6);
    Pow2Add(16, 4); Pow2Add(16, 5); Pow2Add(16, 7); Pow2Add(16, 8);
    Pow2Step(22);
    hide Pow2;
  }

  lemma FieldsAreGetBits(ins: Word)
    ensures CondOf(ins) == GetBits(ins, 31, 28) && ClassOf(ins) == GetBits(ins, 27, 25)
    ensures OpcodeOf(ins) == GetBits(ins, 24, 21)
    ensures RnOf(ins) == GetBits(ins, 19, 16) && RdOf(ins) == GetBits(ins, 15, 12)
    ensures RsOf(ins) == GetBits(ins, 11, 8) && RmOf(ins) == GetBits(ins, 3, 0)
    ensures ShiftImmOf(ins) == GetBits(ins, 11, 7) && ShiftTypeOf(ins) == GetBits(ins, 6, 5)
  {
    FieldPowers();
    hide GetBits, Pow2;
    FieldIs(ins, 31, 28, 0x1000_0000, 16); FieldIs(ins, 27, 25, 0x200_0000, 8);
    FieldIs(ins, 24, 21, 0x20_0000, 16); FieldIs(ins, 19, 16, 0x1_0000, 16);
    FieldIs(ins, 15, 12, 0x1000, 16); FieldIs(ins, 11, 8, 0x100, 16);
    FieldIs(ins, 3, 0, 1, 16); FieldIs(ins, 11, 7, 0x80, 32); FieldIs(ins, 6, 5, 0x20, 4);
  }
}
