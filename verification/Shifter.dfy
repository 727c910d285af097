/**
 The barrel shifter of arm_data_processing.c, against one arithmetic specification.

 `BarrelShift` is the specification: what section A5.1 of the ARM Architecture Reference
 Manual (DDI 0100) says a shift of `rm` by an amount in 0..255 produces.  The two methods
 follow the branches of the C functions and are proved equal to it.
 */
module Shifter {
  import opened Words
  import opened Bitwise

  type Flag = b: int | 0 <= b < 2
  type ShiftType = t: int | 0 <= t < 4

  const LSL: ShiftType := 0
  const LSR: ShiftType := 1
  const ASR: ShiftType := 2
  const ROR: ShiftType := 3

  /** The shifter operand and the shifter carry out. */
  datatype Shifted = Shifted(operand: Word, carry: Flag)

  /** Rotation of `x` right by `k`: the low k bits move to the top. */
  function Rotate(x: Word, k: nat): int
    requires k < 32
  {
    x / Pow2(k) + x % Pow2(k) * Pow2(32 - k)
  }

  lemma RotateIsWord(x: Word, k: nat)
    requires k < 32
    ensures 0 <= Rotate(x, k) < 0x1_0000_0000
  {
    var a, b := Pow2(k), Pow2(32 - k);
    Pow2Word(); Pow2Add(k, 32 - k);
    QuotientRemainder(x, a);
    RotationBound(x / a, x % a, x, a, b);
  }

  /** A rotated word, in terms of the quotient and remainder that are exchanged. */
  lemma RotationBound(q: int, r: int, x: Word, a: int, b: int)
    requires a > 0 && b > 0 && a * b == 0x1_0000_0000
    requires x == q * a + r && 0 <= r < a
    ensures 0 <= q < b && 0 <= q + r * b < 0x1_0000_0000
  {
    MulSigns(q, a);
    if q >= b {
      MulMonotone(b, q, a);
      assert false;
    }
    MulMonotone(r, a - 1, b);
    Distribute(a, 1, b);
  }

  function BarrelShift(t: ShiftType, rm: Word, s: nat, c: Flag): Shifted {
    if s == 0 then Shifted(rm, c)
    else if t == LSL then
      Shifted(rm * Pow2(s) % 0x1_0000_0000, rm * Pow2(s) / 0x1_0000_0000 % 2)
    else if t == LSR then
      DivBound(rm, Pow2(s));
      Shifted(rm / Pow2(s), rm / Pow2(s - 1) % 2)
    else if t == ASR then
      Shifted(Wrap(Signed(rm) / Pow2(s)), Signed(rm) / Pow2(s - 1) % 2)
    else
      RotateIsWord(rm, s % 32);
      var r := Rotate(rm, s % 32);
      Shifted(r, r / 0x8000_0000)
  }

  // ---------------------------------------------------------------- the pieces

  lemma LslBelow32(rm: Word, s: nat)
    requires 0 < s < 32
    ensures Shl(rm, s) == rm * Pow2(s) % 0x1_0000_0000
    ensures Bit(rm, 32 - s) == rm * Pow2(s) / 0x1_0000_0000 % 2
  {
    Pow2Word(); Pow2Add(s, 32 - s);
    MulDivMod(rm, Pow2(s), Pow2(32 - s));
  }

  lemma LslFrom32(rm: Word, s: nat)
    requires s >= 32
    ensures rm * Pow2(s) % 0x1_0000_0000 == 0
    ensures rm * Pow2(s) / 0x1_0000_0000 % 2 == if s == 32 then Bit(rm, 0) else 0
  {
    Pow2Word(); Pow2Add(s - 32, 32);
    var p := Pow2(s - 32);
    assert Pow2(0) == 1;
    if s > 32 { assert p == 2 * Pow2(s - 33); }
    MultipleOf2To32(rm, p, Pow2(s), if s == 32 then 0 else Pow2(s - 33));
  }

  lemma MultipleOf2To32(x: Word, p: int, q: int, half: int)
    requires q == p * 0x1_0000_0000 && (p == 1 || p == 2 * half)
    ensures x * q % 0x1_0000_0000 == 0
    ensures x * q / 0x1_0000_0000 % 2 == if p == 1 then x % 2 else 0
  {
    Associate(x, p, 0x1_0000_0000);
    DivModUnique(x * q, 0x1_0000_0000, x * p, 0);
    if p != 1 {
      Associate(x, half, 2);
      DivModUnique(x * p, 2, x * half, 0);
    }
  }

  lemma SmallQuotient(x: nat, s: nat)
    requires x < 0x1_0000_0000 && s >= 32
    ensures x / Pow2(s) == 0
  {
    Pow2Word(); Pow2AtLeast(s, 32);
    DivModUnique(x, Pow2(s), 0, x);
  }

  /** Subtracting 2^32 from a dividend subtracts 2^(32-s) from its quotient by 2^s. */
  lemma SignedQuotient(rm: Word, s: nat)
    requires s <= 32 && rm >= 0x8000_0000
    ensures Signed(rm) / Pow2(s) == rm / Pow2(s) - Pow2(32 - s)
  {
    Pow2Word(); Pow2Add(s, 32 - s);
    ShiftedQuotient(rm, Pow2(s), Pow2(32 - s));
  }

  lemma ShiftedQuotient(x: int, a: int, b: int)
    requires a > 0
    ensures (x - a * b) / a == x / a - b
  {
    var q, r := x / a, x % a;
    Distribute(q, b, a);
    DivModUnique(x - a * b, a, q - b, r);
  }

  lemma TopBit(x: Word)
    ensures Bit(x, 31) == if x >= 0x8000_0000 then 1 else 0
  {
    Pow2Word();
    assert Bit(x, 31) == x / 0x8000_0000 % 2;
  }

  /** The mask 0xFFFFFFFF << (32 - s) that `asr` ors in for a negative word. */
  lemma SignMask(a: int, b: int)
    requires a > 0 && b > 0 && a * b == 0x1_0000_0000
    ensures 0xFFFF_FFFF * b % 0x1_0000_0000 == (a - 1) * b
    ensures b <= 0x1_0000_0000
  {
    Distribute(a, 1, b);
    Distribute(0x1_0000_0000, 1, b);
    MulMonotone(1, a, b);
    DivModUnique(0xFFFF_FFFF * b, 0x1_0000_0000, b - 1, 0x1_0000_0000 - b);
  }

  lemma AsrBelow32(rm: Word, s: nat)
    requires 0 < s < 32
    ensures Asr(rm, s) == Wrap(Signed(rm) / Pow2(s))
  {
    TopBit(rm);
    var a, b := Pow2(s), Pow2(32 - s);
    var q := rm / a;
    assert a * b == 0x1_0000_0000 by { Pow2Word(); Pow2Add(s, 32 - s); }
    assert 0 <= q < b by {
      QuotientRemainder(rm, a);
      RotationBound(q, rm % a, rm, a, b);
    }
    if rm >= 0x8000_0000 {
      SignedQuotient(rm, s);
      SignMask(a, b);
      OrDisjoint(q, a - 1, 32 - s);
      NegativeWraps(q, a, b);
    } else {
      OrZero(q);
    }
  }

  lemma NegativeWraps(q: int, a: int, b: int)
    requires a > 0 && a * b == 0x1_0000_0000 && 0 <= q < b <= 0x1_0000_0000
    ensures Wrap(q - b) == q + (a - 1) * b
  {
    Distribute(a, 1, b);
  }

  lemma AsrCarry(rm: Word, s: nat)
    requires 0 < s < 32
    ensures Bit(rm, s - 1) == Signed(rm) / Pow2(s - 1) % 2
  {
    if rm >= 0x8000_0000 {
      SignedQuotient(rm, s - 1);
      assert Pow2(33 - s) == 2 * Pow2(32 - s);
      hide Pow2, Signed;
      SameParity(rm / Pow2(s - 1), Pow2(32 - s));
    }
  }

  lemma SameParity(x: int, h: int)
    ensures (x - 2 * h) % 2 == x % 2
  {
  }

  lemma OrZero(x: nat)
    ensures OrBits(x, 0) == x
  {
  }

  lemma AsrFrom32(rm: Word, s: nat)
    requires s >= 31
    ensures Signed(rm) / Pow2(s) == if Bit(rm, 31) == 0 then 0 else -1
  {
    Pow2Word(); TopBit(rm); Pow2AtLeast(s, 31);
    if rm < 0x8000_0000 {
      DivModUnique(rm, Pow2(s), 0, rm);
    } else {
      DivModUnique(Signed(rm), Pow2(s), -1, Signed(rm) + Pow2(s));
    }
  }

  lemma RorBelow32(rm: Word, k: nat)
    requires k < 32
    ensures Ror(rm, k) == Rotate(rm, k)
  {
    if k == 0 {
      assert Pow2(0) == 1;
    } else {
      Pow2Word(); Pow2Add(k, 32 - k);
      var a, b := Pow2(k), Pow2(32 - k);
      QuotientRemainder(rm, a);
      RotationBound(rm / a, rm % a, rm, a, b);
      MulDivMod(rm, b, a);
      OrDisjoint(rm / a, rm % a, 32 - k);
    }
  }

  /** Bit k-1, the last one rotated out, becomes bit 31. */
  lemma RotateCarry(rm: Word, k: nat)
    requires 0 < k < 32
    ensures Bit(rm, k - 1) == Rotate(rm, k) / 0x8000_0000
  {
    Pow2Word(); Pow2Add(k - 1, 32 - k); Pow2Add(k, 32 - k);
    var h, b := Pow2(k - 1), Pow2(32 - k);
    DivDiv(rm, h, 2);
    QuotientRemainder(rm, Pow2(k));
    QuotientRemainder(rm, h);
    RotatedTop(rm / Pow2(k), rm / h % 2, rm % h, rm, h, b);
  }

  lemma RotatedTop(q: int, top: int, low: int, x: Word, h: int, b: int)
    requires h > 0 && b > 0 && h * b == 0x8000_0000
    requires x == q * (2 * h) + (top * h + low) && 0 <= low < h && 0 <= top < 2
    ensures (q + (top * h + low) * b) / 0x8000_0000 == top
  {
    assert 2 * h * b == 0x1_0000_0000 by { Associate(2, h, b); }
    RotationBound(q, top * h + low, x, 2 * h, b);
    Distribute(top * h, low, b);
    Associate(top, h, b);
    MulMonotone(low, h - 1, b);
    Distribute(h, 1, b);
    DivModUnique(q + (top * h + low) * b, 0x8000_0000, top, low * b + q);
  }

  // ------------------------------------------------- the specification, case by case

  lemma LslCases(rm: Word, s: nat, c: Flag)
    requires s > 0
    ensures BarrelShift(LSL, rm, s, c) ==
            if s < 32 then Shifted(Shl(rm, s), Bit(rm, 32 - s))
            else Shifted(0, if s == 32 then Bit(rm, 0) else 0)
  {
    if s < 32 { LslBelow32(rm, s); } else { LslFrom32(rm, s); }
  }

  lemma LsrCases(rm: Word, s: nat, c: Flag)
    requires s > 0
    ensures BarrelShift(LSR, rm, s, c) ==
            if s < 32 then Shifted(Shr(rm, s), Bit(rm, s - 1))
            else Shifted(0, if s == 32 then Bit(rm, 31) else 0)
  {
    if s >= 32 {
      SmallQuotient(rm, s);
      if s > 32 { SmallQuotient(rm, s - 1); }
    }
  }

  lemma AsrCases(rm: Word, s: nat, c: Flag)
    requires s > 0
    ensures BarrelShift(ASR, rm, s, c) ==
            if s < 32 then Shifted(Asr(rm, s), Bit(rm, s - 1))
            else Shifted(if Bit(rm, 31) == 0 then 0 else 0xFFFF_FFFF, Bit(rm, 31))
  {
    if s < 32 {
      AsrBelow32(rm, s);
      AsrCarry(rm, s);
    } else {
      AsrFrom32(rm, s);
      AsrFrom32(rm, s - 1);
    }
  }

  lemma RorCases(rm: Word, s: nat, c: Flag)
    requires s > 0
    ensures BarrelShift(ROR, rm, s, c) ==
            if s % 32 == 0 then Shifted(rm, Bit(rm, 31))
            else Shifted(Ror(rm, s % 32), Bit(rm, s % 32 - 1))
  {
    var k := s % 32;
    RorBelow32(rm, k);
    RotateIsWord(rm, k);
    if k == 0 {
      TopBit(rm);
    } else {
      RotateCarry(rm, k);
    }
  }

  // ---------------------------------------------------------------- the C functions

  /**
   The operand of an immediate shift.  Three encodings with amount 0 are special; the code
   gives ASR #0 its architectural meaning of ASR #32, while LSR #0 and ROR #0 do not mean
   what section A5.1 says.
   */
  function ImmediateShift(t: ShiftType, imm: nat, rm: Word, cpsr: Word): Shifted
    requires imm < 32
  {
    if imm == 0 && t == LSR then Shifted(rm, FlagN(cpsr))
    else if imm == 0 && t == ROR then Shifted(cpsr % 2 * 0x8000_0000 + rm / 2, rm % 2)
    else BarrelShift(t, rm, if imm == 0 && t == ASR then 32 else imm, FlagC(cpsr))
  }

  /** Section A5.1: LSR #0 and ASR #0 mean an amount of 32, ROR #0 rotates through the C flag. */
  function Architectural(t: ShiftType, imm: nat, rm: Word, c: Flag): Shifted
    requires imm < 32
  {
    if imm == 0 && t == ROR then Shifted(c * 0x8000_0000 + rm / 2, rm % 2)
    else BarrelShift(t, rm, if imm == 0 && t != LSL then 32 else imm, c)
  }

  /**
   An immediate shift is the manual's, except that LSR #0 is so only for a zero operand with N
   clear, and ROR #0 only when bit 0 of CPSR, which it shifts in, equals the C flag.
   */
  lemma ImmediateIsArchitectural(t: ShiftType, imm: nat, rm: Word, cpsr: Word)
    requires imm < 32
    ensures ImmediateShift(t, imm, rm, cpsr) == Architectural(t, imm, rm, FlagC(cpsr)) <==>
            if imm == 0 && t == LSR then rm == 0 && FlagN(cpsr) == 0
            else if imm == 0 && t == ROR then cpsr % 2 == FlagC(cpsr)
            else true
  {
    LsrCases(rm, 32, FlagC(cpsr));
    TopBit(rm);
    hide BarrelShift, Bit, FlagC, FlagN;
  }

  lemma RrxOperand(cpsr: Word, rm: Word)
    ensures Or(Shl(cpsr, 31), Shr(rm, 1)) == cpsr % 2 * 0x8000_0000 + rm / 2
    ensures Bit(rm, 0) == rm % 2
  {
    LowestBit(rm);
    assert Pow2(31) == 0x8000_0000 && Pow2(1) == 2 by { Pow2Word(); }
    assert Shr(rm, 1) == rm / 2;
    hide Bit, Low, Pow2, OrBits;
    DivModUnique(cpsr * 0x8000_0000, 0x1_0000_0000, cpsr / 2, cpsr % 2 * 0x8000_0000);
    OrDisjoint(rm / 2, cpsr % 2, 31);
    OrCommutes(rm / 2, cpsr % 2 * 0x8000_0000);
  }

  lemma ZeroAmountCases(t: ShiftType, rm: Word, cpsr: Word)
    ensures ImmediateShift(t, 0, rm, cpsr) ==
            if t == LSL then Shifted(rm, FlagC(cpsr))
            else if t == LSR then Shifted(rm, FlagN(cpsr))
            else if t == ASR then Shifted(if Bit(rm, 31) == 0 then 0 else 0xFFFF_FFFF, Bit(rm, 31))
            else Shifted(Or(Shl(cpsr, 31), Shr(rm, 1)), Bit(rm, 0))
  {
    AsrCases(rm, 32, FlagC(cpsr));
    RrxOperand(cpsr, rm);
  }

  lemma PositiveAmountCases(t: ShiftType, s: nat, rm: Word, cpsr: Word)
    requires 0 < s < 32
    ensures ImmediateShift(t, s, rm, cpsr) ==
            if t == LSL then Shifted(Shl(rm, s), Bit(rm, 32 - s))
            else if t == LSR then Shifted(Shr(rm, s), Bit(rm, s - 1))
            else if t == ASR then Shifted(Asr(rm, s), Bit(rm, s - 1))
            else Shifted(Ror(rm, s), Bit(rm, s - 1))
  {
    hide BarrelShift, Shl, Shr, Asr, Ror, Bit, FlagC;
    if t == LSL { LslCases(rm, s, FlagC(cpsr)); }
    else if t == LSR { LsrCases(rm, s, FlagC(cpsr)); }
    else if t == ASR { AsrCases(rm, s, FlagC(cpsr)); }
    else { RorCases(rm, s, FlagC(cpsr)); }
  }

  /** `get_shifter_operand_immediate_shift`, arm_data_processing.c:256. */
  method GetShifterOperandImmediateShift(shiftImm: nat, shiftCode: ShiftType, rm: Word, cpsr: Word)
    returns (operand: Word, carry: Flag)
    requires shiftImm < 32
    ensures Shifted(operand, carry) == ImmediateShift(shiftCode, shiftImm, rm, cpsr)
  {
    if shiftImm == 0 { ZeroAmountCases(shiftCode, rm, cpsr); }
    else { PositiveAmountCases(shiftCode, shiftImm, rm, cpsr); }
    if shiftCode == LSL {
      if shiftImm == 0 {
        operand, carry := rm, FlagC(cpsr);
      } else {
        operand, carry := Shl(rm, shiftImm), Bit(rm, 32 - shiftImm);
      }
    } else if shiftCode == LSR {
      if shiftImm == 0 {
        operand, carry := rm, FlagN(cpsr);
      } else {
        operand, carry := Shr(rm, shiftImm), Bit(rm, shiftImm - 1);
      }
    } else if shiftCode == ASR {
      if shiftImm == 0 {
        operand := if Bit(rm, 31) == 0 then 0 else 0xFFFF_FFFF;
        carry := Bit(rm, 31);
      } else {
        operand, carry := Asr(rm, shiftImm), Bit(rm, shiftImm - 1);
      }
    } else {
      if shiftImm == 0 {
        operand, carry := Or(Shl(cpsr, 31), Shr(rm, 1)), Bit(rm, 0);
      } else {
        operand, carry := Ror(rm, shiftImm), Bit(rm, shiftImm - 1);
      }
    }
  }

  /** `get_shifter_operand_register_shift`, arm_data_processing.c:320. */
  method GetShifterOperandRegisterShift(shiftCode: ShiftType, rm: Word, rs: Word, cpsr: Word)
    returns (operand: Word, carry: Flag)
    ensures Shifted(operand, carry) == BarrelShift(shiftCode, rm, rs % 256, FlagC(cpsr))
  {
    ghost var c := FlagC(cpsr);
    var amount := rs % 256;
    SameRotation(rs);
    assert BarrelShift(shiftCode, rm, 0, c) == Shifted(rm, c);
    hide BarrelShift, Shl, Shr, Asr, Ror, FlagC;
    if amount == 0 {
      operand, carry := rm, FlagC(cpsr);
    } else if shiftCode == LSL {
      LslCases(rm, amount, c);
      if amount < 32 {
        operand, carry := Shl(rm, amount), Bit(rm, 32 - amount);
      } else if amount == 32 {
        operand, carry := 0, Bit(rm, 0);
      } else {
        operand, carry := 0, 0;
      }
    } else if shiftCode == LSR {
      LsrCases(rm, amount, c);
      if amount < 32 {
        operand, carry := Shr(rm, amount), Bit(rm, amount - 1);
      } else if amount == 32 {
        operand, carry := 0, Bit(rm, 31);
      } else {
        operand, carry := 0, 0;
      }
    } else if shiftCode == ASR {
      AsrCases(rm, amount, c);
      if amount < 32 {
        operand, carry := Asr(rm, amount), Bit(rm, amount - 1);
      } else {
        operand := if Bit(rm, 31) == 0 then 0 else 0xFFFF_FFFF;
        carry := Bit(rm, 31);
      }
    } else {
      RorCases(rm, amount, c);
      var rotation := rs % 32;
      if rotation == 0 {
        operand, carry := rm, Bit(rm, 31);
      } else {
        operand, carry := Ror(rm, rotation), Bit(rm, rotation - 1);
      }
    }
  }

  lemma SameRotation(rs: Word)
    ensures rs % 256 % 32 == rs % 32
  {
  }

  lemma RotatedImmediateCases(immed8: Word, k: nat, c: Flag)
    requires k < 32
    ensures var s := BarrelShift(ROR, immed8, k, c);
            s.operand == Ror(immed8, k) && s.carry == if k == 0 then c else Bit(Ror(immed8, k), 31)
  {
    if k > 0 {
      RorBelow32(immed8, k);
      RotateIsWord(immed8, k);
      TopBit(Ror(immed8, k));
    }
  }

  /** The rotated 8-bit immediate of arm_data_processing.c:445-461. */
  method RotatedImmediate(immed8: Word, rotateImm: nat, cpsr: Word) returns (operand: Word, carry: Flag)
    requires rotateImm < 16
    ensures Shifted(operand, carry) == BarrelShift(ROR, immed8, 2 * rotateImm, FlagC(cpsr))
  {
    operand := Ror(immed8, rotateImm * 2);
    RotatedImmediateCases(immed8, rotateImm * 2, FlagC(cpsr));
    if rotateImm == 0 {
      carry := FlagC(cpsr);
    } else {
      carry := Bit(operand, 31);
    }
  }
}
