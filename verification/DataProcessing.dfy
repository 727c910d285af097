/**
 arm_data_processing.c: the sixteen operators and the flags (sections A3.4 and A4.1 of DDI 0100).

 `ApplyOperator` is the effect of an instruction whose shifter operand is known.  The flag
 functions below follow the C functions of the same names; the lemmas at the end are the laws
 a programmer relies on, with the exact condition where the code does not always keep them.
 */
module DataProcessing {
  import opened Words
  import opened Bitwise
  import opened RegisterFile
  import opened ArmCore
  import opened Encoding
  import opened Shifter

  type Opcode = o: int | 0 <= o < 16

  const AND: Opcode := 0
  const EOR: Opcode := 1
  const SUB: Opcode := 2
  const RSB: Opcode := 3
  const ADD: Opcode := 4
  const ADC: Opcode := 5
  const SBC: Opcode := 6
  const RSC: Opcode := 7
  const TST: Opcode := 8
  const TEQ: Opcode := 9
  const CMP: Opcode := 10
  const CMN: Opcode := 11
  const ORR: Opcode := 12
  const MOV: Opcode := 13
  const BIC: Opcode := 14
  const MVN: Opcode := 15

  // ---------------------------------------------------------------- flags

  function PutN(psr: Word, b: bool): Word {
    psr % 0x8000_0000 + if b then 0x8000_0000 else 0
  }

  function PutZ(psr: Word, b: bool): Word {
    if b == (FlagZ(psr) == 1) then psr else if b then psr + 0x4000_0000 else psr - 0x4000_0000
  }

  function PutC(psr: Word, b: bool): Word {
    if b == (FlagC(psr) == 1) then psr else if b then psr + 0x2000_0000 else psr - 0x2000_0000
  }

  function PutV(psr: Word, b: bool): Word {
    if b == (FlagV(psr) == 1) then psr else if b then psr + 0x1000_0000 else psr - 0x1000_0000
  }

  /** These are the `set_bit` and `clr_bit` of util.h at bits 31 to 28. */
  lemma PutIsSetOrClear(psr: Word, b: bool)
    ensures PutN(psr, b) == if b then SetBit(psr, 31) else ClrBit(psr, 31)
    ensures PutZ(psr, b) == if b then SetBit(psr, 30) else ClrBit(psr, 30)
    ensures PutC(psr, b) == if b then SetBit(psr, 29) else ClrBit(psr, 29)
    ensures PutV(psr, b) == if b then SetBit(psr, 28) else ClrBit(psr, 28)
  {
    SetAndClear(psr, 31); SetAndClear(psr, 30); SetAndClear(psr, 29); SetAndClear(psr, 28);
    FlagsAreBits(psr);
    Pow2Word();
    assert Pow2(31) == 8 * Pow2(28);
    hide SetBit, ClrBit, Bit;
  }

  /** A status word with the four flags replaced. */
  function WithFlags(psr: Word, n: bool, z: bool, c: bool, v: bool): (r: Word)
    ensures r % 0x1000_0000 == psr % 0x1000_0000
    ensures (FlagN(r) == 1) == n && (FlagZ(r) == 1) == z && (FlagC(r) == 1) == c && (FlagV(r) == 1) == v
  {
    psr % 0x1000_0000 + (if n then 0x8000_0000 else 0) + (if z then 0x4000_0000 else 0)
    + (if c then 0x2000_0000 else 0) + (if v then 0x1000_0000 else 0)
  }

  /** A status word is its flags and its low 28 bits. */
  lemma Split(psr: Word)
    ensures psr == FlagN(psr) * 0x8000_0000 + FlagZ(psr) * 0x4000_0000 + FlagC(psr) * 0x2000_0000
                   + FlagV(psr) * 0x1000_0000 + psr % 0x1000_0000
  {
  }

  lemma PutsAsFlags(x: Word, b: bool)
    ensures PutN(x, b) == WithFlags(x, b, FlagZ(x) == 1, FlagC(x) == 1, FlagV(x) == 1)
    ensures PutZ(x, b) == WithFlags(x, FlagN(x) == 1, b, FlagC(x) == 1, FlagV(x) == 1)
    ensures PutC(x, b) == WithFlags(x, FlagN(x) == 1, FlagZ(x) == 1, b, FlagV(x) == 1)
    ensures PutV(x, b) == WithFlags(x, FlagN(x) == 1, FlagZ(x) == 1, FlagC(x) == 1, b)
  {
    Split(x);
  }

  lemma LowBitsDecide(x: Word, y: Word, n: bool, z: bool, c: bool, v: bool)
    requires x % 0x1000_0000 == y % 0x1000_0000
    ensures WithFlags(x, n, z, c, v) == WithFlags(y, n, z, c, v)
  {
  }

  /** Setting the flags one after the other. */
  lemma PutInSequence(psr: Word, n: bool, z: bool, c: bool, v: bool)
    ensures PutV(PutC(PutZ(PutN(psr, n), z), c), v) == WithFlags(psr, n, z, c, v)
    ensures (FlagC(PutC(PutZ(PutN(psr, n), z), c)) == 1) == c
    ensures PutC(PutZ(PutN(psr, n), z), c) == WithFlags(psr, n, z, c, FlagV(psr) == 1)
  {
    hide PutN, PutZ, PutC, PutV, WithFlags, FlagN, FlagZ, FlagC, FlagV;
    var v0 := FlagV(psr) == 1;
    var p1 := PutN(psr, n);
    var p2 := PutZ(p1, z);
    var p3 := PutC(p2, c);
    PutsAsFlags(psr, n);
    PutsAsFlags(p1, z);
    PutsAsFlags(p2, c);
    PutsAsFlags(p3, v);
    LowBitsDecide(p2, psr, n, z, c, v0);
    LowBitsDecide(p3, psr, n, z, c, v);
  }

  /** `set_zn`, arm_data_processing.c:28. */
  function SetZn(result: Word, psr: Word): Word {
    PutZ(PutN(psr, result >= 0x8000_0000), result == 0)
  }

  /** `carryFrom`; its argument is a 32-bit sum, so the C flag is always cleared. */
  function CarryFrom(result: Word, psr: Word): Word {
    PutC(psr, result >= 0x1_0000_0000)
  }

  /** `borrowFrom`: the C flag is a copy of bit 31. */
  function BorrowFrom(result: Word, psr: Word): Word {
    PutC(psr, result >= 0x8000_0000)
  }

  predicate Negative(w: Word) {
    w >= 0x8000_0000
  }

  /** `overflowFrom`, with the C flag as the caller has just updated it. */
  function OverflowFrom(a: Word, b: Word, op: Opcode, psr: Word): Word {
    if op == ADC || op == ADD || op == CMN then
      PutV(psr, Negative(a) == Negative(b) && Negative(Add(a, b)) != Negative(a))
    else if op == SBC || op == RSC then
      var trueResult: int := Sub(a, b) + (1 - FlagC(psr));
      PutV(psr, Negative(a) != Negative(b) && (trueResult / 0x8000_0000 % 2 == 1) != Negative(a))
    else if op == SUB || op == CMP then
      PutV(psr, Negative(a) != Negative(b) && Negative(Sub(a, b)) != Negative(a))
    else psr
  }

  // ---------------------------------------------------------------- the operators

  predicate IsTest(op: Opcode) {
    TST <= op <= CMN
  }

  predicate IsSum(op: Opcode) {
    op == ADD || op == ADC || op == CMN
  }

  predicate IsDifference(op: Opcode) {
    op == SUB || op == RSB || op == SBC || op == RSC || op == CMP
  }

  function Result(op: Opcode, a: Word, b: Word, c: Flag): Word {
    if op == AND || op == TST then And(a, b)
    else if op == EOR || op == TEQ then Xor(a, b)
    else if op == SUB || op == CMP then Sub(a, b)
    else if op == RSB then Sub(b, a)
    else if op == ADD || op == CMN then Add(a, b)
    else if op == ADC then Add(a, b + c)
    else if op == SBC then Sub(a, b + 1 - c)
    else if op == RSC then Sub(b, a + 1 - c)
    else if op == ORR then Or(a, b)
    else if op == MOV then b
    else if op == BIC then And(a, Not(b))
    else Not(b)
  }

  /** The new C flag: the shifter's for the logical operators, bit 31 for the differences. */
  predicate NewCarry(op: Opcode, result: Word, carry: Flag) {
    if IsSum(op) then false else if IsDifference(op) then Negative(result) else carry == 1
  }

  /** The new V flag, given the old one and the new C flag. */
  predicate NewOverflow(op: Opcode, a: Word, b: Word, c: bool, v: bool) {
    if op == ADD || op == ADC || op == CMN then
      Negative(a) == Negative(b) && Negative(Add(a, b)) != Negative(a)
    else if op == SUB || op == CMP then
      Negative(a) != Negative(b) && Negative(Sub(a, b)) != Negative(a)
    else if op == SBC || op == RSC then
      var trueResult: int := Sub(a, b) + if c then 0 else 1;
      Negative(a) != Negative(b) && (trueResult / 0x8000_0000 % 2 == 1) != Negative(a)
    else v
  }

  function NewPsr(op: Opcode, a: Word, b: Word, carry: Flag, result: Word, psr: Word): (r: Word)
    ensures r % 0x1000_0000 == psr % 0x1000_0000
  {
    var c := NewCarry(op, result, carry);
    WithFlags(psr, Negative(result), result == 0, c, NewOverflow(op, a, b, c, FlagV(psr) == 1))
  }

  /** The chain of C functions computes `NewPsr`. */
  lemma FlagChain(op: Opcode, a: Word, b: Word, carry: Flag, r: Word, psr: Word)
    ensures var zn := SetZn(r, psr);
            NewPsr(op, a, b, carry, r, psr) ==
            if IsSum(op) then OverflowFrom(a, b, op, CarryFrom(r, zn))
            else if IsDifference(op) then OverflowFrom(a, b, op, BorrowFrom(r, zn))
            else PutC(zn, carry == 1)
  {
    var c := NewCarry(op, r, carry);
    PutInSequence(psr, Negative(r), r == 0, c, NewOverflow(op, a, b, c, FlagV(psr) == 1));
    hide PutN, PutZ, PutC, PutV, WithFlags, Add, Sub;
  }

  /** `apply_operator`: what an instruction with this shifter operand and carry does. */
  function ApplyOperator(s: State, ins: Word, operand: Word, carry: Flag): State {
    var op, rd, a := OpcodeOf(ins), RdOf(ins), ReadReg(s, RnOf(ins));
    var r := Result(op, a, operand, FlagC(Cpsr(s)));
    var t := if IsTest(op) then s else WriteReg(s, rd, r);
    if !Bit20(ins) && !IsTest(op) then t
    else
      var restores := !IsTest(op) && rd == PC && HasSpsr(CurrentBank(s));
      SetCpsr(t, NewPsr(op, a, operand, carry, r, if restores then Spsr(s) else Cpsr(s)))
  }

  method PerformOperator(p: Core, ins: Word, operand: Word, carry: Flag, cpsr: Word) returns (code: int)
    requires p.Valid() && cpsr == Cpsr(p.View())
    modifies p.reg.data
    ensures Done(p.View(), code) == Done(ApplyOperator(old(p.View()), ins, operand, carry), 0)
  {
    hide Result, NewPsr, SetZn, CarryFrom, BorrowFrom, OverflowFrom, PutC;
    var op, rd := OpcodeOf(ins), RdOf(ins);
    var a := p.ReadRegister(RnOf(ins));
    var r := Result(op, a, operand, FlagC(cpsr));
    var sets, psr := Bit20(ins), cpsr;
    if IsTest(op) {
      sets := true;
    } else {
      if sets && rd == 15 {
        var has := p.CurrentModeHasSpsr();
        if has { psr := p.ReadSpsr(); }
      }
      p.WriteRegister(rd, r);
    }
    if sets {
      FlagChain(op, a, operand, carry, r, psr);
      psr := SetZn(r, psr);
      if IsSum(op) {
        psr := CarryFrom(r, psr);
        psr := OverflowFrom(a, operand, op, psr);
      } else if IsDifference(op) {
        psr := BorrowFrom(r, psr);
        psr := OverflowFrom(a, operand, op, psr);
      } else {
        psr := PutC(psr, carry == 1);
      }
      p.WriteCpsr(psr);
    }
    code := 0;
  }

  /** The shifter operand of the three encodings. */
  function OperandOf(s: State, ins: Word): Shifted {
    if ClassOf(ins) == 1 then BarrelShift(ROR, ins % 0x100, 2 * RsOf(ins), FlagC(Cpsr(s)))
    else if Bit4(ins) then
      BarrelShift(ShiftTypeOf(ins), ReadReg(s, RmOf(ins)), ReadReg(s, RsOf(ins)) % 256, FlagC(Cpsr(s)))
    else ImmediateShift(ShiftTypeOf(ins), ShiftImmOf(ins), ReadReg(s, RmOf(ins)), Cpsr(s))
  }

  function DataProcess(s: State, ins: Word): State {
    var o := OperandOf(s, ins);
    ApplyOperator(s, ins, o.operand, o.carry)
  }

  /** `arm_data_processing_immediate`, `..._immediate_shift` and `..._register_shift`. */
  method Perform(p: Core, ins: Word, cpsr: Word) returns (code: int)
    requires p.Valid() && cpsr == Cpsr(p.View())
    modifies p.reg.data
    ensures Done(p.View(), code) == Done(DataProcess(old(p.View()), ins), 0)
  {
    hide ApplyOperator, BarrelShift, ImmediateShift, ReadReg, ShiftTypeOf, ShiftImmOf;
    var operand, carry;
    if ClassOf(ins) == 1 {
      operand, carry := RotatedImmediate(ins % 0x100, RsOf(ins), cpsr);
    } else {
      var rm := p.ReadRegister(RmOf(ins));
      if Bit4(ins) {
        var rs := p.ReadRegister(RsOf(ins));
        operand, carry := GetShifterOperandRegisterShift(ShiftTypeOf(ins), rm, rs, cpsr);
      } else {
        operand, carry := GetShifterOperandImmediateShift(ShiftImmOf(ins), ShiftTypeOf(ins), rm, cpsr);
      }
    }
    code := PerformOperator(p, ins, operand, carry, cpsr);
  }

  // ---------------------------------------------------------------- properties

  /** V after ADD, CMN, SUB and CMP is set exactly when the signed result leaves the int32 range. */
  lemma OverflowMeansRange(a: Word, b: Word, c: bool, v: bool)
    ensures (NewOverflow(ADD, a, b, c, v) <==> !(-0x8000_0000 <= Signed(a) + Signed(b) < 0x8000_0000))
         && (NewOverflow(CMN, a, b, c, v) <==> !(-0x8000_0000 <= Signed(a) + Signed(b) < 0x8000_0000))
         && (NewOverflow(SUB, a, b, c, v) <==> !(-0x8000_0000 <= Signed(a) - Signed(b) < 0x8000_0000))
         && (NewOverflow(CMP, a, b, c, v) <==> !(-0x8000_0000 <= Signed(a) - Signed(b) < 0x8000_0000))
  {
  }

  /** N, Z and V of a comparison decide the signed order. */
  lemma ComparisonFlags(a: Word, b: Word, carry: Flag, psr: Word, op: Opcode)
    requires op == SUB || op == CMP
    ensures var r := NewPsr(op, a, b, carry, Sub(a, b), psr);
            && (FlagZ(r) == 1 <==> Signed(a) == Signed(b))
            && (FlagN(r) != FlagV(r) <==> Signed(a) < Signed(b))
  {
  }

  /** Setting CPSR tells the values apart, and its own value changes nothing. */
  lemma SamePsr(t: State, x: Word, y: Word)
    ensures SetCpsr(t, x) == SetCpsr(t, y) <==> x == y
    ensures SetCpsr(t, Cpsr(t)) == t
  {
    assert SetCpsr(t, x).cells[31] == x && SetCpsr(t, y).cells[31] == y;
    assert t.cells[31 := t.cells[31]] == t.cells;
  }

  lemma OwnFlags(psr: Word)
    ensures psr == WithFlags(psr, FlagN(psr) == 1, FlagZ(psr) == 1, FlagC(psr) == 1, FlagV(psr) == 1)
  {
    Split(psr);
  }

  /** The flags an operator computes are those of this status word. */
  predicate FlagsAgree(psr: Word, op: Opcode, a: Word, b: Word, carry: Flag, r: Word) {
    var c := NewCarry(op, r, carry);
    && (FlagN(psr) == 1) == Negative(r) && (FlagZ(psr) == 1) == (r == 0) && (FlagC(psr) == 1) == c
    && (FlagV(psr) == 1) == NewOverflow(op, a, b, c, FlagV(psr) == 1)
  }

  lemma NewPsrSame(psr: Word, op: Opcode, a: Word, b: Word, carry: Flag, r: Word)
    ensures NewPsr(op, a, b, carry, r, psr) == psr <==> FlagsAgree(psr, op, a, b, carry, r)
  {
    OwnFlags(psr);
    hide WithFlags, FlagN, FlagZ, FlagC, FlagV, NewCarry, NewOverflow, Negative;
  }

  /** The return of section A4.1 for an operator with the S bit and Rd = PC: CPSR is the SPSR. */
  function ManualOperatorReturn(s: State, ins: Word, operand: Word): State
    requires HasSpsr(CurrentBank(s))
  {
    var r := Result(OpcodeOf(ins), ReadReg(s, RnOf(ins)), operand, FlagC(Cpsr(s)));
    SetCpsr(WriteReg(s, PC, r), Spsr(s))
  }

  /**
   Returning with any of the operators: the code recomputes NZCV on top of the SPSR, so the
   return is the manual's if and only if the SPSR holds the flags of the operation itself.
   */
  lemma OperatorReturn(s: State, ins: Word, operand: Word, carry: Flag)
    requires Bit20(ins) && RdOf(ins) == PC && !IsTest(OpcodeOf(ins)) && HasSpsr(CurrentBank(s))
    ensures var a := ReadReg(s, RnOf(ins));
            ApplyOperator(s, ins, operand, carry) == ManualOperatorReturn(s, ins, operand) <==>
            FlagsAgree(Spsr(s), OpcodeOf(ins), a, operand, carry, Result(OpcodeOf(ins), a, operand, FlagC(Cpsr(s))))
  {
    hide Result, NewPsr, FlagsAgree, ReadReg, WriteReg, SetCpsr, BankOf, Cell, FlagC;
    var op, a := OpcodeOf(ins), ReadReg(s, RnOf(ins));
    var r := Result(op, a, operand, FlagC(Cpsr(s)));
    NewPsrSame(Spsr(s), op, a, operand, carry, r);
    SamePsr(WriteReg(s, PC, r), NewPsr(op, a, operand, carry, r, Spsr(s)), Spsr(s));
  }

  /** For a move, `MOVS PC, R14` above all: N and Z those of the link, C the shifter's. */
  lemma MoveReturn(psr: Word, a: Word, link: Word, carry: Flag)
    ensures FlagsAgree(psr, MOV, a, link, carry, link) <==>
            (FlagN(psr) == 1) == Negative(link) && (FlagZ(psr) == 1) == (link == 0) && FlagC(psr) == carry
  {
  }

  /** The logical operators work bit by bit. */
  lemma LogicalOperators(a: Word, b: Word, c: Flag, i: nat)
    requires i < 32
    ensures Bit(Result(AND, a, b, c), i) == 1 <==> Bit(a, i) == 1 && Bit(b, i) == 1
    ensures Bit(Result(EOR, a, b, c), i) == 1 <==> Bit(a, i) != Bit(b, i)
    ensures Bit(Result(ORR, a, b, c), i) == 1 <==> Bit(a, i) == 1 || Bit(b, i) == 1
    ensures Bit(Result(BIC, a, b, c), i) == 1 <==> Bit(a, i) == 1 && Bit(b, i) != 1
    ensures Bit(Result(MVN, a, b, c), i) == 1 <==> Bit(b, i) != 1
  {
    hide Bit, AndBits, OrBits, XorBits;
    EachBit(a, b, i);
    EachBit(a, Not(b), i);
    BitsAreBits(b, b, i);
    assert Not(b) == Pow2(32) - 1 - b by { Pow2Word(); }
    EachBitOfNot(b, 32, i);
  }

  function AsFlag(b: bool): Flag {
    if b then 1 else 0
  }

  /**
   Addition in two words, ADDS then ADC.  ADDS always clears C, so the sum is right exactly
   when the low words do not carry; section A4.1.2 of DDI 0100 promises it always.
   */
  lemma WideAddition(lo: Word, hi: Word, lo': Word, hi': Word, shifter: Flag)
    ensures var low := Result(ADD, lo, lo', 0);
            var high := Result(ADC, hi, hi', AsFlag(NewCarry(ADD, low, shifter)));
            high * 0x1_0000_0000 + low == (hi * 0x1_0000_0000 + lo + hi' * 0x1_0000_0000 + lo') % 0x1_0000_0000_0000_0000
            <==> lo + lo' < 0x1_0000_0000
  {
    var carry := if lo + lo' < 0x1_0000_0000 then 0 else 1;
    DivModUnique(lo + lo', 0x1_0000_0000, carry, lo + lo' - carry * 0x1_0000_0000);
    TwoWords(hi + hi' + carry, Add(lo, lo'));
    NextDiffers(hi + hi');
  }

  /** A number of two words modulo 2^64. */
  lemma TwoWords(high: int, low: Word)
    ensures (high * 0x1_0000_0000 + low) % 0x1_0000_0000_0000_0000 == Wrap(high) * 0x1_0000_0000 + low
  {
    DivModUnique(high * 0x1_0000_0000 + low, 0x1_0000_0000_0000_0000, high / 0x1_0000_0000,
                 Wrap(high) * 0x1_0000_0000 + low);
  }

  lemma NextDiffers(x: int)
    ensures Wrap(x + 1) != Wrap(x)
  {
    QuotientRemainder(x, 0x1_0000_0000);
    QuotientRemainder(x + 1, 0x1_0000_0000);
  }

  /**
   Subtraction in two words, SUBS then SBC.  SUBS copies bit 31 of its result to C, where
   section A4.1.106 wants "no borrow": the difference is right exactly when the two agree.
   */
  lemma WideSubtraction(lo: Word, hi: Word, lo': Word, hi': Word, shifter: Flag)
    ensures var low := Result(SUB, lo, lo', 0);
            var high := Result(SBC, hi, hi', AsFlag(NewCarry(SUB, low, shifter)));
            high * 0x1_0000_0000 + low == (hi * 0x1_0000_0000 + lo - (hi' * 0x1_0000_0000 + lo')) % 0x1_0000_0000_0000_0000
            <==> (lo >= lo' <==> Negative(low))
  {
    var borrow := if lo >= lo' then 0 else 1;
    DivModUnique(lo - lo', 0x1_0000_0000, -borrow, lo - lo' + borrow * 0x1_0000_0000);
    TwoWords(hi - hi' - borrow, Sub(lo, lo'));
    NextDiffers(hi - hi' - 1);
  }
}
