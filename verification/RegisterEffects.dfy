/**
 What each instruction that does not use memory does, written out on the bits of its word.
 */
module RegisterEffects {
  import opened Words
  import opened Bitwise
  import opened RegisterFile
  import opened ArmCore
  import opened Encoding
  import opened Shifter
  import opened DataProcessing
  import opened Instruction
  import BranchOther
  import Confinement

  // ---------------------------------------------------------------- the sixteen operators

  /** The value of operator 0 to 15 for its first operand, the shifter operand and the C flag. */
  function Value(op: int, a: Word, b: Word, c: int): Word
    requires 0 <= op < 16
  {
    match op
    case 0 => And(a, b)
    case 1 => Xor(a, b)
    case 2 => (a - b) % 0x1_0000_0000
    case 3 => (b - a) % 0x1_0000_0000
    case 4 => (a + b) % 0x1_0000_0000
    case 5 => (a + b + c) % 0x1_0000_0000
    case 6 => (a - b - 1 + c) % 0x1_0000_0000
    case 7 => (b - a - 1 + c) % 0x1_0000_0000
    case 8 => And(a, b)
    case 9 => Xor(a, b)
    case 10 => (a - b) % 0x1_0000_0000
    case 11 => (a + b) % 0x1_0000_0000
    case 12 => Or(a, b)
    case 13 => b
    case 14 => And(a, 0xFFFF_FFFF - b)
    case _ => 0xFFFF_FFFF - b
  }

  lemma ResultIsValue(op: Opcode, a: Word, b: Word, c: Flag)
    ensures Result(op, a, b, c) == Value(op, a, b, c)
  {
    hide And, Or, Xor;
  }

  predicate InRange(x: int) {
    -0x8000_0000 <= x < 0x8000_0000
  }

  /**
   The flags: N and Z of the value; C clear after a sum, bit 31 after a difference, else the
   shifter's; V of the signed sum or difference, without the carry, for ADD, ADC, CMN, SUB and
   CMP, what the code makes of SBC and RSC, and else as it was.
   */
  lemma OperatorFlags(op: Opcode, a: Word, b: Word, carry: Flag, r: Word, psr: Word)
    ensures var f := NewPsr(op, a, b, carry, r, psr);
            && f % 0x1000_0000 == psr % 0x1000_0000
            && (FlagN(f) == 1 <==> r >= 0x8000_0000)
            && (FlagZ(f) == 1 <==> r == 0)
            && (op in {4, 5, 11} ==> FlagC(f) == 0)
            && (op in {2, 3, 6, 7, 10} ==> (FlagC(f) == 1 <==> r >= 0x8000_0000))
            && (op in {0, 1, 8, 9, 12, 13, 14, 15} ==> FlagC(f) == carry)
            && (op in {4, 5, 11} ==> (FlagV(f) == 1 <==> !InRange(Signed(a) + Signed(b))))
            && (op in {2, 10} ==> (FlagV(f) == 1 <==> !InRange(Signed(a) - Signed(b))))
            && (op in {0, 1, 3, 8, 9, 12, 13, 14, 15} ==> FlagV(f) == FlagV(psr))
  {
    hide FlagN, FlagZ, FlagC, FlagV, WithFlags;
    OverflowMeansRange(a, b, NewCarry(op, r, carry), FlagV(psr) == 1);
    FlagIsBit(psr); FlagIsBit(NewPsr(op, a, b, carry, r, psr));
    SumOverflow(a, b, NewCarry(op, r, carry), FlagV(psr) == 1);
    hide Signed, Add, Sub;
  }

  lemma SumOverflow(a: Word, b: Word, c: bool, v: bool)
    ensures NewOverflow(ADC, a, b, c, v) == NewOverflow(ADD, a, b, c, v)
  {
  }

  lemma FlagIsBit(psr: Word)
    ensures 0 <= FlagC(psr) < 2 && 0 <= FlagV(psr) < 2
  {
  }

  /** V after SBC and RSC: of a - b with one more when the new C is clear, as a 33-bit sum. */
  lemma BorrowOverflow(op: Opcode, a: Word, b: Word, carry: Flag, r: Word, psr: Word)
    requires op == 6 || op == 7
    ensures var x := (a - b) % 0x1_0000_0000 + if r >= 0x8000_0000 then 0 else 1;
            FlagV(NewPsr(op, a, b, carry, r, psr)) == 1 <==>
            (a >= 0x8000_0000) != (b >= 0x8000_0000) && (0x8000_0000 <= x < 0x1_0000_0000) != (a >= 0x8000_0000)
  {
    hide WithFlags, FlagN, FlagZ, FlagC, FlagV;
  }

  // ---------------------------------------------------------------- the shifter operand

  /** Shift type t (LSL, LSR, ASR, ROR) of a word by n > 0 places, and the last bit shifted out. */
  function Shift(t: int, rm: Word, n: nat): (int, int)
    requires 0 <= t < 4 && n > 0
  {
    match t
    case 0 => (rm * Pow2(n) % 0x1_0000_0000, rm * Pow2(n) / 0x1_0000_0000 % 2)
    case 1 => (rm / Pow2(n), rm / Pow2(n - 1) % 2)
    case 2 => (Signed(rm) / Pow2(n) % 0x1_0000_0000, Signed(rm) / Pow2(n - 1) % 2)
    case _ =>
      var r := rm / Pow2(n % 32) + rm % Pow2(n % 32) * Pow2(32 - n % 32);
      (r, r / 0x8000_0000)
  }

  lemma BarrelIsShift(t: ShiftType, rm: Word, n: nat, c: Flag)
    requires n > 0
    ensures BarrelShift(t, rm, n, c).operand == Shift(t, rm, n).0 && BarrelShift(t, rm, n, c).carry == Shift(t, rm, n).1
  {
    hide Pow2, Signed;
  }

  /** An operand and a carry against a pair. */
  predicate Is(o: Shifted, p: (int, int)) {
    o.operand == p.0 && o.carry == p.1
  }

  /** The 8-bit immediate, rotated right by twice the four bits above it. */
  lemma ImmediateOperand(s: State, ins: Word)
    requires ClassOf(ins) == 1
    ensures var i, n := ins % 0x100, 2 * (ins / 0x100 % 16);
            Is(OperandOf(s, ins), if n == 0 then (i, FlagC(Cpsr(s))) else Shift(3, i, n))
  {
    var i, n := ins % 0x100, 2 * (ins / 0x100 % 16);
    if n > 0 { BarrelIsShift(3, i, n, FlagC(Cpsr(s))); }
    NothingShifted(3, i, FlagC(Cpsr(s)));
    hide BarrelShift, Shift, FlagC, ClassOf;
  }

  lemma NothingShifted(t: ShiftType, rm: Word, c: Flag)
    ensures BarrelShift(t, rm, 0, c) == Shifted(rm, c)
  {
  }

  /** Bits 3-0 name the register shifted, bits 11-8 the one whose low byte is the amount. */
  lemma RegisterOperand(s: State, ins: Word)
    requires ClassOf(ins) == 0 && Bit4(ins)
    ensures var rm, n := ReadReg(s, ins % 16), ReadReg(s, ins / 0x100 % 16) % 0x100;
            Is(OperandOf(s, ins), if n == 0 then (rm, FlagC(Cpsr(s))) else Shift(ins / 0x20 % 4, rm, n))
  {
    hide BarrelShift, Shift, FlagC, ClassOf, ReadReg, Bit4;
    var rm, n := ReadReg(s, ins % 16), ReadReg(s, ins / 0x100 % 16) % 0x100;
    if n > 0 { BarrelIsShift(ins / 0x20 % 4, rm, n, FlagC(Cpsr(s))); }
    NothingShifted(ins / 0x20 % 4, rm, FlagC(Cpsr(s)));
  }

  /** Bits 11-7 are the amount; with 0, LSR and ROR are as coded and ASR is by 32. */
  lemma ShiftedOperand(s: State, ins: Word)
    requires ClassOf(ins) == 0 && !Bit4(ins)
    ensures var rm, n, t, psr := ReadReg(s, ins % 16), ins / 0x80 % 32, ins / 0x20 % 4, Cpsr(s);
            Is(OperandOf(s, ins),
               if n > 0 then Shift(t, rm, n)
               else if t == 0 then (rm, FlagC(psr))
               else if t == 1 then (rm, FlagN(psr))
               else if t == 2 then Shift(2, rm, 32)
               else (psr % 2 * 0x8000_0000 + rm / 2, rm % 2))
  {
    hide BarrelShift, Shift, FlagC, FlagN, ClassOf, ReadReg, Bit4;
    var rm, n, t := ReadReg(s, ins % 16), ins / 0x80 % 32, ins / 0x20 % 4;
    if n > 0 { BarrelIsShift(t, rm, n, FlagC(Cpsr(s))); }
    BarrelIsShift(2, rm, 32, FlagC(Cpsr(s)));
    NothingShifted(t, rm, FlagC(Cpsr(s)));
  }

  // ---------------------------------------------------------------- data processing

  /** Bits 24-23 are 10 and bit 20 is clear. */
  predicate IsMiscellaneous(ins: Word) {
    Bit24(ins) && !Bit23(ins) && !Bit20(ins)
  }

  predicate IsDataProcessing(ins: Word) {
    && (ClassOf(ins) == 1 || (ClassOf(ins) == 0 && !(Bit4(ins) && Bit7(ins))))
    && !IsMiscellaneous(ins)
  }

  /**
   Operators 8 to 11 write no register, the others Rd.  With bit 20, and for 8 to 11 always, the
   flags are set: in CPSR, or, when Rd is PC in a mode with an SPSR, on top of that SPSR.
   */
  lemma DataProcessingEffect(s: State, ins: Word, input: Input)
    requires IsDataProcessing(ins)
    ensures var op, a, o, b := ins / 0x20_0000 % 16, ReadReg(s, ins / 0x1_0000 % 16), OperandOf(s, ins), CurrentBank(s);
            var rd, tests := ins / 0x1000 % 16, 8 <= op < 12;
            var r := Value(op, a, o.operand, FlagC(s.cells[31]));
            var c := if tests then s.cells else s.cells[Cell(rd, b) := r];
            var psr := if !tests && rd == 15 && HasSpsr(b) then s.cells[Cell(SPSR, b)] else s.cells[31];
            Execute(s, ins, input) ==
            Done(s.(cells := if Bit20(ins) || tests then c[31 := NewPsr(op, a, o.operand, o.carry, r, psr)] else c), 0)
  {
    hide OperandOf, NewPsr, Result, Value, ReadReg, Bit20, BankOf, FlagC, Cell;
    var op, a, o := OpcodeOf(ins), ReadReg(s, RnOf(ins)), OperandOf(s, ins);
    ResultIsValue(op, a, o.operand, FlagC(s.cells[31]));
    DataProcessingExecutes(s, ins, input);
    hide Execute;
  }

  lemma DataProcessingExecutes(s: State, ins: Word, input: Input)
    requires IsDataProcessing(ins)
    ensures Execute(s, ins, input) == Done(DataProcess(s, ins), 0)
  {
    hide DataProcess;
  }

  /** What Rd reads afterwards is the value of the operator. */
  lemma OperatorWrites(s: State, ins: Word, input: Input)
    requires IsDataProcessing(ins) && ins / 0x1000 % 16 != 15 && !(8 <= ins / 0x20_0000 % 16 < 12)
    ensures var o := Execute(s, ins, input);
            && o.Done? && o.code == 0
            && ReadReg(o.s, ins / 0x1000 % 16) ==
               Value(ins / 0x20_0000 % 16, ReadReg(s, ins / 0x1_0000 % 16), OperandOf(s, ins).operand, FlagC(s.cells[31]))
            && (forall r: GReg :: r != ins / 0x1000 % 16 && r != 15 ==> ReadReg(o.s, r) == ReadReg(s, r))
            && Pc(o.s) == Pc(s) && o.s.mem == s.mem
  {
    hide Execute, Value, NewPsr, OperandOf, Bit20, IsDataProcessing, FlagC, ClearBit1;
    DataProcessingEffect(s, ins, input);
    var op, a, o, b := ins / 0x20_0000 % 16, ReadReg(s, ins / 0x1_0000 % 16), OperandOf(s, ins), CurrentBank(s);
    var rd := ins / 0x1000 % 16;
    var r := Value(op, a, o.operand, FlagC(s.cells[31]));
    var t := Execute(s, ins, input).s;
    FlagsKeepMode(op, a, o, r, s.cells[31]);
    CellsIdentify(rd, b, CPSR, b);
    CellsIdentify(rd, b, PC, b);
    CpsrCell(b);
    assert Cell(PC, b) == 30;
    assert t.cells[31] % 64 == s.cells[31] % 64;
    assert CurrentBank(t) == b;
    hide BankOf, ReadReg;
    forall k: GReg | k != 15 ensures t.cells[Cell(k, b)] == if k == rd then r else s.cells[Cell(k, b)] {
      CellsIdentify(k, b, rd, b);
      CellsIdentify(k, b, CPSR, b);
    }
    hide Cell;
    forall k: GReg | k != 15 ensures ReadReg(t, k) == if k == rd then r else ReadReg(s, k) {
      ReadsCell(s, k);
      ReadsCell(t, k);
    }
  }

  lemma ReadsCell(s: State, r: GReg)
    requires r != 15
    ensures ReadReg(s, r) == s.cells[Cell(r, CurrentBank(s))]
  {
  }

  lemma FlagsKeepMode(op: Opcode, a: Word, o: Shifted, r: Word, psr: Word)
    ensures NewPsr(op, a, o.operand, o.carry, r, psr) % 64 == psr % 64
  {
    Confinement.SameLowBits(NewPsr(op, a, o.operand, o.carry, r, psr), psr);
    hide WithFlags, NewCarry, NewOverflow;
  }

  // ---------------------------------------------------------------- the other instructions

  /** MRS: CPSR or, with bit 22, the SPSR goes to Rd; without an SPSR, DATA_ABORT. */
  lemma StatusEffect(s: State, ins: Word, input: Input)
    requires ClassOf(ins) == 0 && IsMiscellaneous(ins) && !Bit4(ins)
    ensures var b, rd := CurrentBank(s), ins / 0x1000 % 16;
            Execute(s, ins, input) ==
            if !Bit22(ins) then Done(s.(cells := s.cells[Cell(rd, b) := s.cells[31]]), 0)
            else if !HasSpsr(b) then Done(s, 2)
            else Done(s.(cells := s.cells[Cell(rd, b) := s.cells[Cell(SPSR, b)]]), 0)
  {
    hide BankOf, Cell;
  }

  /** BX: PC becomes the register named by bits 3-0 with bit 0 cleared. */
  lemma ExchangeEffect(s: State, ins: Word, input: Input)
    requires ClassOf(ins) == 0 && IsMiscellaneous(ins) && Bit4(ins) && !Bit7(ins)
    ensures var v := ReadReg(s, ins % 16);
            Execute(s, ins, input) == Done(s.(cells := s.cells[30 := v - v % 2]), 0)
  {
    assert Cell(PC, CurrentBank(s)) == 30;
    hide BankOf, Cell, ReadReg;
  }

  /** MUL: bits 19-16 name Rd, bits 11-8 and 3-0 the factors; Z and C are those of the product. */
  lemma MultiplyEffect(s: State, ins: Word, input: Input)
    requires ClassOf(ins) == 0 && Bit4(ins) && Bit7(ins) && !Bit5(ins) && !Bit6(ins)
    ensures var r := ReadReg(s, ins / 0x100 % 16) * ReadReg(s, ins % 16) % 0x1_0000_0000;
            var psr := s.cells[31];
            var f := WithFlags(psr, FlagN(psr) == 1, r == 0, r >= 0x8000_0000, FlagV(psr) == 1);
            Execute(s, ins, input) == Done(s.(cells := s.cells[Cell(ins / 0x1_0000 % 16, CurrentBank(s)) := r][31 := f]), 0)
  {
    hide BankOf, Cell, ReadReg, FlagN, FlagZ, FlagC, FlagV, PutZ, PutC, WithFlags;
    var r := Mul(ReadReg(s, ins / 0x100 % 16), ReadReg(s, ins % 16));
    PutsAsFlags(s.cells[31], Negative(r));
    PutsAsFlags(PutC(s.cells[31], Negative(r)), r == 0);
    LowBitsDecide(PutC(s.cells[31], Negative(r)), s.cells[31], FlagN(s.cells[31]) == 1, r == 0, Negative(r), FlagV(s.cells[31]) == 1);
    MultiplyExecutes(s, ins, input);
    hide Execute;
  }

  lemma MultiplyExecutes(s: State, ins: Word, input: Input)
    requires ClassOf(ins) == 0 && Bit4(ins) && Bit7(ins) && !Bit5(ins) && !Bit6(ins)
    ensures Execute(s, ins, input) == Done(BranchOther.Multiply(s, ins), 0)
  {
    hide BranchOther.Multiply;
  }

  /** The words no handler takes, and SWI, which only comes back as its code. */
  lemma NoEffect(s: State, ins: Word, input: Input)
    ensures ClassOf(ins) == 1 && IsMiscellaneous(ins) ==> Execute(s, ins, input) == Done(s, 7)
    ensures (ClassOf(ins) == 3 && Bit4(ins)) || ClassOf(ins) == 6 ==> Execute(s, ins, input) == Done(s, 7)
    ensures ClassOf(ins) == 7 ==> Execute(s, ins, input) == Done(s, if Bit24(ins) then 8 else 7)
  {
  }
}
