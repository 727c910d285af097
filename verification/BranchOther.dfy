/**
 arm_branch_other.c: branches, BX, MRS and multiplication.
 */
module BranchOther {
  import opened Words
  import opened Bitwise
  import opened RegisterFile
  import opened ArmCore
  import opened Encoding
  import opened DataProcessing

  /** The 24-bit offset as a signed number of words. */
  function SignedOffset(ins: Word): int {
    var o := ins % 0x100_0000;
    if o < 0x80_0000 then o else o - 0x100_0000
  }

  /** B and BL: the target is relative to the address of the instruction plus 8. */
  function Branch(s: State, ins: Word): State {
    var pc := ReadReg(s, PC);
    var t := if Bit24(ins) then WriteReg(s, LR, Sub(pc, 4)) else s;
    WriteReg(t, PC, Add(pc, 4 * SignedOffset(ins)))
  }

  lemma OffsetPowers()
    ensures Pow2(2) == 4 && Pow2(23) == 0x80_0000 && Pow2(24) == 0x100_0000
  {
    Pow2Add(16, 7);
    Pow2Add(16, 8);
  }

  /** Bit 23 of the offset, and the word with the top byte filled. */
  lemma Extension(o: Word)
    requires o < 0x100_0000
    ensures Bit(o, 23) == (if o >= 0x80_0000 then 1 else 0) && Or(o, 0xFF00_0000) == o + 0xFF00_0000
  {
    OffsetPowers();
    OrDisjoint(o, 0xFF, 24);
    hide OrBits, Pow2;
  }

  lemma TimesFour(o: Word)
    requires o < 0x100_0000
    ensures Shl(o, 2) == 4 * o && Shl(o + 0xFF00_0000, 2) == Wrap(4 * o - 0x400_0000)
  {
    OffsetPowers();
    hide Pow2;
    DivModUnique(4 * (o + 0xFF00_0000), 0x1_0000_0000, 3 + (4 * o + 0xFC00_0000) / 0x1_0000_0000, Wrap(4 * o - 0x400_0000));
  }

  /** The sign extension of arm_branch_other.c:37-47: fill the top byte, then shift. */
  lemma ExtendThenShift(ins: Word, pc: Word)
    ensures var o := ins % 0x100_0000;
            Add(pc, Shl(if Bit(o, 23) == 1 then Or(o, 0xFF00_0000) else o, 2)) == Add(pc, 4 * SignedOffset(ins))
  {
    var o := ins % 0x100_0000;
    Extension(o);
    TimesFour(o);
    AddAdd(0, 4 * o - 0x400_0000, pc);
    hide Or, Bit, Shl;
  }

  method PerformBranch(p: Core, ins: Word) returns (code: int)
    requires p.Valid()
    modifies p.reg.data
    ensures Done(p.View(), code) == Done(Branch(old(p.View()), ins), 0)
  {
    hide Or, Bit, Shl, SignedOffset, Add, Sub, ReadReg, WriteReg;
    var pc := p.ReadRegister(PC);
    if Bit24(ins) {
      p.WriteRegister(LR, Sub(pc, 4));
    }
    var extended := ins % 0x100_0000;
    if Bit(extended, 23) == 1 {
      extended := Or(extended, 0xFF00_0000);
    }
    extended := Shl(extended, 2);
    ExtendThenShift(ins, pc);
    p.WriteRegister(PC, Add(pc, extended));
    code := 0;
  }

  /** MRS. */
  function MoveStatus(s: State, ins: Word): Outcome {
    if !Bit22(ins) then Done(WriteReg(s, RdOf(ins), Cpsr(s)), 0)
    else if !HasSpsr(CurrentBank(s)) then Done(s, DATA_ABORT)
    else Done(WriteReg(s, RdOf(ins), Spsr(s)), 0)
  }

  /** `arm_miscellaneous`. */
  method PerformMoveStatus(p: Core, ins: Word) returns (code: int)
    requires p.Valid()
    modifies p.reg.data
    ensures MoveStatus(old(p.View()), ins) == Done(p.View(), code)
  {
    var v;
    if Bit22(ins) {
      var has := p.CurrentModeHasSpsr();
      if !has { return DATA_ABORT; }
      v := p.ReadSpsr();
    } else {
      v := p.ReadCpsr();
    }
    p.WriteRegister(RdOf(ins), v);
    code := 0;
  }

  /** BX, without the change of instruction set: bit 0 is dropped. */
  function BranchExchange(s: State, ins: Word): State {
    var v := ReadReg(s, RmOf(ins));
    WriteReg(s, PC, v - v % 2)
  }

  lemma MaskLowBit(v: Word)
    ensures And(v, 0xFFFF_FFFE) == v - v % 2
  {
    AndHighMask(v, 1, 32);
    WholeWord(v);
    assert Pow2(1) == 2;
    assert Low(v, 1) == v % 2;
    hide AndBits, Pow2, Low;
  }

  /** `arm_miscellaneous_2`. */
  method PerformBranchExchange(p: Core, ins: Word) returns (code: int)
    requires p.Valid()
    modifies p.reg.data
    ensures Done(p.View(), code) == Done(BranchExchange(old(p.View()), ins), 0)
  {
    var v := p.ReadRegister(RmOf(ins));
    MaskLowBit(v);
    p.WriteRegister(PC, And(v, 0xFFFF_FFFE));
    code := 0;
  }

  predicate Thumb(psr: Word) {
    psr / 32 % 2 == 1
  }

  function PutT(psr: Word, b: bool): Word {
    ThumbBound(psr);
    if Thumb(psr) == b then psr else if b then psr + 32 else psr - 32
  }

  lemma ThumbBound(psr: Word)
    ensures if Thumb(psr) then psr >= 32 else psr < 0xFFFF_FFE0
  {
  }

  /** A branch that exchanges: bit 0 of the target goes to T. */
  function Interworking(s: State, target: Word): State {
    SetCpsr(WriteReg(s, PC, target - target % 2), PutT(Cpsr(s), target % 2 == 1))
  }

  /**
   BX (section A4.1.10) and, when it links, BLX (section A4.1.9), on the state after the fetch:
   R14 gets the address of the next instruction.
   */
  function ManualExchange(s: State, ins: Word, links: bool): State {
    var v := ReadReg(s, RmOf(ins));
    Interworking(if links then WriteReg(s, LR, Pc(s)) else s, v)
  }

  /**
   The simulator's BX is the manual's if and only if the target asks for the instruction set T
   already selects; executed for a BLX, if and only if R14 also held the return address before.
   */
  lemma ExchangeIsArchitectural(s: State, ins: Word, links: bool)
    ensures BranchExchange(s, ins) == ManualExchange(s, ins, links) <==>
            && (ReadReg(s, RmOf(ins)) % 2 == 1) == Thumb(Cpsr(s))
            && (links ==> s.cells[Cell(LR, CurrentBank(s))] == Pc(s))
  {
    hide ReadReg, BankOf, Thumb, PutT;
    var v, b, psr := ReadReg(s, RmOf(ins)), CurrentBank(s), Cpsr(s);
    var x, y := BranchExchange(s, ins), ManualExchange(s, ins, links);
    var wanted := PutT(psr, v % 2 == 1);
    assert wanted == psr <==> (v % 2 == 1) == Thumb(psr) by { PutTSame(psr, v % 2 == 1); }
    ExchangeCells(s, v - v % 2, b);
    assert x.cells[31] == psr && y.cells[31] == wanted;
    assert x.cells[Cell(LR, b)] == s.cells[Cell(LR, b)];
    assert links ==> y.cells[Cell(LR, b)] == Pc(s);
    if wanted == psr && (links ==> s.cells[Cell(LR, b)] == Pc(s)) {
      assert x.cells == y.cells;
    }
  }

  /**
   A word loaded into PC: sections A4.1.23 (LDR) and A4.1.20 (LDM) have it exchange.  LDR writes
   it as it is, which is the same if and only if it and T are both even; LDM clears two bits,
   which is the same if and only if bit 1 is clear and bit 0 equals T.
   */
  lemma LoadedPcIsArchitectural(s: State, w: Word)
    ensures WriteReg(s, PC, w) == Interworking(s, w) <==> w % 2 == 0 && !Thumb(Cpsr(s))
    ensures WriteReg(s, PC, w - w % 4) == Interworking(s, w) <==> w % 4 < 2 && (w % 2 == 1) == Thumb(Cpsr(s))
  {
    PcWritten(s, w, w);
    PcWritten(s, w, w - w % 4);
    HalfWords(w);
    hide Interworking, WriteReg, Thumb;
  }

  lemma HalfWords(w: Word)
    ensures w - w % 4 == w - w % 2 <==> w % 4 < 2
    ensures w - w % 2 == w <==> w % 2 == 0
  {
    DivDiv(w, 2, 2);
    QuotientRemainder(w / 2, 2);
  }

  lemma PcWritten(s: State, w: Word, v: Word)
    ensures WriteReg(s, PC, v) == Interworking(s, w) <==> v == w - w % 2 && (w % 2 == 1) == Thumb(Cpsr(s))
  {
    hide Thumb, PutT;
    var psr := Cpsr(s);
    var wanted := PutT(psr, w % 2 == 1);
    assert wanted == psr <==> (w % 2 == 1) == Thumb(psr) by { PutTSame(psr, w % 2 == 1); }
    assert Cell(PC, CurrentBank(s)) == 30;
    hide Cell, BankOf;
    var x, y := WriteReg(s, PC, v), Interworking(s, w);
    assert x.cells[31] == psr && y.cells[31] == wanted;
    assert x.cells[30] == v && y.cells[30] == w - w % 2;
    if wanted == psr && v == w - w % 2 { assert x.cells == y.cells; }
  }

  lemma PutTSame(psr: Word, b: bool)
    ensures PutT(psr, b) == psr <==> b == Thumb(psr)
  {
  }

  /** The three cells involved are different ones. */
  lemma ExchangeCells(s: State, v: Word, b: Bank)
    ensures Cell(PC, b) == 30 && Cell(LR, b) != 30 && Cell(LR, b) != 31
  {
  }

  /**
   `arm_multiply`.  The register fields are Rd in bits 19-16, Rs and Rm; bit 4, always set
   here, is taken for S, and the sign goes to C.
   */
  function Multiply(s: State, ins: Word): State {
    var r := Mul(ReadReg(s, RsOf(ins)), ReadReg(s, RmOf(ins)));
    var t := WriteReg(s, RnOf(ins), r);
    if Bit4(ins) then SetCpsr(t, PutZ(PutC(Cpsr(s), Negative(r)), r == 0)) else t
  }

  /** The words of MUL (section A4.1.40): bits 27-21 clear and 1001 in bits 7-4. */
  predicate IsMul(ins: Word) {
    ClassOf(ins) == 0 && OpcodeOf(ins) == 0 && Bit7(ins) && !Bit6(ins) && !Bit5(ins) && Bit4(ins)
  }

  /** What section A4.1.40 asks: N and Z of the product when bit 20 is set, else no flag. */
  function ManualMul(s: State, ins: Word): State {
    var r := Mul(ReadReg(s, RsOf(ins)), ReadReg(s, RmOf(ins)));
    var t := WriteReg(s, RnOf(ins), r);
    if Bit20(ins) then SetCpsr(t, PutZ(PutN(Cpsr(s), Negative(r)), r == 0)) else t
  }

  /** The product is right for the signed and the unsigned reading of its factors alike. */
  lemma MultiplyProduct(s: State, ins: Word)
    ensures var t, a, b := Multiply(s, ins), ReadReg(s, RsOf(ins)), ReadReg(s, RmOf(ins));
            t.cells[Cell(RnOf(ins), CurrentBank(s))] == Wrap(a * b) == Wrap(Signed(a) * Signed(b))
  {
    SignedProduct(ReadReg(s, RsOf(ins)), ReadReg(s, RmOf(ins)));
    CellsIdentify(RnOf(ins), CurrentBank(s), CPSR, CurrentBank(s));
    hide Mul, PutC, PutZ, ReadReg, BankOf, Cell, Negative;
  }

  /**
   A MUL is the manual's if and only if the flags it should not have written, or should have
   written, hold by chance what it leaves: with S clear, Z and C those of the product; with S
   set, N and C both its sign.
   */
  lemma MulIsArchitectural(s: State, ins: Word)
    requires IsMul(ins)
    ensures var r := Mul(ReadReg(s, RsOf(ins)), ReadReg(s, RmOf(ins)));
            var n, z, c := FlagN(Cpsr(s)) == 1, FlagZ(Cpsr(s)) == 1, FlagC(Cpsr(s)) == 1;
            Multiply(s, ins) == ManualMul(s, ins) <==>
            if Bit20(ins) then n == Negative(r) && c == Negative(r) else z == (r == 0) && c == Negative(r)
  {
    hide Mul, ReadReg, BankOf, Cell, WriteReg, SetCpsr, Negative, PutN, PutZ, PutC, FlagN, FlagZ, FlagC, FlagV, IsMul;
    assert Bit4(ins) by { MulHasBit4(ins); }
    var r, psr := Mul(ReadReg(s, RsOf(ins)), ReadReg(s, RmOf(ins))), Cpsr(s);
    var t := WriteReg(s, RnOf(ins), r);
    WrittenPsr(s, RnOf(ins), r);
    FlagsOfMul(psr, Negative(r), r == 0);
    var code := PutZ(PutC(psr, Negative(r)), r == 0);
    SamePsr(t, code, psr);
    SamePsr(t, code, PutZ(PutN(psr, Negative(r)), r == 0));
  }

  lemma MulHasBit4(ins: Word)
    requires IsMul(ins)
    ensures Bit4(ins)
  {
  }

  lemma WrittenPsr(s: State, r: GReg, v: Word)
    ensures Cpsr(WriteReg(s, r, v)) == Cpsr(s)
  {
    CellsIdentify(r, CurrentBank(s), CPSR, CurrentBank(s));
    hide BankOf, Cell;
    assert Cell(CPSR, CurrentBank(s)) == 31 by { CpsrCell(CurrentBank(s)); }
  }

  /** When the flags left by the code are those wanted. */
  lemma FlagsOfMul(psr: Word, sign: bool, zero: bool)
    ensures var code := PutZ(PutC(psr, sign), zero);
            && (code == PutZ(PutN(psr, sign), zero) <==> (FlagN(psr) == 1) == sign && (FlagC(psr) == 1) == sign)
            && (code == psr <==> (FlagZ(psr) == 1) == zero && (FlagC(psr) == 1) == sign)
  {
    hide PutN, PutZ, PutC, WithFlags, FlagN, FlagZ, FlagC, FlagV;
    PutsAsFlags(psr, sign);
    PutsAsFlags(PutC(psr, sign), zero);
    PutsAsFlags(PutN(psr, sign), zero);
    LowBitsDecide(PutC(psr, sign), psr, FlagN(psr) == 1, zero, sign, FlagV(psr) == 1);
    LowBitsDecide(PutN(psr, sign), psr, sign, zero, FlagC(psr) == 1, FlagV(psr) == 1);
    OwnFlags(psr);
  }

  /** MUL R0, R1, R2 without S changes the status of a state where the product is 1 and Z is set. */
  lemma MulChangesFlags(s: State)
    requires ReadReg(s, 1) == 1 && ReadReg(s, 2) == 1 && FlagZ(Cpsr(s)) == 1
    ensures IsMul(0xE000_0291) && !Bit20(0xE000_0291) && Multiply(s, 0xE000_0291) != ManualMul(s, 0xE000_0291)
  {
    hide ReadReg, FlagN, FlagZ, FlagC, FlagV, Multiply, ManualMul;
    assert IsMul(0xE000_0291) && !Bit20(0xE000_0291);
    MulIsArchitectural(s, 0xE000_0291);
    assert RsOf(0xE000_0291) == 2 && RmOf(0xE000_0291) == 1;
  }

  /** Replacing a factor by its signed reading changes the product by a multiple of 2^32. */
  lemma SignedProduct(a: Word, b: Word)
    ensures Wrap(a * b) == Wrap(Signed(a) * Signed(b)) == Mul(a, b)
  {
    SignedFactor(a, b);
    SignedFactor(b, Signed(a));
    assert Signed(a) * b == b * Signed(a) && Signed(b) * Signed(a) == Signed(a) * Signed(b);
    hide Signed, Wrap;
  }

  lemma SignedFactor(a: Word, x: int)
    ensures Wrap(Signed(a) * x) == Wrap(a * x)
  {
    if a >= 0x8000_0000 {
      Distribute(a, -0x1_0000_0000, x);
      QuotientRemainder(a * x, 0x1_0000_0000);
      DivModUnique(Signed(a) * x, 0x1_0000_0000, a * x / 0x1_0000_0000 - x, Wrap(a * x));
    }
  }

  method PerformMultiply(p: Core, ins: Word, cpsr: Word) returns (code: int)
    requires p.Valid() && cpsr == Cpsr(p.View())
    modifies p.reg.data
    ensures Done(p.View(), code) == Done(Multiply(old(p.View()), ins), 0)
  {
    hide PutC, PutZ, Mul;
    var rs := p.ReadRegister(RsOf(ins));
    var rm := p.ReadRegister(RmOf(ins));
    var r := Mul(rs, rm);
    p.WriteRegister(RnOf(ins), r);
    if Bit4(ins) {
      var psr := PutC(cpsr, r >= 0x8000_0000);
      psr := PutZ(psr, r == 0);
      p.WriteCpsr(psr);
    }
    code := 0;
  }
}
