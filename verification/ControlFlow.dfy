/**
 Programs of two steps: compare and branch, call and return.
 */
module ControlFlow {
  import opened Words
  import opened MemoryUnit
  import opened RegisterFile
  import opened ArmCore
  import opened Encoding
  import opened DataProcessing
  import opened Exceptions
  import opened Instruction
  import opened Confinement
  import opened Interrupts
  import opened Frames
  import BlockTransfer
  import BranchOther
  import RegisterEffects
  import HalfTransfer
  import SingleTransfer

  /** Where the decoder sends the instructions of this module. */
  lemma Decoded(t: State, ins: Word, input: Input)
    ensures IsCompare(ins) ==> Execute(t, ins, input) == Done(DataProcess(t, ins), 0)
    ensures IsCall(ins) ==> Execute(t, ins, input) == Done(BranchOther.Branch(t, ins), 0)
    ensures IsReturn(ins) ==> Execute(t, ins, input) == Done(BranchOther.BranchExchange(t, ins), 0)
  {
    hide DataProcess, BranchOther.MoveStatus, BranchOther.Branch, BranchOther.BranchExchange, BranchOther.Multiply,
      HalfTransfer.LoadStoreExtra, SingleTransfer.LoadStoreImmediate, SingleTransfer.LoadStoreRegister,
      BlockTransfer.LoadStoreMultiple, RnOf, RdOf, RmOf;
  }

  lemma Stepped(s: State, input: Input)
    requires Executes(s)
    ensures var t, ins := Fetched(s), NextInstruction(s);
            && (IsCompare(ins) ==> Step(s, input) == Done(DataProcess(t, ins), 0))
            && (IsCall(ins) ==> Step(s, input) == Done(BranchOther.Branch(t, ins), 0))
            && (IsReturn(ins) ==> Step(s, input) == Done(BranchOther.BranchExchange(t, ins), 0))
  {
    hide Step, Execute, Raise, Passes, WordAt, CondOf, IsCompare, IsCall, IsReturn, DataProcess,
      BranchOther.Branch, BranchOther.BranchExchange, Fetched;
    StepOf(s, input);
    Decoded(Fetched(s), NextInstruction(s), input);
    RaisesNothing(Fetched(s), input);
  }

  lemma RaisesNothing(t: State, input: Input)
    ensures forall o: Outcome :: o.Done? && o.code == 0 ==> Raise(o, input) == o
  {
  }

  // ---------------------------------------------------------------- compare and branch

  /** CMP, or SUBS whose result is not PC, in any of the three encodings. */
  predicate IsCompare(ins: Word) {
    && (ClassOf(ins) == 1 || (ClassOf(ins) == 0 && !(Bit4(ins) && Bit7(ins))))
    && Bit20(ins)
    && (OpcodeOf(ins) == CMP || (OpcodeOf(ins) == SUB && RdOf(ins) != PC))
  }

  /** The conditions that speak of the signed order. */
  predicate IsOrder(c: Condition) {
    c == EQ || c == NE || c == GE || c == LT || c == GT || c == LE
  }

  predicate Holds(c: Condition, x: int, y: int)
    requires IsOrder(c)
  {
    if c == EQ then x == y
    else if c == NE then x != y
    else if c == GE then x >= y
    else if c == LT then x < y
    else if c == GT then x > y
    else x <= y
  }

  lemma CompareStep(s: State, input: Input)
    requires Executes(s) && IsCompare(NextInstruction(s))
    ensures var o, ins := Step(s, input), NextInstruction(s);
            var a, b := ReadReg(Fetched(s), RnOf(ins)), OperandOf(Fetched(s), ins);
            && o.Done? && o.code == 0 && o.s.mem == s.mem && o.s.be == s.be && Pc(o.s) == Add(Pc(s), 4)
            && Cpsr(o.s) == NewPsr(OpcodeOf(ins), a, b.operand, b.carry, Sub(a, b.operand), Cpsr(s))
  {
    Stepped(s, input);
    hide Step, Passes, WordAt, CondOf, NewPsr;
    var t, ins := Fetched(s), NextInstruction(s);
    assert Cpsr(t) == Cpsr(s) && Pc(t) == Add(Pc(s), 4);
    var o := OperandOf(t, ins);
    hide OperandOf, Step, NewPsr, Fetched, BankOf, WordAt, ReadReg, Passes, CondOf;
    CellsIdentify(RdOf(ins), CurrentBank(t), PC, CurrentBank(t));
    CellsIdentify(RdOf(ins), CurrentBank(t), CPSR, CurrentBank(t));
  }

  /** The conditions decide the signed order of the operands. */
  lemma OrderDecided(a: Word, b: Word, carry: Shifter.Flag, psr: Word, op: Opcode, c: Condition)
    requires (op == SUB || op == CMP) && IsOrder(c)
    ensures Passes(c, NewPsr(op, a, b, carry, Sub(a, b), psr)) <==> Holds(c, Signed(a), Signed(b))
  {
    ComparisonFlags(a, b, carry, psr, op);
    hide NewPsr, FlagN, FlagZ, FlagC, FlagV, Signed;
  }

  /**
   Signed comparison, end to end: after the step of a comparison, the instruction that
   follows it is executed exactly when its condition holds of the two signed operands.
   */
  lemma CompareThenConditional(s: State, input: Input)
    requires Executes(s) && IsCompare(NextInstruction(s))
    ensures Step(s, input).Done?
    ensures var t, ins := Step(s, input).s, NextInstruction(s);
            Pc(t) + 3 < |t.mem| && IsOrder(CondOf(NextInstruction(t))) ==>
              (Executes(t) <==> Holds(CondOf(NextInstruction(t)), Signed(ReadReg(Fetched(s), RnOf(ins))),
                                      Signed(OperandOf(Fetched(s), ins).operand)))
  {
    CompareStep(s, input);
    hide Step, Passes, OperandOf, ReadReg, Fetched, WordAt, NewPsr, Holds, Signed, IsCompare;
    var t, ins := Step(s, input).s, NextInstruction(s);
    var a, b := ReadReg(Fetched(s), RnOf(ins)), OperandOf(Fetched(s), ins);
    if Pc(t) + 3 < |t.mem| && IsOrder(CondOf(NextInstruction(t))) {
      assert OpcodeOf(ins) == SUB || OpcodeOf(ins) == CMP by { ComparesOrSubtracts(ins); }
      OrderDecided(a, b.operand, b.carry, Cpsr(s), OpcodeOf(ins), CondOf(NextInstruction(t)));
    }
  }

  lemma ComparesOrSubtracts(ins: Word)
    requires IsCompare(ins)
    ensures OpcodeOf(ins) == SUB || OpcodeOf(ins) == CMP
  {
  }

  // ---------------------------------------------------------------- set flags and branch

  /** An instruction that sets the flags from its own result: not a return through the SPSR. */
  predicate SetsFlags(ins: Word) {
    RegisterEffects.IsDataProcessing(ins) && Bit20(ins) && (8 <= ins / 0x20_0000 % 16 < 12 || ins / 0x1000 % 16 != 15)
  }

  /** The value such an instruction computes. */
  function ValueOf(s: State, ins: Word): Word {
    var t := Fetched(s);
    RegisterEffects.Value(ins / 0x20_0000 % 16, ReadReg(t, ins / 0x1_0000 % 16), OperandOf(t, ins).operand,
                          FlagC(s.cells[31]))
  }

  lemma SetFlagsStep(s: State, input: Input)
    requires Executes(s) && SetsFlags(NextInstruction(s))
    ensures var o, t, ins := Step(s, input), Fetched(s), NextInstruction(s);
            var a, b := ReadReg(t, ins / 0x1_0000 % 16), OperandOf(t, ins);
            && o.Done? && o.code == 0 && o.s.mem == s.mem && o.s.be == s.be && Pc(o.s) == Add(Pc(s), 4)
            && Cpsr(o.s) == NewPsr(OpcodeOf(ins), a, b.operand, b.carry, ValueOf(s, ins), Cpsr(s))
  {
    hide Step, Execute, Raise, Passes, WordAt, CondOf, NewPsr, OperandOf, ReadReg, Bit20, RegisterEffects.IsDataProcessing,
      RegisterEffects.Value, BankOf, FlagC;
    var t, ins := Fetched(s), NextInstruction(s);
    assert Cpsr(t) == Cpsr(s) && Pc(t) == Add(Pc(s), 4) && t.mem == s.mem && t.be == s.be;
    hide Fetched;
    StepOf(s, input);
    RegisterEffects.DataProcessingEffect(t, ins, input);
    RaisesNothing(t, input);
    var rd, b := ins / 0x1000 % 16, CurrentBank(t);
    CellsIdentify(rd, b, PC, b);
    CellsIdentify(rd, b, CPSR, b);
    assert Cell(PC, b) == 30;
    CpsrCell(b);
    hide Cell;
  }

  /**
   After such an instruction the next one is executed, under MI exactly when the value is
   negative, under PL when it is not, under EQ when it is 0, NE when it is not, and under CS
   exactly when the code's C flag says so: never after a sum, after a difference when bit 31 is
   set, else when the shifter's carry is; and the other way round under CC.
   */
  lemma SetThenConditional(s: State, input: Input)
    requires Executes(s) && SetsFlags(NextInstruction(s))
    ensures Step(s, input).Done?
    ensures var t, ins, r := Step(s, input).s, NextInstruction(s), ValueOf(s, NextInstruction(s));
            var op := ins / 0x20_0000 % 16;
            var carry := if op in {4, 5, 11} then false else if op in {2, 3, 6, 7, 10} then r >= 0x8000_0000
                         else OperandOf(Fetched(s), ins).carry == 1;
            Pc(t) + 3 < |t.mem| ==>
              var cond := CondOf(NextInstruction(t));
              && (cond == 0 ==> (Executes(t) <==> r == 0)) && (cond == 1 ==> (Executes(t) <==> r != 0))
              && (cond == 2 ==> (Executes(t) <==> carry)) && (cond == 3 ==> (Executes(t) <==> !carry))
              && (cond == 4 ==> (Executes(t) <==> r >= 0x8000_0000)) && (cond == 5 ==> (Executes(t) <==> r < 0x8000_0000))
              && (cond == 14 ==> Executes(t)) && (cond == 15 ==> !Executes(t))
  {
    hide Step, Passes, WordAt, CondOf, NewPsr, OperandOf, ReadReg, Fetched, ValueOf, Bit, SetsFlags;
    SetFlagsStep(s, input);
    var t, ins := Step(s, input).s, NextInstruction(s);
    var a, b := ReadReg(Fetched(s), ins / 0x1_0000 % 16), OperandOf(Fetched(s), ins);
    RegisterEffects.OperatorFlags(OpcodeOf(ins), a, b.operand, b.carry, ValueOf(s, ins), Cpsr(s));
    ConditionFlags(Cpsr(t));
    FlagsAreBits(Cpsr(t));
    SignBit(Cpsr(t));
    hide FlagN, FlagZ, FlagC, FlagV;
  }

  // ---------------------------------------------------------------- branches, call and return

  /**
   B and BL, from a word boundary: PC becomes the address plus 8 plus four times the signed
   24-bit offset; with bit 24 R14 becomes the address plus 4; nothing else changes.
   */
  lemma BranchStep(s: State, input: Input)
    requires Executes(s) && ClassOf(NextInstruction(s)) == 5 && Pc(s) % 4 == 0
    ensures var ins: int := NextInstruction(s);
            var offset := if ins % 0x100_0000 < 0x80_0000 then ins % 0x100_0000 else ins % 0x100_0000 - 0x100_0000;
            var link := Cell(14, CurrentBank(s));
            var c := if ins / 0x100_0000 % 2 == 1 then s.cells[link := (Pc(s) + 4) % 0x1_0000_0000] else s.cells;
            Step(s, input) == Done(State(c[30 := (Pc(s) + 8 + 4 * offset) % 0x1_0000_0000], s.mem,
                                         (s.cycles + 1) % 0x1_0000_0000, s.be), 0)
  {
    hide Step, Execute, Raise, Passes, WordAt, CondOf, BankOf, Cell, BranchOther.Branch, Fetched, ClassOf;
    var t, ins := Fetched(s), NextInstruction(s);
    StepOf(s, input);
    BranchExecutes(t, ins, input);
    RaisesNothing(t, input);
    BranchState(s, ins);
  }

  /** The state a branch leaves. */
  lemma BranchState(s: State, ins: Word)
    requires Pc(s) % 4 == 0
    ensures var c := if Bit24(ins) then s.cells[Cell(14, CurrentBank(s)) := Add(Pc(s), 4)] else s.cells;
            BranchOther.Branch(Fetched(s), ins) ==
            State(c[30 := Add(Pc(s), 8 + 4 * BranchOther.SignedOffset(ins))], s.mem, Add(s.cycles, 1), s.be)
  {
    hide ReadReg, Add, Sub, BranchOther.SignedOffset, Bit24;
    var t, offset := Fetched(s), 4 * BranchOther.SignedOffset(ins);
    AlignedPc(s);
    AddAdd(Pc(s), 8, offset);
    AddAdd(Pc(s), 4, 4);
    AddSub(Add(Pc(s), 4), 4);
    LinkAndPc(s, t);
    hide Cell, BankOf;
    var c := if Bit24(ins) then s.cells[Cell(LR, CurrentBank(s)) := Add(Pc(s), 4)] else s.cells;
    assert BranchOther.Branch(t, ins).cells == c[30 := Add(Pc(s), 8 + offset)];
  }

  lemma BranchExecutes(t: State, ins: Word, input: Input)
    requires ClassOf(ins) == 5
    ensures Execute(t, ins, input) == Done(BranchOther.Branch(t, ins), 0)
  {
    hide BranchOther.Branch;
  }

  lemma LinkAndPc(s: State, t: State)
    requires t == Fetched(s)
    ensures CurrentBank(t) == CurrentBank(s) && Cell(PC, CurrentBank(s)) == 30
    ensures Cell(LR, CurrentBank(s)) != 30 && Cell(LR, CurrentBank(s)) != 31
    ensures CurrentBank(WriteReg(t, LR, Sub(ReadReg(t, PC), 4))) == CurrentBank(s)
  {
    hide ReadReg;
  }

  predicate IsCall(ins: Word) {
    ClassOf(ins) == 5 && Bit24(ins)
  }

  /** BX R14. */
  predicate IsReturn(ins: Word) {
    ClassOf(ins) == 0 && Miscellaneous(ins) && Bit4(ins) && !Bit7(ins) && RmOf(ins) == LR
  }

  /** An instruction at a word boundary reads its own address plus 8. */
  lemma AlignedPc(s: State)
    requires Pc(s) % 4 == 0
    ensures ReadReg(Fetched(s), PC) == Add(Pc(s), 8)
  {
    assert Cell(PC, CurrentBank(Fetched(s))) == 30;
    hide BankOf, Cell, Add;
    AddAdd(Pc(s), 4, 4);
    NextAddress(Pc(s));
    NextAddress(Add(Pc(s), 4));
  }

  /** BL at a reaches a + 8 + 4 * offset and leaves a + 4 in R14. */
  lemma Call(s: State, input: Input)
    requires Executes(s) && IsCall(NextInstruction(s)) && Pc(s) % 4 == 0
    ensures var o := Step(s, input);
            && o.Done? && o.code == 0
            && Pc(o.s) == Add(Pc(s), 8 + 4 * BranchOther.SignedOffset(NextInstruction(s)))
            && ReadReg(o.s, LR) == Add(Pc(s), 4)
  {
    hide Step, Passes, WordAt, CondOf, IsCall, BranchOther.Branch, BranchOther.SignedOffset, Add, Sub, ReadReg, Fetched;
    var t, ins := Fetched(s), NextInstruction(s);
    var offset := 4 * BranchOther.SignedOffset(ins);
    AlignedPc(s);
    Stepped(s, input);
    assert Bit24(ins) by { CallsLink(ins); }
    BranchEffect(t, ins);
    AddAdd(Pc(s), 8, offset);
    AddAdd(Pc(s), 4, 4);
    AddSub(Add(Pc(s), 4), 4);
  }

  lemma CallsLink(ins: Word)
    requires IsCall(ins)
    ensures Bit24(ins)
  {
  }

  lemma BranchEffect(t: State, ins: Word)
    requires Bit24(ins)
    ensures var v := BranchOther.Branch(t, ins);
            && Pc(v) == Add(ReadReg(t, PC), 4 * BranchOther.SignedOffset(ins))
            && ReadReg(v, LR) == Sub(ReadReg(t, PC), 4)
  {
    hide BankOf, Add, Sub, BranchOther.SignedOffset;
    assert Cell(PC, CurrentBank(t)) == 30;
    CellsIdentify(LR, CurrentBank(t), CPSR, CurrentBank(t));
    hide ClearBit1;
  }

  /**
   Call and return: a BX R14 executed later, anywhere, with R14 as the call left it, makes
   the next fetch address the one after the call.
   */
  lemma CallThenReturn(s: State, i1: Input, u: State, i2: Input)
    requires Executes(s) && IsCall(NextInstruction(s)) && Pc(s) % 4 == 0
    requires Executes(u) && IsReturn(NextInstruction(u))
    requires Step(s, i1).Done? ==> ReadReg(u, LR) == ReadReg(Step(s, i1).s, LR)
    ensures Step(u, i2).Done? && Step(u, i2).code == 0 && Pc(Step(u, i2).s) == Add(Pc(s), 4)
  {
    hide Step, Passes, WordAt, CondOf, IsCall, IsReturn, BranchOther.BranchExchange, Add, ReadReg, Fetched;
    var t, ins := Fetched(u), NextInstruction(u);
    Call(s, i1);
    Stepped(u, i2);
    FetchedReads(u, LR);
    NextAddress(Pc(s));
    ExchangeEffect(t, ins);
  }

  lemma ExchangeEffect(t: State, ins: Word)
    requires IsReturn(ins) && ReadReg(t, LR) % 4 == 0
    ensures Pc(BranchOther.BranchExchange(t, ins)) == ReadReg(t, LR)
  {
    assert Cell(PC, CurrentBank(t)) == 30;
    hide BankOf, ReadReg, Miscellaneous, Cell;
    var v := ReadReg(t, LR);
    DivModUnique(v, 2, v / 4 * 2, 0);
  }

  // ---------------------------------------------------------------- software interrupts

  predicate IsSwi(ins: Word) {
    ClassOf(ins) == 7 && Bit24(ins)
  }

  /** The exception handler reads the instruction back from memory, at the address it was fetched from. */
  lemma SwiAddress(s: State)
    ensures Sub(ReadReg(Fetched(s), PC), 8) == Pc(s) <==> Pc(s) % 4 < 2
  {
    assert Cell(PC, CurrentBank(Fetched(s))) == 30;
    NextAddress(Pc(s));
    LinkBack(Add(Pc(s), 4));
    var y := ReadReg(Fetched(s), PC);
    SubTwice(y);
    AddSub(Pc(s), 4);
    SubInjective(Sub(y, 4), Add(Pc(s), 4));
    hide Add, Sub, BankOf, Cell, ClearBit1;
  }

  lemma SubTwice(y: Word)
    ensures Sub(Sub(y, 4), 4) == Sub(y, 8)
  {
    AddAdd(y, -4, -4);
  }

  lemma SubInjective(x: Word, y: Word)
    ensures Sub(x, 4) == Sub(y, 4) <==> x == y
  {
  }

  /** What a software interrupt at an even half-word boundary does is decided by its own comment field. */
  lemma SoftwareInterruptStep(s: State, input: Input)
    requires Executes(s) && IsSwi(NextInstruction(s)) && Pc(s) % 4 < 2
    ensures var t, n := Fetched(s), NextInstruction(s) % 0x100_0000;
            Step(s, input) ==
            if n == 0x123456 then Done(t, END_SIMULATION)
            else if n == 3 && Printed(t, input).Overrun? then Undefined
            else if 1 <= n <= 3 then Done(t, 0)
            else if n == 4 then Done(WriteReg(t, 0, input.scanned), 0)
            else Done(t, SOFTWARE_INTERRUPT)
  {
    hide Step, Execute, Raise, Passes, WordAt, CondOf, ReadReg, WriteReg, Sub, IsSwi, Printed;
    var t, ins := Fetched(s), NextInstruction(s);
    assert t.mem == s.mem && t.be == s.be;
    hide Fetched;
    StepOf(s, input);
    SwiAddress(s);
    DecodedSwi(t, ins, input);
    RaisedSwi(t, Pc(s), input);
  }

  /** Raising a software interrupt whose instruction is read back from address a. */
  lemma RaisedSwi(t: State, a: Word, input: Input)
    requires Sub(ReadReg(t, PC), 8) == a && a + 3 < |t.mem|
    ensures var n := WordAt(t.mem, a, t.be) % 0x100_0000;
            Raise(Done(t, SOFTWARE_INTERRUPT), input) ==
            if n == 0x123456 then Done(t, END_SIMULATION)
            else if n == 3 && Printed(t, input).Overrun? then Undefined
            else if 1 <= n <= 3 then Done(t, 0)
            else if n == 4 then Done(WriteReg(t, 0, input.scanned), 0)
            else Done(t, SOFTWARE_INTERRUPT)
  {
    hide WordAt, ReadReg, WriteReg, Sub, Printed;
  }

  lemma DecodedSwi(t: State, ins: Word, input: Input)
    requires IsSwi(ins)
    ensures Execute(t, ins, input) == Done(t, SOFTWARE_INTERRUPT)
  {
    hide DataProcess, HalfTransfer.LoadStoreExtra, SingleTransfer.LoadStoreImmediate,
      SingleTransfer.LoadStoreRegister, BlockTransfer.LoadStoreMultiple;
  }
}
