/**
 What one step can reach: the registers of the current bank, CPSR and memory.

 `StepConfined` goes through every handler of the decoder.  A step changes no cell that the
 current bank does not name, if and only if it is not a load multiple that restores CPSR and
 then writes its base back to another register, in the bank it has just switched to.
 */
module Confinement {
  import opened Words
  import opened MemoryUnit
  import opened RegisterFile
  import opened ArmCore
  import opened Encoding
  import opened DataProcessing
  import BlockTransfer
  import BlockInverse
  import SingleTransfer
  import HalfTransfer
  import BranchOther
  import opened Exceptions
  import opened Instruction

  /** No register of bank b other than its SPSR is this cell. */
  predicate Private(c: int, b: Bank) {
    forall r: Reg :: r != SPSR ==> Cell(r, b) != c
  }

  /** From s to t nothing outside bank b, CPSR and memory changed. */
  ghost predicate Confined(b: Bank, s: State, t: State) {
    && t.be == s.be && |t.mem| == |s.mem|
    && forall c :: 0 <= c < 37 && Private(c, b) ==> t.cells[c] == s.cells[c]
  }

  /** t is confined, in the mode of s if that mode has no SPSR. */
  ghost predicate Quiet(s: State, t: State) {
    Confined(CurrentBank(s), s, t) && (!HasSpsr(CurrentBank(s)) ==> ModeOf(t) == ModeOf(s))
  }

  /** The results of the handlers; RESET and INTERRUPT are not among them. */
  predicate HandlerCode(code: int) {
    code == 0 || code == FAILED || code == DATA_ABORT
    || code == UNDEFINED_INSTRUCTION || code == SOFTWARE_INTERRUPT
  }

  ghost predicate QuietOutcome(s: State, o: Outcome) {
    o.Done? ==> Quiet(s, o.s) && HandlerCode(o.code)
  }

  // ---------------------------------------------------------------- the building blocks

  lemma WriteRegStays(s: State, r: GReg, v: Word)
    ensures Confined(CurrentBank(s), s, WriteReg(s, r, v))
    ensures Cpsr(WriteReg(s, r, v)) == Cpsr(s)
  {
  }

  /** Writing a register and then the status word, in a state already confined. */
  lemma ThenWriteReg(s: State, t: State, r: GReg, v: Word)
    requires Confined(CurrentBank(s), s, t) && ModeOf(t) == ModeOf(s)
    ensures Confined(CurrentBank(s), s, WriteReg(t, r, v)) && ModeOf(WriteReg(t, r, v)) == ModeOf(s)
  {
    WriteRegStays(t, r, v);
  }

  lemma ThenSetCpsr(s: State, t: State, v: Word)
    requires Confined(CurrentBank(s), s, t)
    ensures Confined(CurrentBank(s), s, SetCpsr(t, v))
  {
    assert Cell(CPSR, CurrentBank(s)) == 31;
  }

  lemma SameLowBits(x: Word, y: Word)
    requires x % 0x1000_0000 == y % 0x1000_0000
    ensures x % 64 == y % 64
  {
    DivModUnique(x, 64, x / 0x1000_0000 * 0x40_0000 + x % 0x1000_0000 / 64, x % 0x1000_0000 % 64);
    DivModUnique(y, 64, y / 0x1000_0000 * 0x40_0000 + y % 0x1000_0000 / 64, y % 0x1000_0000 % 64);
  }

  lemma FetchedStays(s: State)
    ensures Confined(CurrentBank(s), s, Fetched(s)) && Cpsr(Fetched(s)) == Cpsr(s)
  {
    assert Cell(PC, CurrentBank(s)) == 30;
  }

  lemma Compose(b: Bank, s: State, t: State, u: State)
    requires Confined(b, s, t) && Confined(b, t, u)
    ensures Confined(b, s, u)
  {
  }

  // ---------------------------------------------------------------- the handlers

  lemma DataProcessStays(s: State, ins: Word)
    ensures Quiet(s, DataProcess(s, ins))
  {
    var o := OperandOf(s, ins);
    hide OperandOf;
    OperatorStays(s, ins, o.operand, o.carry);
  }

  lemma OperatorStays(s: State, ins: Word, operand: Word, carry: Shifter.Flag)
    ensures Quiet(s, ApplyOperator(s, ins, operand, carry))
  {
    hide Result, Private, Cell, BankOf, Confined, WriteReg, SetCpsr;
    var op, rd, a := OpcodeOf(ins), RdOf(ins), ReadReg(s, RnOf(ins));
    var r := Result(op, a, operand, FlagC(Cpsr(s)));
    var t := if IsTest(op) then s else WriteReg(s, rd, r);
    ItselfConfined(s);
    WriteRegStays(s, rd, r);
    if Bit20(ins) || IsTest(op) {
      var restores := !IsTest(op) && rd == PC && HasSpsr(CurrentBank(s));
      var psr := if restores then Spsr(s) else Cpsr(s);
      var n := NewPsr(op, a, operand, carry, r, psr);
      ThenSetCpsr(s, t, n);
      SameLowBits(n, psr);
      CpsrIsSet(t, n);
      hide NewPsr;
    }
  }

  lemma CpsrIsSet(t: State, v: Word)
    ensures Cpsr(SetCpsr(t, v)) == v
  {
  }

  lemma ItselfConfined(s: State)
    ensures Confined(CurrentBank(s), s, s)
  {
  }

  lemma MultiplyStays(s: State, ins: Word)
    ensures Quiet(s, BranchOther.Multiply(s, ins))
  {
    hide Private, Cell, BankOf, Confined, WriteReg, SetCpsr, Mul;
    var r := Mul(ReadReg(s, RsOf(ins)), ReadReg(s, RmOf(ins)));
    var t := WriteReg(s, RnOf(ins), r);
    WriteRegStays(s, RnOf(ins), r);
    var psr := PutZ(PutC(Cpsr(s), Negative(r)), r == 0);
    ThenSetCpsr(s, t, psr);
    CpsrIsSet(t, psr);
    PutsAsFlags(Cpsr(s), Negative(r));
    PutsAsFlags(PutC(Cpsr(s), Negative(r)), r == 0);
    SameLowBits(psr, Cpsr(s));
    hide PutC, PutZ;
  }

  lemma StatusStays(s: State, ins: Word)
    ensures QuietOutcome(s, BranchOther.MoveStatus(s, ins))
  {
    hide Cell, BankOf, Private;
    ItselfConfined(s);
    WriteRegStays(s, RdOf(ins), Cpsr(s));
    if HasSpsr(CurrentBank(s)) { WriteRegStays(s, RdOf(ins), Spsr(s)); }
  }

  lemma BranchStays(s: State, ins: Word)
    ensures Quiet(s, BranchOther.Branch(s, ins))
  {
    hide Private, Cell, BankOf, Confined, WriteReg, ReadReg, Add, Sub, BranchOther.SignedOffset;
    var pc := ReadReg(s, PC);
    ItselfConfined(s);
    ThenWriteReg(s, s, LR, Sub(pc, 4));
    var t := if Bit24(ins) then WriteReg(s, LR, Sub(pc, 4)) else s;
    ThenWriteReg(s, t, PC, Add(pc, 4 * BranchOther.SignedOffset(ins)));
  }

  lemma ExchangeStays(s: State, ins: Word)
    ensures Quiet(s, BranchOther.BranchExchange(s, ins))
  {
    hide Private, Cell, BankOf, Confined, WriteReg, ReadReg;
    var v := ReadReg(s, RmOf(ins));
    ItselfConfined(s);
    ThenWriteReg(s, s, PC, v - v % 2);
  }

  lemma StoreWordStays(s: State, t: State, a: Word, w: Word)
    requires Confined(CurrentBank(s), s, t) && ModeOf(t) == ModeOf(s)
    ensures var o := StoreWord(t, a, w);
            o.Done? ==> Confined(CurrentBank(s), s, o.s) && ModeOf(o.s) == ModeOf(s) && (o.code == OK || o.code == FAILED)
  {
    hide Cell, BankOf, Private;
  }

  lemma StoreByteStays(s: State, a: Word, v: Byte)
    ensures var o := StoreByte(s, a, v);
            o.Done? ==> Confined(CurrentBank(s), s, o.s) && ModeOf(o.s) == ModeOf(s) && (o.code == OK || o.code == FAILED)
  {
    hide Cell, BankOf, Private;
  }

  lemma StoreHalfStays(s: State, a: Word, v: Half)
    ensures var o := StoreHalf(s, a, v);
            o.Done? ==> Confined(CurrentBank(s), s, o.s) && ModeOf(o.s) == ModeOf(s) && (o.code == OK || o.code == FAILED)
  {
    hide Cell, BankOf, Private;
  }

  lemma SingleStays(s: State, f: SingleTransfer.Form, offset: Word)
    ensures QuietOutcome(s, SingleTransfer.Transfer(s, f, offset))
  {
    hide Private, Cell, BankOf, Confined, WriteReg, SingleTransfer.Indexed;
    ItselfConfined(s);
    var base := ReadReg(s, f.rn);
    var moved := SingleTransfer.Indexed(f.up, base, offset);
    var a := if f.pre then moved else base;
    var o := SingleTransfer.Access(s, f.load, f.byte, a, f.rd);
    AccessStays(s, f.load, f.byte, a, f.rd);
    hide SingleTransfer.Access;
    if o.Done? { ThenWriteReg(s, o.s, f.rn, moved); }
  }

  lemma AccessStays(s: State, load: bool, byte: bool, a: Word, rd: GReg)
    ensures var o := SingleTransfer.Access(s, load, byte, a, rd);
            o.Done? ==> Confined(CurrentBank(s), s, o.s) && ModeOf(o.s) == ModeOf(s) && (o.code == OK || o.code == FAILED)
  {
    hide Private, Cell, BankOf, Confined, WriteReg, ReadReg, WordAt, PutWord, StoreWord, StoreByte;
    ItselfConfined(s);
    StoreWordStays(s, s, a, ReadReg(s, rd));
    StoreByteStays(s, a, ReadReg(s, rd) % 0x100);
    if load && a < |s.mem| {
      WriteRegStays(s, rd, s.mem[a]);
      if a + 3 < |s.mem| { WriteRegStays(s, rd, WordAt(s.mem, a, s.be)); }
    }
  }

  lemma ExtraStays(s: State, ins: Word)
    ensures QuietOutcome(s, HalfTransfer.LoadStoreExtra(s, ins))
  {
    hide Private, Cell, BankOf, Confined, WriteReg, SingleTransfer.Indexed, HalfTransfer.ExtraAccess, HalfTransfer.ExtraOffset;
    var rn := RnOf(ins);
    ItselfConfined(s);
    var base := ReadReg(s, rn);
    var moved := SingleTransfer.Indexed(Bit23(ins), base, HalfTransfer.ExtraOffset(s, ins));
    ThenWriteReg(s, s, rn, moved);
    var t := if Bit24(ins) && !Bit21(ins) then s else WriteReg(s, rn, moved);
    var a := if Bit24(ins) then moved else base;
    ExtraAccessStays(t, HalfTransfer.KindOf(ins), a, RdOf(ins));
    var o := HalfTransfer.ExtraAccess(t, HalfTransfer.KindOf(ins), a, RdOf(ins));
    if o.Done? { Compose(CurrentBank(s), s, t, o.s); }
  }

  lemma ExtraAccessStays(s: State, kind: int, a: Word, rd: GReg)
    ensures var o := HalfTransfer.ExtraAccess(s, kind, a, rd);
            o.Done? ==> Confined(CurrentBank(s), s, o.s) && ModeOf(o.s) == ModeOf(s) && HandlerCode(o.code)
  {
    hide Private, Cell, BankOf, Confined, WriteReg, ReadReg, WordAt, HalfAt, StoreHalf, HalfTransfer.ExtendByte, HalfTransfer.ExtendHalf;
    ItselfConfined(s);
    StoreHalfStays(s, a, ReadReg(s, rd) % 0x1_0000);
    if kind == 2 && HalfTransfer.DoubleAllowed(rd, a) {
      DoubleLoadStays(s, a, rd);
    } else if kind == 3 && HalfTransfer.DoubleAllowed(rd, a) {
      DoubleStoreStays(s, a, rd);
    } else if kind == 6 {
      WriteRegStays(s, rd, if a < |s.mem| then HalfTransfer.ExtendByte(s.mem[a]) else 0);
    } else if (kind == 5 || kind == 7) && HalfDefined(s.mem, a) {
      WriteRegStays(s, rd, if kind == 5 then HalfTransfer.HalfOr0(s, a)
                           else HalfTransfer.ExtendHalf(HalfTransfer.HalfOr0(s, a)));
    }
    hide HalfTransfer.LoadDouble, HalfTransfer.StoreDouble;
  }

  lemma DoubleLoadStays(s: State, a: Word, rd: GReg)
    requires HalfTransfer.DoubleAllowed(rd, a)
    ensures var o := HalfTransfer.LoadDouble(s, a, rd);
            o.Done? ==> Confined(CurrentBank(s), s, o.s) && ModeOf(o.s) == ModeOf(s) && HandlerCode(o.code)
  {
    hide Private, Cell, BankOf, Confined, WriteReg, WordAt;
    if WordDefined(s.mem, a) {
      var low := HalfTransfer.ReadOr(s, a, 0);
      WriteRegStays(s, rd, low);
      if WordDefined(s.mem, Add(a, 4)) {
        ThenWriteReg(s, WriteReg(s, rd, low), rd + 1, HalfTransfer.ReadOr(s, Add(a, 4), low));
      }
    }
  }

  lemma DoubleStoreStays(s: State, a: Word, rd: GReg)
    requires HalfTransfer.DoubleAllowed(rd, a)
    ensures var o := HalfTransfer.StoreDouble(s, a, rd);
            o.Done? ==> Confined(CurrentBank(s), s, o.s) && ModeOf(o.s) == ModeOf(s) && HandlerCode(o.code)
  {
    hide Private, Cell, BankOf, Confined, ReadReg;
    ItselfConfined(s);
    StoreWordStays(s, s, a, ReadReg(s, rd));
    var o := StoreWord(s, a, ReadReg(s, rd));
    hide StoreWord;
    if o.Done? {
      StoreWordStays(s, o.s, Add(a, 4), ReadReg(o.s, rd + 1));
    }
  }

  lemma {:induction false} TransfersStay(s: State, load: bool, list: nat, i: nat, address: Word, data: Word)
    requires i <= 16
    ensures var r := BlockTransfer.TransferFrom(s, load, list, i, address, data);
            r.Moved? ==> Confined(CurrentBank(s), s, r.s) && ModeOf(r.s) == ModeOf(s)
    decreases 16 - i
  {
    hide Private, Cell, BankOf, Confined, WriteReg, ReadReg, WordAt, PutWord;
    ItselfConfined(s);
    if i < 16 {
      if !BlockTransfer.Listed(list, i) {
        TransfersStay(s, load, list, i + 1, address, data);
      } else if load {
        if WordDefined(s.mem, address) {
          var d := if address < |s.mem| then WordAt(s.mem, address, s.be) else data;
          var d' := if i == 15 then d - d % 4 else d;
          var t := WriteReg(s, i, d');
          WriteRegStays(s, i, d');
          TransfersStay(t, load, list, i + 1, Add(address, 4), d');
          var r := BlockTransfer.TransferFrom(t, load, list, i + 1, Add(address, 4), d');
          if r.Moved? { Compose(CurrentBank(s), s, t, r.s); }
        }
      } else {
        var o := StoreWord(s, address, ReadReg(s, i));
        StoreWordStays(s, s, address, ReadReg(s, i));
        hide StoreWord;
        if o.Done? {
          TransfersStay(o.s, load, list, i + 1, Add(address, 4), data);
          var r := BlockTransfer.TransferFrom(o.s, load, list, i + 1, Add(address, 4), data);
          if r.Moved? { Compose(CurrentBank(s), s, o.s, r.s); }
        }
      }
    }
  }

  /** A load multiple with the S bit and PC in its list: it restores CPSR from the SPSR. */
  predicate RestoresPsr(ins: Word) {
    ClassOf(ins) == 4 && Bit20(ins) && Bit22(ins) && BlockTransfer.Listed(BlockTransfer.ListOf(ins), 15)
  }

  /** The combination that writes its base back in the bank it restores. */
  predicate SwitchesThenWrites(s: State, ins: Word) {
    RestoresPsr(ins) && Bit21(ins) && HasSpsr(CurrentBank(s))
  }

  /** The bank that restoring CPSR selects. */
  function RestoredBank(s: State): Bank
    requires HasSpsr(CurrentBank(s))
  {
    BankOf(Spsr(s) % 64)
  }

  /** It changes a register of the restored bank that the current one does not see. */
  predicate WritesElsewhere(s: State, ins: Word) {
    && SwitchesThenWrites(s, ins)
    && !Shared(RnOf(ins), RestoredBank(s), CurrentBank(s))
    && s.cells[Cell(RnOf(ins), RestoredBank(s))] != BlockInverse.BlockOf(s, ins).writeback
  }

  lemma PrivateCell(r: GReg, b: Bank, b': Bank)
    ensures Private(Cell(r, b), b') <==> !Shared(r, b, b')
  {
    hide Shared, Cell;
    forall r': Reg | r' != SPSR ensures Cell(r', b') == Cell(r, b) <==> r == r' && Shared(r, b, b') {
      CellsIdentify(r, b, r', b');
    }
    assert Cell(r, b') == Cell(r, b) <==> Shared(r, b, b');
  }

  /** Restoring CPSR and then writing a register. */
  lemma SwitchStays(s: State, t: State, rn: GReg, v: Word)
    requires HasSpsr(CurrentBank(s)) && Confined(CurrentBank(s), s, t) && ModeOf(t) == ModeOf(s)
    ensures Spsr(t) == Spsr(s)
    ensures var u, b' := WriteReg(SetCpsr(t, Spsr(s)), rn, v), RestoredBank(s);
            && CurrentBank(u) == b'
            && (Confined(CurrentBank(s), s, u) <==>
                Shared(rn, b', CurrentBank(s)) || s.cells[Cell(rn, b')] == v)
  {
    var b, b' := CurrentBank(s), RestoredBank(s);
    assert Private(Cell(SPSR, b), b) by {
      forall r: Reg | r != SPSR ensures Cell(r, b) != Cell(SPSR, b) { CellsIdentify(SPSR, b, r, b); }
    }
    ThenSetCpsr(s, t, Spsr(s));
    PrivateCell(rn, b', b);
    var w := SetCpsr(t, Spsr(s));
    assert CurrentBank(w) == b';
    WriteRegStays(w, rn, v);
    hide Private, Shared, BankOf, Cell;
    assert WriteReg(w, rn, v).cells[Cell(rn, b')] == v;
  }

  /** What a load or store multiple that is defined does to the banks. */
  ghost predicate MultipleOutcome(s: State, ins: Word, o: Outcome) {
    o.Done? ==>
      && o.code == 0
      && (Confined(CurrentBank(s), s, o.s) <==> !WritesElsewhere(s, ins))
      && (!HasSpsr(CurrentBank(s)) ==> ModeOf(o.s) == ModeOf(s))
      && (SwitchesThenWrites(s, ins) ==> CurrentBank(o.s) == RestoredBank(s))
  }

  /** It stays in its bank if and only if it does not write elsewhere. */
  lemma MultipleStays(s: State, ins: Word, junk: Word)
    requires ClassOf(ins) == 4
    ensures MultipleOutcome(s, ins, BlockTransfer.LoadStoreMultiple(s, ins, junk))
  {
    hide Private, Cell, BankOf, Confined, WriteReg, SetCpsr, Shared, BlockTransfer.Listed;
    var list := BlockTransfer.ListOf(ins);
    var range := BlockInverse.BlockOf(s, ins);
    hide BlockTransfer.RangeOf, BlockTransfer.Count;
    TransfersStay(s, Bit20(ins), list, 0, range.start, junk);
    var r := BlockTransfer.TransferFrom(s, Bit20(ins), list, 0, range.start, junk);
    hide BlockTransfer.TransferFrom;
    if r.Moved? {
      if RestoresPsr(ins) {
        if HasSpsr(CurrentBank(r.s)) {
          ThenSetCpsr(s, r.s, Spsr(r.s));
          SwitchStays(s, r.s, RnOf(ins), range.writeback);
        }
      } else {
        ThenWriteReg(s, r.s, RnOf(ins), range.writeback);
      }
    }
  }

  // ---------------------------------------------------------------- instructions and steps

  /** What an executed instruction that is defined does to the banks. */
  ghost predicate Executed(s: State, ins: Word, o: Outcome) {
    o.Done? ==>
      && HandlerCode(o.code)
      && (Confined(CurrentBank(s), s, o.s) <==> !WritesElsewhere(s, ins))
      && (!HasSpsr(CurrentBank(s)) ==> ModeOf(o.s) == ModeOf(s))
      && (WritesElsewhere(s, ins) ==> o.code == 0 && CurrentBank(o.s) != CurrentBank(s))
  }

  lemma ExecuteStays(s: State, ins: Word, input: Input)
    ensures Executed(s, ins, Execute(s, ins, input))
  {
    hide DataProcess, BranchOther.MoveStatus, BranchOther.Branch, BranchOther.BranchExchange, BranchOther.Multiply,
      HalfTransfer.LoadStoreExtra, SingleTransfer.Transfer, SingleTransfer.ScaledOffset,
      BlockTransfer.LoadStoreMultiple, Confined, BlockTransfer.Listed, Miscellaneous,
      SingleTransfer.FormOf, BlockInverse.BlockOf, Cell, BankOf;
    if ClassOf(ins) == 4 {
      MultipleStays(s, ins, input.junk);
      if SwitchesThenWrites(s, ins) { OwnBankShared(RnOf(ins), CurrentBank(s)); }
    } else {
      OthersStay(s, ins, input);
    }
  }

  lemma OwnBankShared(r: GReg, b: Bank)
    ensures Shared(r, b, b)
  {
  }

  lemma OthersStay(s: State, ins: Word, input: Input)
    requires ClassOf(ins) != 4
    ensures QuietOutcome(s, Execute(s, ins, input))
  {
    hide DataProcess, BranchOther.MoveStatus, BranchOther.Branch, BranchOther.BranchExchange, BranchOther.Multiply,
      HalfTransfer.LoadStoreExtra, SingleTransfer.Transfer, SingleTransfer.ScaledOffset,
      BlockTransfer.LoadStoreMultiple, Quiet, Miscellaneous, SingleTransfer.FormOf;
    QuietItself(s);
    DataProcessStays(s, ins);
    StatusStays(s, ins);
    BranchStays(s, ins);
    ExchangeStays(s, ins);
    MultiplyStays(s, ins);
    ExtraStays(s, ins);
    SingleStays(s, SingleTransfer.FormOf(ins), ins % 0x1000);
    SingleStays(s, SingleTransfer.FormOf(ins), SingleTransfer.ScaledOffset(s, ins));
  }

  lemma QuietItself(s: State)
    ensures Quiet(s, s)
  {
  }

  /** Of the codes a handler returns, only a software interrupt does something: it may write R0. */
  lemma RaiseStays(b: Bank, s: State, t: State, code: int, input: Input)
    requires Confined(b, s, t) && HandlerCode(code) && code != 0
    ensures var o := Exception(t, code % 256, input);
            o.Done? ==> Confined(b, s, o.s) && Cpsr(o.s) == Cpsr(t)
  {
    hide BankOf, WordAt, ReadReg;
    assert Cell(0, b) == 0 == Cell(0, CurrentBank(t));
    hide Cell;
  }

  /** The instruction word a step executes, when it executes one. */
  predicate Executes(s: State) {
    Pc(s) + 3 < |s.mem| && Passes(CondOf(NextInstruction(s)), Cpsr(s))
  }

  /** A step that executes is its handler, and what the handler's result raises. */
  lemma StepOf(s: State, input: Input)
    requires Executes(s)
    ensures Step(s, input) == Raise(Execute(Fetched(s), NextInstruction(s), input), input)
  {
    hide Execute, Passes, Raise, WordAt, CondOf;
  }

  /** The step about to be taken writes its base back elsewhere. */
  predicate StepsElsewhere(s: State) {
    Executes(s) && WritesElsewhere(Fetched(s), NextInstruction(s))
  }

  /** The fetch itself makes no difference to what is confined. */
  lemma FetchedConfined(s: State, u: State)
    ensures Confined(CurrentBank(s), s, u) <==> Confined(CurrentBank(s), Fetched(s), u)
  {
    FetchedStays(s);
    assert !Private(30, CurrentBank(s)) by { assert Cell(PC, CurrentBank(s)) == 30; }
    hide Private, Cell, BankOf;
  }

  /**
   One step changes only the current bank, CPSR and memory, if and only if it does not write
   its base back elsewhere, and then it leaves the bank.
   */
  lemma StepConfined(s: State, input: Input)
    requires Step(s, input).Done?
    ensures Confined(CurrentBank(s), s, Step(s, input).s) <==> !StepsElsewhere(s)
    ensures StepsElsewhere(s) ==> CurrentBank(Step(s, input).s) != CurrentBank(s)
    ensures !HasSpsr(CurrentBank(s)) && !FetchFails(s) ==> ModeOf(Step(s, input).s) == ModeOf(s)
    ensures FetchFails(s) ==> Step(s, input).s == Reset(Fetched(s))
  {
    var t := Fetched(s);
    FetchedStays(s);
    if FetchFails(s) {
      ThenSetCpsr(s, t, 0x153);
      ResetStays(s, t);
    } else if Executes(s) {
      StepOf(s, input);
      ExecutedStep(s, t, NextInstruction(s), Execute(t, NextInstruction(s), input), input);
    }
    hide Exception, Confined, Passes, Fetched, WordAt, Reset, WritesElsewhere, BankOf, Execute;
  }

  lemma ExecutedStep(s: State, t: State, ins: Word, o: Outcome, input: Input)
    requires t == Fetched(s) && o == Execute(t, ins, input) && Raise(o, input).Done?
    ensures var u := Raise(o, input).s;
            && (Confined(CurrentBank(s), s, u) <==> !WritesElsewhere(t, ins))
            && (WritesElsewhere(t, ins) ==> CurrentBank(u) != CurrentBank(s))
            && (!HasSpsr(CurrentBank(s)) ==> ModeOf(u) == ModeOf(s))
  {
    hide Execute, Exception, Confined, WordAt, WritesElsewhere, BankOf, Fetched;
    ExecuteStays(t, ins, input);
    FetchedStays(s);
    FetchedConfined(s, o.s);
    assert CurrentBank(t) == CurrentBank(s);
    if o.code != 0 {
      RaiseStays(CurrentBank(s), s, o.s, o.code, input);
    }
  }

  /** A step that stays in its bank is confined to it. */
  lemma StayingIsConfined(s: State, input: Input)
    requires Step(s, input).Done? && CurrentBank(Step(s, input).s) == CurrentBank(s)
    ensures Confined(CurrentBank(s), s, Step(s, input).s)
  {
    hide Step, Confined, StepsElsewhere, BankOf, FetchFails, Reset;
    StepConfined(s, input);
  }

  lemma ResetStays(s: State, t: State)
    requires Confined(CurrentBank(s), s, t)
    ensures Confined(CurrentBank(s), s, Reset(t))
  {
    var u := SetCpsr(t, 0x153);
    ThenSetCpsr(s, t, 0x153);
    assert Cell(PC, CurrentBank(u)) == 30 == Cell(PC, CurrentBank(s));
  }
}
