/**
 What a program outside IRQ mode cannot see: R13_irq, R14_irq, SPSR_irq and the cycle count.

 `Seen` erases them.  `StepSeen` goes through every handler of the decoder: two states that
 look the same to such a program make the same step.
 */
module Unseen {
  import opened Words
  import opened MemoryUnit
  import opened RegisterFile
  import opened ArmCore
  import opened Encoding
  import opened DataProcessing
  import opened Exceptions
  import opened Instruction
  import BlockTransfer
  import SingleTransfer
  import HalfTransfer
  import BranchOther
  import Confinement

  /** The registers only IRQ mode has. */
  predicate Hidden(c: int) {
    c == Cell(SP, BANK_IRQ) || c == Cell(LR, BANK_IRQ) || c == Cell(SPSR, BANK_IRQ)
  }

  function Seen(s: State): State {
    s.(cells := s.cells[Cell(SP, BANK_IRQ) := 0][Cell(LR, BANK_IRQ) := 0][Cell(SPSR, BANK_IRQ) := 0], cycles := 0)
  }

  function SeenOf(o: Outcome): Outcome {
    match o
    case Undefined => Undefined
    case Done(s, code) => Done(Seen(s), code)
  }

  predicate OutsideIrq(s: State) {
    CurrentBank(s) != BANK_IRQ
  }

  // ---------------------------------------------------------------- the building blocks

  lemma SeenCells(s: State)
    ensures forall c :: 0 <= c < 37 ==> Seen(s).cells[c] == if Hidden(c) then 0 else s.cells[c]
    ensures !Hidden(30) && !Hidden(31)
    ensures Cpsr(Seen(s)) == Cpsr(s) && Pc(Seen(s)) == Pc(s) && CurrentBank(Seen(s)) == CurrentBank(s)
    ensures Seen(s).mem == s.mem && Seen(s).be == s.be
  {
  }

  lemma SameSeen(s: State, t: State)
    requires s.mem == t.mem && s.be == t.be
    requires forall c :: 0 <= c < 37 && !Hidden(c) ==> s.cells[c] == t.cells[c]
    ensures Seen(s) == Seen(t)
  {
    SeenCells(s); SeenCells(t);
    hide Cell, Hidden;
    assert Seen(s).cells == Seen(t).cells;
  }

  lemma SeenTwice(s: State)
    ensures Seen(Seen(s)) == Seen(s)
  {
    SeenCells(s);
    SameSeen(Seen(s), s);
  }

  /** Outside IRQ mode no register that can be named is hidden. */
  lemma NotHidden(r: Reg, b: Bank)
    requires Cell(r, b) >= 0 && (b != BANK_IRQ || r < 13 || r == PC || r == CPSR)
    ensures !Hidden(Cell(r, b))
  {
    CellsIdentify(r, b, SP, BANK_IRQ);
    CellsIdentify(r, b, LR, BANK_IRQ);
    CellsIdentify(r, b, SPSR, BANK_IRQ);
  }

  lemma ReadSeen(s: State, r: GReg)
    requires OutsideIrq(s) || r < 13 || r == PC
    ensures ReadReg(Seen(s), r) == ReadReg(s, r)
  {
    SeenCells(s);
    NotHidden(r, CurrentBank(s));
    hide Cell, Hidden, BankOf, Seen;
  }

  lemma WriteSeen(s: State, r: GReg, v: Word)
    ensures Seen(WriteReg(Seen(s), r, v)) == Seen(WriteReg(s, r, v))
    ensures OutsideIrq(s) || r < 13 || r == PC ==> WriteReg(Seen(s), r, v) == Seen(WriteReg(s, r, v))
    ensures CurrentBank(WriteReg(s, r, v)) == CurrentBank(s)
  {
    var b := CurrentBank(s);
    var t, u := WriteReg(s, r, v), WriteReg(Seen(s), r, v);
    SeenCells(s); SeenCells(t);
    CellsIdentify(r, b, CPSR, b);
    assert Cell(CPSR, b) == 31;
    if OutsideIrq(s) || r < 13 || r == PC {
      NotHidden(r, b);
      hide Cell, Hidden, BankOf, Seen;
      assert u.cells == Seen(t).cells;
    }
    hide Cell, Hidden, BankOf, Seen;
    SameSeen(u, t);
  }

  lemma CpsrSeen(s: State, v: Word)
    ensures SetCpsr(Seen(s), v) == Seen(SetCpsr(s, v))
  {
    SeenCells(s); SeenCells(SetCpsr(s, v));
    assert SetCpsr(Seen(s), v).cells == Seen(SetCpsr(s, v)).cells;
  }

  lemma SpsrSeen(s: State)
    requires OutsideIrq(s) && HasSpsr(CurrentBank(s))
    ensures Spsr(Seen(s)) == Spsr(s)
  {
    SeenCells(s);
    NotHidden(SPSR, CurrentBank(s));
    hide Cell, Hidden, BankOf, Seen;
  }

  // ---------------------------------------------------------------- the handlers

  lemma OperandSeen(s: State, ins: Word)
    requires OutsideIrq(s)
    ensures OperandOf(Seen(s), ins) == OperandOf(s, ins)
  {
    hide Shifter.BarrelShift, Shifter.ImmediateShift, ReadReg, Seen, BankOf;
    SeenCells(s);
    ReadSeen(s, RmOf(ins));
    ReadSeen(s, RsOf(ins));
  }

  lemma DataProcessSeen(s: State, ins: Word)
    requires OutsideIrq(s)
    ensures DataProcess(Seen(s), ins) == Seen(DataProcess(s, ins))
  {
    hide OperandOf, Result, NewPsr, ReadReg, WriteReg, SetCpsr, Seen, BankOf, Hidden, Cell;
    OperandSeen(s, ins);
    SeenCells(s);
    var o, op, rd, a := OperandOf(s, ins), OpcodeOf(ins), RdOf(ins), ReadReg(s, RnOf(ins));
    ReadSeen(s, RnOf(ins));
    var r := Result(op, a, o.operand, FlagC(Cpsr(s)));
    WriteSeen(s, rd, r);
    var t := if IsTest(op) then s else WriteReg(s, rd, r);
    var restores := !IsTest(op) && rd == PC && HasSpsr(CurrentBank(s));
    if restores { SpsrSeen(s); }
    CpsrSeen(t, NewPsr(op, a, o.operand, o.carry, r, if restores then Spsr(s) else Cpsr(s)));
  }

  lemma MultiplySeen(s: State, ins: Word)
    requires OutsideIrq(s)
    ensures BranchOther.Multiply(Seen(s), ins) == Seen(BranchOther.Multiply(s, ins))
  {
    hide ReadReg, WriteReg, SetCpsr, Seen, BankOf, Hidden, Cell, Mul, PutC, PutZ;
    SeenCells(s);
    ReadSeen(s, RsOf(ins)); ReadSeen(s, RmOf(ins));
    var r := Mul(ReadReg(s, RsOf(ins)), ReadReg(s, RmOf(ins)));
    WriteSeen(s, RnOf(ins), r);
    CpsrSeen(WriteReg(s, RnOf(ins), r), PutZ(PutC(Cpsr(s), Negative(r)), r == 0));
  }

  lemma BranchSeen(s: State, ins: Word)
    requires OutsideIrq(s)
    ensures BranchOther.Branch(Seen(s), ins) == Seen(BranchOther.Branch(s, ins))
    ensures BranchOther.BranchExchange(Seen(s), ins) == Seen(BranchOther.BranchExchange(s, ins))
  {
    hide ReadReg, WriteReg, Seen, BankOf, Hidden, Cell, Add, Sub, BranchOther.SignedOffset;
    ReadSeen(s, PC); ReadSeen(s, RmOf(ins));
    var pc, v := ReadReg(s, PC), ReadReg(s, RmOf(ins));
    WriteSeen(s, LR, Sub(pc, 4));
    var t := if Bit24(ins) then WriteReg(s, LR, Sub(pc, 4)) else s;
    WriteSeen(t, PC, Add(pc, 4 * BranchOther.SignedOffset(ins)));
    WriteSeen(s, PC, v - v % 2);
  }

  lemma StatusSeen(s: State, ins: Word)
    requires OutsideIrq(s)
    ensures BranchOther.MoveStatus(Seen(s), ins) == SeenOf(BranchOther.MoveStatus(s, ins))
  {
    hide WriteReg, Seen, BankOf, Hidden, Cell;
    SeenCells(s);
    WriteSeen(s, RdOf(ins), Cpsr(s));
    if HasSpsr(CurrentBank(s)) {
      SpsrSeen(s);
      WriteSeen(s, RdOf(ins), Spsr(s));
    }
  }

  lemma StoreWordSeen(s: State, a: Word, w: Word)
    ensures StoreWord(Seen(s), a, w) == SeenOf(StoreWord(s, a, w))
    ensures StoreWord(s, a, w).Done? ==> CurrentBank(StoreWord(s, a, w).s) == CurrentBank(s)
  {
    hide PutWord, Cell, BankOf;
  }

  lemma StoreHalfSeen(s: State, a: Word, h: Half)
    ensures StoreHalf(Seen(s), a, h) == SeenOf(StoreHalf(s, a, h))
  {
    hide PutHalf, Cell;
  }

  lemma StoreByteSeen(s: State, a: Word, b: Byte)
    ensures StoreByte(Seen(s), a, b) == SeenOf(StoreByte(s, a, b))
    ensures StoreByte(s, a, b).Done? ==> CurrentBank(StoreByte(s, a, b).s) == CurrentBank(s)
  {
    hide Cell, BankOf;
  }

  lemma AccessSeen(s: State, load: bool, byte: bool, a: Word, rd: GReg)
    requires OutsideIrq(s)
    ensures var o := SingleTransfer.Access(s, load, byte, a, rd);
            && SingleTransfer.Access(Seen(s), load, byte, a, rd) == SeenOf(o)
            && (o.Done? ==> OutsideIrq(o.s))
  {
    hide ReadReg, WriteReg, Seen, BankOf, Hidden, Cell, WordAt, StoreWord, StoreByte, PutWord;
    SeenCells(s);
    ReadSeen(s, rd);
    if !load {
      if byte { StoreByteSeen(s, a, ReadReg(s, rd) % 0x100); } else { StoreWordSeen(s, a, ReadReg(s, rd)); }
    } else if a < |s.mem| {
      if byte { WriteSeen(s, rd, s.mem[a]); } else if a + 3 < |s.mem| { WriteSeen(s, rd, WordAt(s.mem, a, s.be)); }
    }
  }

  lemma TransferSeen(s: State, f: SingleTransfer.Form, offset: Word)
    requires OutsideIrq(s)
    ensures SingleTransfer.Transfer(Seen(s), f, offset) == SeenOf(SingleTransfer.Transfer(s, f, offset))
  {
    hide ReadReg, WriteReg, Seen, BankOf, Hidden, Cell, SingleTransfer.Access, SingleTransfer.Indexed;
    ReadSeen(s, f.rn);
    var base := ReadReg(s, f.rn);
    var moved := SingleTransfer.Indexed(f.up, base, offset);
    var a := if f.pre then moved else base;
    AccessSeen(s, f.load, f.byte, a, f.rd);
    var o := SingleTransfer.Access(s, f.load, f.byte, a, f.rd);
    if o.Done? { WriteSeen(o.s, f.rn, moved); }
  }

  lemma ScaledSeen(s: State, ins: Word)
    requires OutsideIrq(s)
    ensures SingleTransfer.ScaledOffset(Seen(s), ins) == SingleTransfer.ScaledOffset(s, ins)
  {
    hide ReadReg, Seen, BankOf, Shifter.BarrelShift;
    SeenCells(s);
    ReadSeen(s, RmOf(ins));
  }

  lemma LoadDoubleSeen(s: State, a: Word, rd: GReg)
    requires OutsideIrq(s) && HalfTransfer.DoubleAllowed(rd, a)
    ensures HalfTransfer.LoadDouble(Seen(s), a, rd) == SeenOf(HalfTransfer.LoadDouble(s, a, rd))
  {
    hide ReadReg, WriteReg, Seen, BankOf, Hidden, Cell, WordAt, Add;
    SeenCells(s);
    if WordDefined(s.mem, a) {
      var low := HalfTransfer.ReadOr(s, a, 0);
      var t := WriteReg(s, rd, low);
      WriteSeen(s, rd, low);
      HalfTransfer.WrittenMemory(s, rd, low);
      HalfTransfer.WrittenMemory(Seen(s), rd, low);
      if WordDefined(s.mem, Add(a, 4)) { WriteSeen(t, rd + 1, HalfTransfer.ReadOr(s, Add(a, 4), low)); }
    }
  }

  lemma StoreDoubleSeen(s: State, a: Word, rd: GReg)
    requires OutsideIrq(s) && HalfTransfer.DoubleAllowed(rd, a)
    ensures HalfTransfer.StoreDouble(Seen(s), a, rd) == SeenOf(HalfTransfer.StoreDouble(s, a, rd))
  {
    hide ReadReg, Seen, BankOf, Hidden, Cell, StoreWord, Add;
    ReadSeen(s, rd);
    StoreWordSeen(s, a, ReadReg(s, rd));
    var o := StoreWord(s, a, ReadReg(s, rd));
    if o.Done? {
      ReadSeen(o.s, rd + 1);
      StoreWordSeen(o.s, Add(a, 4), ReadReg(o.s, rd + 1));
    }
  }

  lemma ExtraAccessSeen(s: State, kind: int, a: Word, rd: GReg)
    requires OutsideIrq(s)
    ensures HalfTransfer.ExtraAccess(Seen(s), kind, a, rd) == SeenOf(HalfTransfer.ExtraAccess(s, kind, a, rd))
  {
    hide ReadReg, WriteReg, Seen, BankOf, Hidden, Cell, HalfAt, StoreHalf, HalfTransfer.LoadDouble,
      HalfTransfer.StoreDouble, HalfTransfer.ExtendByte, HalfTransfer.ExtendHalf, HalfTransfer.DoubleAllowed;
    SeenCells(s);
    if kind == 1 {
      ReadSeen(s, rd);
      StoreHalfSeen(s, a, ReadReg(s, rd) % 0x1_0000);
    } else if kind == 2 {
      if HalfTransfer.DoubleAllowed(rd, a) { LoadDoubleSeen(s, a, rd); }
    } else if kind == 3 {
      if HalfTransfer.DoubleAllowed(rd, a) { StoreDoubleSeen(s, a, rd); }
    } else if kind == 6 {
      WriteSeen(s, rd, if a < |s.mem| then HalfTransfer.ExtendByte(s.mem[a]) else 0);
    } else if (kind == 5 || kind == 7) && HalfDefined(s.mem, a) {
      WriteSeen(s, rd, if kind == 5 then HalfTransfer.HalfOr0(s, a)
                       else HalfTransfer.ExtendHalf(HalfTransfer.HalfOr0(s, a)));
    }
  }

  lemma ExtraSeen(s: State, ins: Word)
    requires OutsideIrq(s)
    ensures HalfTransfer.LoadStoreExtra(Seen(s), ins) == SeenOf(HalfTransfer.LoadStoreExtra(s, ins))
  {
    hide ReadReg, WriteReg, Seen, BankOf, Hidden, Cell, HalfTransfer.ExtraAccess, SingleTransfer.Indexed;
    var rn := RnOf(ins);
    ReadSeen(s, rn); ReadSeen(s, RmOf(ins));
    var base := ReadReg(s, rn);
    var moved := SingleTransfer.Indexed(Bit23(ins), base, HalfTransfer.ExtraOffset(s, ins));
    WriteSeen(s, rn, moved);
    var t := if Bit24(ins) && !Bit21(ins) then s else WriteReg(s, rn, moved);
    ExtraAccessSeen(t, HalfTransfer.KindOf(ins), if Bit24(ins) then moved else base, RdOf(ins));
  }

  function SeenProgress(r: BlockTransfer.Progress): BlockTransfer.Progress {
    match r
    case Stuck => BlockTransfer.Stuck
    case Moved(s, a, d) => BlockTransfer.Moved(Seen(s), a, d)
  }

  lemma {:induction false} TransfersSeen(s: State, load: bool, list: nat, i: nat, address: Word, data: Word)
    requires OutsideIrq(s) && i <= 16
    ensures var r := BlockTransfer.TransferFrom(s, load, list, i, address, data);
            && BlockTransfer.TransferFrom(Seen(s), load, list, i, address, data) == SeenProgress(r)
            && (r.Moved? ==> OutsideIrq(r.s))
    decreases 16 - i
  {
    hide ReadReg, WriteReg, Seen, BankOf, Hidden, Cell, WordAt, PutWord, StoreWord, Add;
    SeenCells(s);
    if i < 16 {
      if !BlockTransfer.Listed(list, i) {
        TransfersSeen(s, load, list, i + 1, address, data);
      } else if load {
        if WordDefined(s.mem, address) {
          var d := if address < |s.mem| then WordAt(s.mem, address, s.be) else data;
          var d' := if i == 15 then d - d % 4 else d;
          WriteSeen(s, i, d');
          TransfersSeen(WriteReg(s, i, d'), load, list, i + 1, Add(address, 4), d');
        }
      } else {
        ReadSeen(s, i);
        StoreWordSeen(s, address, ReadReg(s, i));
        var o := StoreWord(s, address, ReadReg(s, i));
        if o.Done? { TransfersSeen(o.s, load, list, i + 1, Add(address, 4), data); }
      }
    }
  }

  /** Here the last write may go to a hidden register, in the bank just restored. */
  lemma MultipleSeen(s: State, ins: Word, junk: Word)
    requires OutsideIrq(s)
    ensures SeenOf(BlockTransfer.LoadStoreMultiple(Seen(s), ins, junk))
         == SeenOf(BlockTransfer.LoadStoreMultiple(s, ins, junk))
  {
    hide ReadReg, WriteReg, SetCpsr, Seen, BankOf, Hidden, Cell, BlockTransfer.TransferFrom, BlockTransfer.RangeOf,
      BlockTransfer.Listed, BlockTransfer.Count;
    ReadSeen(s, RnOf(ins));
    var list := BlockTransfer.ListOf(ins);
    var range := BlockTransfer.RangeOf(Bit24(ins), Bit23(ins), ReadReg(s, RnOf(ins)), BlockTransfer.Count(list, 16));
    TransfersSeen(s, Bit20(ins), list, 0, range.start, junk);
    var r := BlockTransfer.TransferFrom(s, Bit20(ins), list, 0, range.start, junk);
    if r.Moved? {
      var t := r.s;
      SeenCells(t);
      var restores := Bit20(ins) && Bit22(ins) && BlockTransfer.Listed(list, 15);
      if restores && HasSpsr(CurrentBank(t)) {
        SpsrSeen(t);
        CpsrSeen(t, Spsr(t));
      }
      if !restores || HasSpsr(CurrentBank(t)) {
        var u := if restores then SetCpsr(t, Spsr(t)) else t;
        WriteSeen(u, RnOf(ins), range.writeback);
        SeenTwice(u);
      }
    }
  }

  // ---------------------------------------------------------------- instructions and steps

  lemma ExecuteSeen(s: State, ins: Word, input: Input)
    requires OutsideIrq(s)
    ensures SeenOf(Execute(Seen(s), ins, input)) == SeenOf(Execute(s, ins, input))
  {
    hide DataProcess, BranchOther.MoveStatus, BranchOther.Branch, BranchOther.BranchExchange, BranchOther.Multiply,
      HalfTransfer.LoadStoreExtra, SingleTransfer.Transfer, SingleTransfer.ScaledOffset,
      BlockTransfer.LoadStoreMultiple, Miscellaneous, SingleTransfer.FormOf, Seen, BankOf;
    SeenOfTwice();
    SeenTwice(s);
    match ClassOf(ins)
    case 0 =>
      DataProcessSeen(s, ins);
      StatusSeen(s, ins);
      BranchSeen(s, ins);
      MultiplySeen(s, ins);
      ExtraSeen(s, ins);
    case 1 => DataProcessSeen(s, ins);
    case 2 => TransferSeen(s, SingleTransfer.FormOf(ins), ins % 0x1000);
    case 3 =>
      ScaledSeen(s, ins);
      TransferSeen(s, SingleTransfer.FormOf(ins), SingleTransfer.ScaledOffset(s, ins));
    case 4 => MultipleSeen(s, ins, input.junk);
    case 5 => BranchSeen(s, ins);
    case 6 =>
    case _ =>
  }

  lemma SeenOfTwice()
    ensures forall o: Outcome :: SeenOf(SeenOf(o)) == SeenOf(o)
  {
    forall o: Outcome ensures SeenOf(SeenOf(o)) == SeenOf(o) {
      if o.Done? { SeenTwice(o.s); }
    }
  }

  /** What a handler's result raises reads and writes R0, PC and memory only. */
  lemma RaiseSeen(t: State, code: int, input: Input)
    requires Confinement.HandlerCode(code)
    ensures Raise(Done(Seen(t), code), input) == SeenOf(Raise(Done(t, code), input))
  {
    hide ReadReg, WriteReg, Seen, BankOf, Hidden, Cell, WordAt, TextAt, Sub, EnterIrq, Reset;
    SeenCells(t);
    ReadSeen(t, PC); ReadSeen(t, 0);
    WriteSeen(t, 0, input.scanned);
    SeenTwice(t);
  }

  /** Executing a word in two states that look the same. */
  lemma ExecutedSeen(s: State, v: State, ins: Word, input: Input)
    requires OutsideIrq(s) && Seen(s) == Seen(v)
    ensures SeenOf(Raise(Execute(s, ins, input), input)) == SeenOf(Raise(Execute(v, ins, input), input))
  {
    hide Execute, Raise, Seen, BankOf, Confinement.Confined, Confinement.WritesElsewhere;
    SeenCells(s); SeenCells(v);
    ExecuteSeen(s, ins, input);
    ExecuteSeen(v, ins, input);
    var o, o' := Execute(s, ins, input), Execute(v, ins, input);
    Confinement.ExecuteStays(s, ins, input);
    if o.Done? {
      RaiseSeen(o.s, o.code, input);
      RaiseSeen(o'.s, o.code, input);
      SeenOfTwice();
    } else {
      RaiseUndefined(input);
    }
  }

  lemma RaiseUndefined(input: Input)
    ensures Raise(Undefined, input) == Undefined
  {
  }

  lemma FetchedSeen(s: State, v: State)
    requires Seen(s) == Seen(v)
    ensures Seen(Fetched(s)) == Seen(Fetched(v)) && CurrentBank(Fetched(s)) == CurrentBank(s)
  {
    SeenCells(s); SeenCells(v);
    hide Cell, Hidden, Add, BankOf;
    forall c | 0 <= c < 37 && !Hidden(c) ensures Fetched(s).cells[c] == Fetched(v).cells[c] {
      assert Seen(s).cells[c] == Seen(v).cells[c];
    }
    SameSeen(Fetched(s), Fetched(v));
  }

  lemma ResetSeen(s: State, v: State)
    requires Seen(s) == Seen(v)
    ensures Seen(Reset(s)) == Seen(Reset(v))
  {
    hide Seen, WriteReg, BankOf;
    CpsrSeen(s, 0x153); CpsrSeen(v, 0x153);
    WriteSeen(SetCpsr(s, 0x153), PC, 0); WriteSeen(SetCpsr(v, 0x153), PC, 0);
  }

  /** Two states that look the same outside IRQ mode make the same step. */
  lemma StepSeen(s: State, v: State, input: Input)
    requires OutsideIrq(s) && Seen(s) == Seen(v)
    ensures SeenOf(Step(s, input)) == SeenOf(Step(v, input))
  {
    hide Seen, Fetched, Execute, Raise, Passes, CondOf, WordAt, Reset, BankOf;
    SeenCells(s); SeenCells(v);
    var t, u := Fetched(s), Fetched(v);
    FetchedSeen(s, v);
    SeenCells(t); SeenCells(u);
    if FetchFails(s) {
      ResetSeen(t, u);
    } else if Pc(s) + 3 < |s.mem| {
      ExecutedSeen(t, u, NextInstruction(s), input);
    }
  }
}
