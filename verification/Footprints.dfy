/**
 Which bytes of memory a step reads and which it writes.

 For a set of bytes d, `StepClean` says that a step reads none of them, and `StepLeft` which
 of them it does not write.  `StepAlike` goes through every handler of the decoder: two states
 that differ only in bytes of d make the same step, and then differ only in `StepLeft`.
 */
module Footprints {
  import opened Words
  import opened MemoryUnit
  import opened RegisterFile
  import opened ArmCore
  import opened Encoding
  import opened DataProcessing
  import opened Exceptions
  import opened Instruction
  import BlockTransfer
  import BlockInverse
  import SingleTransfer
  import HalfTransfer
  import BranchOther
  import Confinement

  /** Two memories agree but for the bytes of d. */
  ghost predicate Alike(m: Bytes, m': Bytes, d: set<int>) {
    |m| == |m'| && forall x :: 0 <= x < |m| && x !in d ==> m[x] == m'[x]
  }

  /** An access of n bytes, if it is inside memory at all, meets none of d. */
  ghost predicate Clean(size: nat, a: int, n: nat, d: set<int>) {
    a < size ==> forall x :: a <= x < a + n ==> x !in d
  }

  /** What an access of n bytes, if it is inside memory at all, leaves of d when it writes them. */
  ghost function Unwritten(size: nat, a: int, n: nat, d: set<int>): (r: set<int>)
    ensures r <= d
  {
    if a < size then set x | x in d && !(a <= x < a + n) else d
  }

  function With(s: State, m: Bytes): State {
    s.(mem := m)
  }

  /** The same result, but for the bytes of d. */
  ghost predicate Match(o: Outcome, o': Outcome, d: set<int>) {
    && o.Done? == o'.Done?
    && (o.Done? ==> o'.code == o.code && o'.s == With(o.s, o'.s.mem) && Alike(o.s.mem, o'.s.mem, d))
  }

  // ---------------------------------------------------------------- memory

  lemma WordAlike(m: Bytes, m': Bytes, a: Word, be: bool, d: set<int>)
    requires Alike(m, m', d) && a + 3 < |m| && Clean(|m|, a, 4, d)
    ensures WordAt(m, a, be) == WordAt(m', a, be)
  {
    SameBytes(m, m', a, be);
  }

  lemma HalfAlike(m: Bytes, m': Bytes, a: Word, be: bool, d: set<int>)
    requires Alike(m, m', d) && a + 1 < |m| && Clean(|m|, a, 2, d)
    ensures HalfAt(m, a, be) == HalfAt(m', a, be)
  {
    assert m[a] == m'[a] && m[a + 1] == m'[a + 1];
  }

  lemma StoreWordAlike(s: State, m: Bytes, a: Word, v: Word, d: set<int>)
    requires Alike(s.mem, m, d)
    ensures Match(StoreWord(s, a, v), StoreWord(With(s, m), a, v), Unwritten(|s.mem|, a, 4, d))
  {
    hide WordAt, PutWord;
    if a + 3 < |s.mem| {
      BytesOfWord(PutWord(s.mem, a, v, s.be), PutWord(m, a, v, s.be), a, s.be);
    }
  }

  lemma StoreHalfAlike(s: State, m: Bytes, a: Word, v: Half, d: set<int>)
    requires Alike(s.mem, m, d)
    ensures Match(StoreHalf(s, a, v), StoreHalf(With(s, m), a, v), Unwritten(|s.mem|, a, 2, d))
  {
  }

  lemma StoreByteAlike(s: State, m: Bytes, a: Word, v: Byte, d: set<int>)
    requires Alike(s.mem, m, d)
    ensures Match(StoreByte(s, a, v), StoreByte(With(s, m), a, v), Unwritten(|s.mem|, a, 1, d))
  {
  }

  // ---------------------------------------------------------------- the handlers

  /** The handlers that do not use memory. */
  lemma RegistersOnly(s: State, m: Bytes, ins: Word)
    ensures BranchOther.Multiply(With(s, m), ins) == With(BranchOther.Multiply(s, ins), m)
    ensures BranchOther.Branch(With(s, m), ins) == With(BranchOther.Branch(s, ins), m)
    ensures BranchOther.BranchExchange(With(s, m), ins) == With(BranchOther.BranchExchange(s, ins), m)
    ensures BranchOther.Multiply(s, ins).mem == BranchOther.Branch(s, ins).mem == s.mem
    ensures BranchOther.BranchExchange(s, ins).mem == s.mem
  {
    hide Cell, BankOf, ClearBit1, Mul, PutC, PutZ, Add, Sub, Negative;
  }

  lemma OperandsOnly(s: State, m: Bytes, ins: Word)
    ensures OperandOf(With(s, m), ins) == OperandOf(s, ins)
    ensures SingleTransfer.ScaledOffset(With(s, m), ins) == SingleTransfer.ScaledOffset(s, ins)
  {
    hide Cell, BankOf, ClearBit1, Shifter.BarrelShift, Shifter.ImmediateShift, FlagC, ShiftTypeOf, ShiftImmOf;
  }

  lemma DataProcessOnly(s: State, m: Bytes, ins: Word)
    ensures DataProcess(With(s, m), ins) == With(DataProcess(s, ins), m) && DataProcess(s, ins).mem == s.mem
  {
    hide OperandOf, Cell, BankOf, ClearBit1, Result, NewPsr, FlagC;
    OperandsOnly(s, m, ins);
  }

  lemma StatusAlike(s: State, m: Bytes, ins: Word, d: set<int>)
    requires Alike(s.mem, m, d)
    ensures Match(BranchOther.MoveStatus(s, ins), BranchOther.MoveStatus(With(s, m), ins), d)
  {
    hide Cell, BankOf;
  }

  ghost predicate AccessClean(size: nat, load: bool, byte: bool, a: Word, d: set<int>) {
    load ==> Clean(size, a, if byte then 1 else 4, d)
  }

  ghost function AccessLeft(size: nat, load: bool, byte: bool, a: Word, d: set<int>): set<int> {
    if load then d else Unwritten(size, a, if byte then 1 else 4, d)
  }

  lemma AccessAlike(s: State, m: Bytes, load: bool, byte: bool, a: Word, rd: GReg, d: set<int>)
    requires Alike(s.mem, m, d) && AccessClean(|s.mem|, load, byte, a, d)
    ensures Match(SingleTransfer.Access(s, load, byte, a, rd), SingleTransfer.Access(With(s, m), load, byte, a, rd),
                  AccessLeft(|s.mem|, load, byte, a, d))
  {
    hide Cell, BankOf, ClearBit1, WordAt, StoreWord, StoreByte, Unwritten;
    if !load {
      if byte { StoreByteAlike(s, m, a, ReadReg(s, rd) % 0x100, d); } else { StoreWordAlike(s, m, a, ReadReg(s, rd), d); }
    } else if !byte && a + 3 < |s.mem| {
      WordAlike(s.mem, m, a, s.be, d);
    }
  }

  /** A word or byte instruction that makes its transfer. */
  predicate Transfers(f: SingleTransfer.Form) {
    f.pre || !f.writeback
  }

  lemma TransferAlike(s: State, m: Bytes, f: SingleTransfer.Form, offset: Word, d: set<int>)
    requires Alike(s.mem, m, d)
    requires Transfers(f) ==> AccessClean(|s.mem|, f.load, f.byte, SingleTransfer.AccessedAddress(s, f, offset), d)
    ensures Match(SingleTransfer.Transfer(s, f, offset), SingleTransfer.Transfer(With(s, m), f, offset),
                  if Transfers(f) then AccessLeft(|s.mem|, f.load, f.byte, SingleTransfer.AccessedAddress(s, f, offset), d) else d)
  {
    hide Cell, BankOf, ClearBit1, SingleTransfer.Access, AccessLeft, SingleTransfer.Indexed;
    if Transfers(f) {
      AccessAlike(s, m, f.load, f.byte, SingleTransfer.AccessedAddress(s, f, offset), f.rd, d);
    }
  }

  ghost predicate ExtraClean(size: nat, kind: int, a: Word, rd: GReg, d: set<int>) {
    && (kind == 2 && HalfTransfer.DoubleAllowed(rd, a) ==> Clean(size, a, 4, d) && Clean(size, Add(a, 4), 4, d))
    && (kind == 5 || kind == 7 ==> Clean(size, a, 2, d))
    && (kind == 6 ==> Clean(size, a, 1, d))
  }

  ghost function ExtraLeft(size: nat, kind: int, a: Word, rd: GReg, d: set<int>): set<int> {
    if kind == 1 then Unwritten(size, a, 2, d)
    else if kind == 3 && HalfTransfer.DoubleAllowed(rd, a) then
      var e := Unwritten(size, a, 4, d);
      if a < size then Unwritten(size, Add(a, 4), 4, e) else e
    else d
  }

  lemma LoadDoubleAlike(s: State, m: Bytes, a: Word, rd: GReg, d: set<int>)
    requires Alike(s.mem, m, d) && HalfTransfer.DoubleAllowed(rd, a)
    requires Clean(|s.mem|, a, 4, d) && Clean(|s.mem|, Add(a, 4), 4, d)
    ensures Match(HalfTransfer.LoadDouble(s, a, rd), HalfTransfer.LoadDouble(With(s, m), a, rd), d)
  {
    hide Cell, BankOf, WordAt, Add;
    if a + 3 < |s.mem| { WordAlike(s.mem, m, a, s.be, d); }
    if Add(a, 4) + 3 < |s.mem| { WordAlike(s.mem, m, Add(a, 4), s.be, d); }
  }

  lemma StoreDoubleAlike(s: State, m: Bytes, a: Word, rd: GReg, d: set<int>)
    requires Alike(s.mem, m, d) && HalfTransfer.DoubleAllowed(rd, a)
    ensures Match(HalfTransfer.StoreDouble(s, a, rd), HalfTransfer.StoreDouble(With(s, m), a, rd),
                  ExtraLeft(|s.mem|, 3, a, rd, d))
  {
    hide Cell, BankOf, ClearBit1, StoreWord, Unwritten, Add;
    var v, e := ReadReg(s, rd), Unwritten(|s.mem|, a, 4, d);
    StoreWordAlike(s, m, a, v, d);
    StoreWordCode(s, a, v);
    var o, o' := StoreWord(s, a, v), StoreWord(With(s, m), a, v);
    if o.Done? && o.code == OK {
      StoreWordAlike(o.s, o'.s.mem, Add(a, 4), ReadReg(o.s, rd + 1), e);
    }
  }

  lemma StoreWordCode(s: State, a: Word, v: Word)
    ensures var o := StoreWord(s, a, v);
            o.Done? ==> |o.s.mem| == |s.mem| && (o.code == OK <==> a < |s.mem|)
  {
    hide PutWord;
  }

  lemma ExtraAccessAlike(s: State, m: Bytes, kind: int, a: Word, rd: GReg, d: set<int>)
    requires Alike(s.mem, m, d) && ExtraClean(|s.mem|, kind, a, rd, d)
    ensures Match(HalfTransfer.ExtraAccess(s, kind, a, rd), HalfTransfer.ExtraAccess(With(s, m), kind, a, rd),
                  ExtraLeft(|s.mem|, kind, a, rd, d))
  {
    hide Cell, BankOf, ClearBit1, HalfAt, StoreHalf, HalfTransfer.LoadDouble, HalfTransfer.StoreDouble, Unwritten, Add;
    if kind == 1 { StoreHalfAlike(s, m, a, ReadReg(s, rd) % 0x1_0000, d); }
    if HalfTransfer.DoubleAllowed(rd, a) {
      if kind == 2 { LoadDoubleAlike(s, m, a, rd, d); }
      if kind == 3 { StoreDoubleAlike(s, m, a, rd, d); }
    }
    if (kind == 5 || kind == 7) && a + 1 < |s.mem| { HalfAlike(s.mem, m, a, s.be, d); }
  }

  /** The half-word, double-word and signed instructions that make their access. */
  predicate MakesAccess(ins: Word) {
    Bit24(ins) || !Bit21(ins)
  }

  lemma ExtraAlike(s: State, m: Bytes, ins: Word, d: set<int>)
    requires Alike(s.mem, m, d)
    requires MakesAccess(ins) ==>
               ExtraClean(|s.mem|, HalfTransfer.KindOf(ins), HalfTransfer.ExtraAddress(s, ins), RdOf(ins), d)
    ensures Match(HalfTransfer.LoadStoreExtra(s, ins), HalfTransfer.LoadStoreExtra(With(s, m), ins),
                  if MakesAccess(ins)
                  then ExtraLeft(|s.mem|, HalfTransfer.KindOf(ins), HalfTransfer.ExtraAddress(s, ins), RdOf(ins), d)
                  else d)
  {
    hide Cell, BankOf, ClearBit1, HalfTransfer.ExtraAccess, ExtraLeft, ExtraClean, HalfTransfer.KindOf, SingleTransfer.Indexed;
    if MakesAccess(ins) {
      var t := if Bit24(ins) && !Bit21(ins) then s else WriteReg(s, RnOf(ins), HalfTransfer.NewBase(s, ins));
      ExtraAccessAlike(t, m, HalfTransfer.KindOf(ins), HalfTransfer.ExtraAddress(s, ins), RdOf(ins), d);
      assert With(t, m) == if Bit24(ins) && !Bit21(ins) then With(s, m)
                           else WriteReg(With(s, m), RnOf(ins), HalfTransfer.NewBase(With(s, m), ins));
    }
  }

  ghost predicate BlockClean(size: nat, load: bool, list: nat, i: nat, address: Word, d: set<int>)
    requires i <= 16
    decreases 16 - i
  {
    i == 16 ||
    if BlockTransfer.Listed(list, i)
    then (load ==> Clean(size, address, 4, d)) && BlockClean(size, load, list, i + 1, Add(address, 4), d)
    else BlockClean(size, load, list, i + 1, address, d)
  }

  ghost function BlockLeft(size: nat, load: bool, list: nat, i: nat, address: Word, d: set<int>): set<int>
    requires i <= 16
    decreases 16 - i
  {
    if i == 16 then d
    else if BlockTransfer.Listed(list, i)
    then BlockLeft(size, load, list, i + 1, Add(address, 4), if load then d else Unwritten(size, address, 4, d))
    else BlockLeft(size, load, list, i + 1, address, d)
  }

  /** The same progress, but for the bytes of d. */
  ghost predicate MatchProgress(r: BlockTransfer.Progress, r': BlockTransfer.Progress, d: set<int>) {
    && r.Moved? == r'.Moved?
    && (r.Moved? ==> r'.s == With(r.s, r'.s.mem) && Alike(r.s.mem, r'.s.mem, d))
  }

  lemma {:induction false} TransfersAlike(s: State, m: Bytes, load: bool, list: nat, i: nat, address: Word, data: Word,
                                          d: set<int>)
    requires i <= 16 && Alike(s.mem, m, d) && BlockClean(|s.mem|, load, list, i, address, d)
    ensures MatchProgress(BlockTransfer.TransferFrom(s, load, list, i, address, data),
                          BlockTransfer.TransferFrom(With(s, m), load, list, i, address, data),
                          BlockLeft(|s.mem|, load, list, i, address, d))
    decreases 16 - i
  {
    hide Cell, BankOf, ClearBit1, WordAt, StoreWord, Unwritten, Add, Clean;
    if i < 16 {
      if !BlockTransfer.Listed(list, i) {
        TransfersAlike(s, m, load, list, i + 1, address, data, d);
      } else if load {
        if WordDefined(s.mem, address) {
          if address < |s.mem| { WordAlike(s.mem, m, address, s.be, d); }
          var w := if address < |s.mem| then WordAt(s.mem, address, s.be) else data;
          var w' := if i == 15 then w - w % 4 else w;
          TransfersAlike(WriteReg(s, i, w'), m, load, list, i + 1, Add(address, 4), w', d);
        }
      } else {
        var v := ReadReg(s, i);
        StoreWordAlike(s, m, address, v, d);
        StoreWordCode(s, address, v);
        var o, o' := StoreWord(s, address, v), StoreWord(With(s, m), address, v);
        if o.Done? {
          CleanStores(|s.mem|, list, i + 1, Add(address, 4), Unwritten(|s.mem|, address, 4, d));
          TransfersAlike(o.s, o'.s.mem, load, list, i + 1, Add(address, 4), data, Unwritten(|s.mem|, address, 4, d));
        }
      }
    }
  }

  /** Stores read nothing. */
  lemma {:induction false} CleanStores(size: nat, list: nat, i: nat, address: Word, d: set<int>)
    requires i <= 16
    ensures BlockClean(size, false, list, i, address, d)
    decreases 16 - i
  {
    hide Add, Clean;
    if i < 16 {
      CleanStores(size, list, i + 1, Add(address, 4), d);
      CleanStores(size, list, i + 1, address, d);
    }
  }

  lemma MultipleAlike(s: State, m: Bytes, ins: Word, junk: Word, d: set<int>)
    requires Alike(s.mem, m, d)
    requires BlockClean(|s.mem|, Bit20(ins), BlockTransfer.ListOf(ins), 0, BlockInverse.BlockOf(s, ins).start, d)
    ensures Match(BlockTransfer.LoadStoreMultiple(s, ins, junk), BlockTransfer.LoadStoreMultiple(With(s, m), ins, junk),
                  BlockLeft(|s.mem|, Bit20(ins), BlockTransfer.ListOf(ins), 0, BlockInverse.BlockOf(s, ins).start, d))
  {
    hide Cell, BankOf, ClearBit1, BlockTransfer.TransferFrom, BlockTransfer.RangeOf, BlockTransfer.Listed, BlockClean, BlockLeft,
      BlockTransfer.Count;
    TransfersAlike(s, m, Bit20(ins), BlockTransfer.ListOf(ins), 0, BlockInverse.BlockOf(s, ins).start, junk, d);
    assert ReadReg(With(s, m), RnOf(ins)) == ReadReg(s, RnOf(ins));
  }

  // ---------------------------------------------------------------- instructions and steps

  /** The extra load and store instructions among the words of class 000. */
  predicate IsExtra(ins: Word) {
    ClassOf(ins) == 0 && Bit4(ins) && Bit7(ins) && (Bit5(ins) || Bit6(ins))
  }

  function OffsetOf(s: State, ins: Word): Word {
    if ClassOf(ins) == 2 then ins % 0x1000 else SingleTransfer.ScaledOffset(s, ins)
  }

  predicate IsSingle(ins: Word) {
    (ClassOf(ins) == 2 || (ClassOf(ins) == 3 && !Bit4(ins))) && Transfers(SingleTransfer.FormOf(ins))
  }

  /** Executing the word reads no byte of d. */
  ghost predicate ExecuteClean(s: State, ins: Word, d: set<int>) {
    if IsExtra(ins) then
      MakesAccess(ins) ==> ExtraClean(|s.mem|, HalfTransfer.KindOf(ins), HalfTransfer.ExtraAddress(s, ins), RdOf(ins), d)
    else if IsSingle(ins) then
      var f := SingleTransfer.FormOf(ins);
      AccessClean(|s.mem|, f.load, f.byte, SingleTransfer.AccessedAddress(s, f, OffsetOf(s, ins)), d)
    else
      ClassOf(ins) == 4 ==> BlockClean(|s.mem|, Bit20(ins), BlockTransfer.ListOf(ins), 0, BlockInverse.BlockOf(s, ins).start, d)
  }

  /** The bytes of d that executing the word does not write. */
  ghost function ExecuteLeft(s: State, ins: Word, d: set<int>): set<int> {
    if IsExtra(ins) then
      if MakesAccess(ins)
      then ExtraLeft(|s.mem|, HalfTransfer.KindOf(ins), HalfTransfer.ExtraAddress(s, ins), RdOf(ins), d)
      else d
    else if IsSingle(ins) then
      var f := SingleTransfer.FormOf(ins);
      AccessLeft(|s.mem|, f.load, f.byte, SingleTransfer.AccessedAddress(s, f, OffsetOf(s, ins)), d)
    else if ClassOf(ins) == 4 then
      BlockLeft(|s.mem|, Bit20(ins), BlockTransfer.ListOf(ins), 0, BlockInverse.BlockOf(s, ins).start, d)
    else d
  }

  lemma ExecuteAlike(s: State, m: Bytes, ins: Word, input: Input, d: set<int>)
    requires Alike(s.mem, m, d) && ExecuteClean(s, ins, d)
    ensures Match(Execute(s, ins, input), Execute(With(s, m), ins, input), ExecuteLeft(s, ins, d))
  {
    hide DataProcess, BranchOther.MoveStatus, BranchOther.Branch, BranchOther.BranchExchange, BranchOther.Multiply,
      HalfTransfer.LoadStoreExtra, SingleTransfer.Transfer, SingleTransfer.ScaledOffset, BlockTransfer.LoadStoreMultiple,
      Miscellaneous, SingleTransfer.FormOf, Alike, BlockLeft, BlockClean, AccessLeft, AccessClean, ExtraLeft, ExtraClean,
      MakesAccess, Transfers, SingleTransfer.AccessedAddress, BlockInverse.BlockOf, ClassOf, Bit4, Bit5, Bit6, Bit7, Bit20, Bit24;
    match ClassOf(ins)
    case 0 =>
      RegistersOnly(s, m, ins);
      DataProcessOnly(s, m, ins);
      StatusAlike(s, m, ins, d);
      if IsExtra(ins) { ExtraAlike(s, m, ins, d); }
    case 1 => DataProcessOnly(s, m, ins);
    case 2 => TransferAlike(s, m, SingleTransfer.FormOf(ins), ins % 0x1000, d);
    case 3 =>
      OperandsOnly(s, m, ins);
      if !Bit4(ins) { TransferAlike(s, m, SingleTransfer.FormOf(ins), SingleTransfer.ScaledOffset(s, ins), d); }
    case 4 => MultipleAlike(s, m, ins, input.junk, d);
    case 5 => RegistersOnly(s, m, ins);
    case 6 =>
    case _ =>
  }

  /** Reading a text to print meets no byte of d. */
  ghost predicate TextClean(m: Bytes, a: Word, before: Byte, n: nat, d: set<int>)
    decreases n
  {
    n == 0 ||
    var v := if a < |m| then m[a] else before;
    Clean(|m|, a, 1, d) && (v == 0 || TextClean(m, Add(a, 1), v, n - 1, d))
  }

  lemma {:induction false} TextAlike(m: Bytes, m': Bytes, a: Word, before: Byte, n: nat, d: set<int>)
    requires Alike(m, m', d) && TextClean(m, a, before, n, d)
    ensures TextAt(m, a, before, n) == TextAt(m', a, before, n)
    decreases n
  {
    hide Add;
    if n > 0 {
      var v := if a < |m| then m[a] else before;
      assert v == if a < |m'| then m'[a] else before;
      if v != 0 { TextAlike(m, m', Add(a, 1), v, n - 1, d); }
    }
  }

  /** A software interrupt reads its own word, and the text it prints. */
  ghost predicate SwiClean(s: State, input: Input, d: set<int>) {
    var a := Sub(ReadReg(s, PC), 8);
    && Clean(|s.mem|, a, 4, d)
    && (WordDefined(s.mem, a) && SwiNumber(s, a, input) == 3 ==>
          TextClean(s.mem, ReadReg(s, 0), input.junk % 0x100, BUFFER_SIZE, d))
  }

  lemma SwiAlike(s: State, m: Bytes, input: Input, d: set<int>)
    requires Alike(s.mem, m, d) && SwiClean(s, input, d)
    ensures Match(SoftwareInterrupt(s, input), SoftwareInterrupt(With(s, m), input), d)
  {
    hide Cell, BankOf, ClearBit1, WordAt, TextAt, TextClean, Sub;
    var a := Sub(ReadReg(s, PC), 8);
    if WordDefined(s.mem, a) {
      if a < |s.mem| { WordAlike(s.mem, m, a, s.be, d); }
      if SwiNumber(s, a, input) == 3 {
        TextAlike(s.mem, m, ReadReg(s, 0), input.junk % 0x100, BUFFER_SIZE, d);
      }
    }
  }

  lemma RaiseAlike(o: Outcome, o': Outcome, input: Input, d: set<int>)
    requires Match(o, o', d) && (o.Done? ==> Confinement.HandlerCode(o.code))
    requires o.Done? && o.code == SOFTWARE_INTERRUPT ==> SwiClean(o.s, input, d)
    ensures Match(Raise(o, input), Raise(o', input), d)
  {
    hide SoftwareInterrupt, SwiClean, Alike, EnterIrq, Reset;
    if o.Done? && o.code == SOFTWARE_INTERRUPT { SwiAlike(o.s, o'.s.mem, input, d); }
  }

  /** The next step reads no byte of d. */
  ghost predicate StepClean(s: State, input: Input, d: set<int>) {
    FetchFails(s) ||
    (&& Clean(|s.mem|, Pc(s), 4, d)
     && (Confinement.Executes(s) ==>
           var t, ins := Fetched(s), NextInstruction(s);
           var o := Execute(t, ins, input);
           && ExecuteClean(t, ins, d)
           && (o.Done? && o.code == SOFTWARE_INTERRUPT ==> SwiClean(o.s, input, ExecuteLeft(t, ins, d)))))
  }

  /** The bytes of d that the next step does not write. */
  ghost function StepLeft(s: State, d: set<int>): set<int> {
    if Confinement.Executes(s) then ExecuteLeft(Fetched(s), NextInstruction(s), d) else d
  }

  /** Two states that differ only in bytes of d make the same step when it reads none of them. */
  lemma StepAlike(s: State, m: Bytes, input: Input, d: set<int>)
    requires Alike(s.mem, m, d) && StepClean(s, input, d)
    ensures Match(Step(s, input), Step(With(s, m), input), StepLeft(s, d))
  {
    hide Execute, Raise, Passes, CondOf, WordAt, ExecuteClean, ExecuteLeft, SwiClean, Exception, Add,
      Confinement.Confined, Confinement.WritesElsewhere;
    var t := Fetched(s);
    assert Fetched(With(s, m)) == With(t, m);
    if FetchFails(s) {
      ResetAlike(t, m, input);
    } else if Pc(s) + 3 < |s.mem| {
      WordAlike(s.mem, m, Pc(s), s.be, d);
      if Confinement.Executes(s) {
        var ins := NextInstruction(s);
        ExecuteAlike(t, m, ins, input, d);
        Confinement.ExecuteStays(t, ins, input);
        RaiseAlike(Execute(t, ins, input), Execute(With(t, m), ins, input), input, ExecuteLeft(t, ins, d));
      }
    }
  }

  lemma ResetAlike(t: State, m: Bytes, input: Input)
    ensures Exception(t, RESET, input).Done? && Exception(With(t, m), RESET, input).Done?
    ensures Exception(With(t, m), RESET, input).code == Exception(t, RESET, input).code
    ensures Exception(With(t, m), RESET, input).s == With(Exception(t, RESET, input).s, m)
    ensures Exception(t, RESET, input).s.mem == t.mem
  {
    hide Cell, BankOf;
  }

  // ---------------------------------------------------------------- no bytes at all

  lemma {:induction false} BlockOfNothing(size: nat, load: bool, list: nat, i: nat, address: Word)
    requires i <= 16
    ensures BlockClean(size, load, list, i, address, {}) && BlockLeft(size, load, list, i, address, {}) == {}
    decreases 16 - i
  {
    hide Add;
    assert Unwritten(size, address, 4, {}) == {};
    if i < 16 {
      BlockOfNothing(size, load, list, i + 1, Add(address, 4));
      BlockOfNothing(size, load, list, i + 1, address);
    }
  }

  lemma {:induction false} TextOfNothing(m: Bytes, a: Word, before: Byte, n: nat)
    ensures TextClean(m, a, before, n, {})
    decreases n
  {
    hide Add;
    if n > 0 { TextOfNothing(m, Add(a, 1), if a < |m| then m[a] else before, n - 1); }
  }

  lemma ExecuteOfNothing(s: State, ins: Word)
    ensures ExecuteClean(s, ins, {}) && ExecuteLeft(s, ins, {}) == {}
  {
    hide BlockClean, BlockLeft, HalfTransfer.KindOf, HalfTransfer.ExtraAddress, SingleTransfer.AccessedAddress, BlockInverse.BlockOf, OffsetOf,
      HalfTransfer.DoubleAllowed, SingleTransfer.FormOf, IsExtra, IsSingle;
    BlockOfNothing(|s.mem|, Bit20(ins), BlockTransfer.ListOf(ins), 0, BlockInverse.BlockOf(s, ins).start);
  }

  lemma CleanOfNothing(s: State, input: Input)
    ensures StepClean(s, input, {}) && StepLeft(s, {}) == {}
  {
    hide ExecuteClean, ExecuteLeft, Execute, Passes, CondOf, WordAt, TextClean, ReadReg;
    if Confinement.Executes(s) {
      var t, ins := Fetched(s), NextInstruction(s);
      ExecuteOfNothing(t, ins);
      var o := Execute(t, ins, input);
      if o.Done? { TextOfNothing(o.s.mem, ReadReg(o.s, 0), input.junk % 0x100, BUFFER_SIZE); }
    }
  }
}
