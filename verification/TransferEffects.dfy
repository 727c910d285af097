/**
 What each load and store instruction does, written out on the bits of its word.

 Each lemma gives the whole state `Execute` leaves: which bytes move between memory and which
 registers, and what becomes of the base.
 */
module TransferEffects {
  import opened Words
  import opened MemoryUnit
  import opened RegisterFile
  import opened ArmCore
  import opened Encoding
  import opened Instruction
  import Bitwise
  import BlockInverse
  import BlockTransfer
  import SingleTransfer
  import HalfTransfer
  import ManualBlock

  /** The sum or difference that bit 23 selects. */
  lemma SumOrDifference(u: bool, base: Word, offset: Word)
    ensures SingleTransfer.Indexed(u, base, offset) ==
            if u then (base + offset) % 0x1_0000_0000 else (base - offset) % 0x1_0000_0000
  {
  }

  // ---------------------------------------------------------------- word and byte

  /** LDR, LDRB, STR and STRB: immediate offset, or scaled register offset with bit 4 clear. */
  predicate IsSingle(ins: Word) {
    ClassOf(ins) == 2 || (ClassOf(ins) == 3 && !Bit4(ins))
  }

  /**
   A word or a byte moves at the sum or difference of base and offset, or, when post-indexed,
   at the base; except in the plain offset form the base becomes the sum or difference.  An
   access outside memory changes nothing; post-indexing with W set is refused.  The offset is
   12 bits of the word, or the scaled register of `ScaledByZero` and `ScaledByPositive`.
   */
  lemma SingleEffect(s: State, ins: Word, input: Input)
    requires IsSingle(ins)
    ensures var base, rd, b := ReadReg(s, RnOf(ins)), RdOf(ins), CurrentBank(s);
            var offset := if ClassOf(ins) == 2 then ins % 0x1000 else SingleTransfer.ScaledOffset(s, ins);
            var moved := if Bit23(ins) then (base + offset) % 0x1_0000_0000 else (base - offset) % 0x1_0000_0000;
            var a := if Bit24(ins) then moved else base;
            var o := Execute(s, ins, input);
            if !Bit24(ins) && Bit21(ins) then o == Done(s, 7)
            else if a >= |s.mem| then o == Done(s, -1)
            else if !Bit22(ins) && a + 3 >= |s.mem| then o == Undefined
            else
              var c := if !Bit20(ins) then s.cells
                       else s.cells[Cell(rd, b) := if Bit22(ins) then s.mem[a] else WordAt(s.mem, a, s.be)];
              var m := if Bit20(ins) then s.mem
                       else if Bit22(ins) then s.mem[a := ReadReg(s, rd) % 0x100]
                       else PutWord(s.mem, a, ReadReg(s, rd), s.be);
              o == Done(s.(mem := m, cells := if Bit24(ins) && !Bit21(ins) then c else c[Cell(RnOf(ins), b) := moved]), 0)
  {
    hide WordAt, PutWord, ReadReg, SingleTransfer.ScaledOffset, SingleTransfer.Indexed, RnOf, RdOf, Bit20, Bit21, Bit22,
      Bit23, Bit24, BankOf;
    var base, rd := ReadReg(s, RnOf(ins)), RdOf(ins);
    var offset := if ClassOf(ins) == 2 then ins % 0x1000 else SingleTransfer.ScaledOffset(s, ins);
    SumOrDifference(Bit23(ins), base, offset);
    var f := SingleTransfer.FormOf(ins);
    assert Execute(s, ins, input) == SingleTransfer.Transfer(s, f, offset) by { SingleExecutes(s, ins, input); }
    hide Execute;
    var moved := SingleTransfer.Indexed(f.up, base, offset);
    var a := if f.pre then moved else base;
    if (f.pre || !f.writeback) && a < |s.mem| && (f.byte || a + 3 < |s.mem|) {
      var t := SingleTransfer.Access(s, f.load, f.byte, a, rd).s;
      assert CurrentBank(t) == CurrentBank(s) by { CellsIdentify(rd, CurrentBank(s), CPSR, CurrentBank(s)); }
    }
    hide Cell;
  }

  lemma SingleExecutes(s: State, ins: Word, input: Input)
    requires IsSingle(ins)
    ensures Execute(s, ins, input) ==
            SingleTransfer.Transfer(s, SingleTransfer.FormOf(ins),
                                    if ClassOf(ins) == 2 then ins % 0x1000 else SingleTransfer.ScaledOffset(s, ins))
  {
    hide SingleTransfer.Transfer, SingleTransfer.ScaledOffset, SingleTransfer.FormOf;
  }

  // ---------------------------------------------------------------- half words and signed bytes

  predicate IsExtra(ins: Word) {
    ClassOf(ins) == 0 && Bit4(ins) && Bit7(ins) && (Bit5(ins) || Bit6(ins))
  }

  /** Bits 11-8 and 3-0 as one number, or a register as it is, added to or taken from the base. */
  function HalfMoved(s: State, ins: Word): Word {
    var base := ReadReg(s, ins / 0x1_0000 % 16);
    var offset := if Bit22(ins) then ins / 0x100 % 16 * 16 + ins % 16 else ReadReg(s, ins % 16);
    if Bit23(ins) then (base + offset) % 0x1_0000_0000 else (base - offset) % 0x1_0000_0000
  }

  /** The address of the access: the sum or difference, or, when post-indexed, the base. */
  function HalfAddress(s: State, ins: Word): Word {
    if Bit24(ins) then HalfMoved(s, ins) else ReadReg(s, ins / 0x1_0000 % 16)
  }

  /** The state in which the access is made: except in the plain offset form the base is written. */
  function BaseWritten(s: State, ins: Word): State {
    if Bit24(ins) && !Bit21(ins) then s
    else s.(cells := s.cells[Cell(ins / 0x1_0000 % 16, CurrentBank(s)) := HalfMoved(s, ins)])
  }

  lemma ExtraBase(s: State, ins: Word, input: Input)
    requires IsExtra(ins)
    ensures Execute(s, ins, input) ==
            if !Bit24(ins) && Bit21(ins) then Done(s, 7)
            else HalfTransfer.ExtraAccess(BaseWritten(s, ins), HalfTransfer.KindOf(ins), HalfAddress(s, ins), RdOf(ins))
    ensures CurrentBank(BaseWritten(s, ins)) == CurrentBank(s)
  {
    hide ReadReg, SingleTransfer.Indexed, RdOf, Bit20, Bit21, Bit22, Bit23, Bit24, BankOf, Cell,
      HalfTransfer.ExtraAccess, HalfTransfer.KindOf, Execute;
    KeepsBank(s, RnOf(ins), HalfMoved(s, ins));
    SumOrDifference(Bit23(ins), ReadReg(s, RnOf(ins)), HalfTransfer.ExtraOffset(s, ins));
    ExtraExecutes(s, ins, input);
  }

  lemma ExtraExecutes(s: State, ins: Word, input: Input)
    requires IsExtra(ins)
    ensures Execute(s, ins, input) == HalfTransfer.LoadStoreExtra(s, ins)
  {
    hide HalfTransfer.LoadStoreExtra;
  }

  /** A byte and a half word extended with their sign. */
  function SignedByte(b: Byte): Word {
    if b < 0x80 then b else b + 0xFFFF_FF00
  }

  function SignedHalf(h: Half): Word {
    if h < 0x8000 then h else h + 0xFFFF_0000
  }

  /** LDRH and LDRSH: the half word, extended with zeros or its sign, goes to Rd; outside memory, 0. */
  lemma HalfLoadEffect(s: State, ins: Word, input: Input)
    requires IsExtra(ins) && Bit20(ins) && Bit5(ins) && (Bit24(ins) || !Bit21(ins))
    ensures var t, a, c := BaseWritten(s, ins), HalfAddress(s, ins), Cell(RdOf(ins), CurrentBank(s));
            var o := Execute(s, ins, input);
            if a >= |s.mem| then o == Done(t.(cells := t.cells[c := 0]), -1)
            else if a + 1 >= |s.mem| then o == Undefined
            else
              var h := HalfAt(s.mem, a, s.be);
              o == Done(t.(cells := t.cells[c := if Bit6(ins) then SignedHalf(h) else h]), 0)
  {
    hide HalfAt, ReadReg, RnOf, RdOf, Bit5, Bit6, Bit20, Bit21, Bit22, Bit23, Bit24, BankOf, Execute, HalfAddress,
      BaseWritten, Cell;
    ExtraBase(s, ins, input);
    BaseMemory(s, ins);
  }

  /** LDRSB: the byte, extended with its sign; outside memory, 0. */
  lemma ByteLoadEffect(s: State, ins: Word, input: Input)
    requires IsExtra(ins) && Bit20(ins) && !Bit5(ins) && (Bit24(ins) || !Bit21(ins))
    ensures var t, a, c := BaseWritten(s, ins), HalfAddress(s, ins), Cell(RdOf(ins), CurrentBank(s));
            Execute(s, ins, input) ==
            if a >= |s.mem| then Done(t.(cells := t.cells[c := 0]), -1)
            else Done(t.(cells := t.cells[c := SignedByte(s.mem[a])]), 0)
  {
    hide ReadReg, RnOf, RdOf, Bit5, Bit6, Bit20, Bit21, Bit22, Bit23, Bit24, BankOf, Execute, HalfAddress,
      BaseWritten, Cell;
    ExtraBase(s, ins, input);
    BaseMemory(s, ins);
  }

  lemma BaseMemory(s: State, ins: Word)
    ensures BaseWritten(s, ins).mem == s.mem && BaseWritten(s, ins).be == s.be
  {
  }

  lemma KeepsBank(s: State, r: GReg, v: Word)
    ensures CurrentBank(s.(cells := s.cells[Cell(r, CurrentBank(s)) := v])) == CurrentBank(s)
  {
    CellsIdentify(r, CurrentBank(s), CPSR, CurrentBank(s));
    CpsrCell(CurrentBank(s));
    hide Cell, BankOf;
  }

  /** STRH: the low half of Rd, read after the base is written, is stored; outside memory nothing is. */
  lemma HalfStoreEffect(s: State, ins: Word, input: Input)
    requires IsExtra(ins) && !Bit20(ins) && !Bit6(ins) && (Bit24(ins) || !Bit21(ins))
    ensures var t, a, rd, b := BaseWritten(s, ins), HalfAddress(s, ins), RdOf(ins), CurrentBank(s);
            var o := Execute(s, ins, input);
            if a >= |s.mem| then o == Done(t, -1)
            else if a + 1 >= |s.mem| then o == Undefined
            else o == Done(t.(mem := PutHalf(s.mem, a, ReadReg(t, rd) % 0x1_0000, s.be)), 0)
  {
    hide PutHalf, ReadReg, RnOf, RdOf, Bit20, Bit21, Bit22, Bit23, Bit24, BankOf, Execute, Cell, BaseWritten, HalfAddress;
    ExtraBase(s, ins, input);
    BaseMemory(s, ins);
  }

  /** The pair of a double word: an even register but R14, at a multiple of eight. */
  predicate PairAllowed(rd: GReg, a: Word) {
    rd % 2 == 0 && rd != 14 && a % 8 == 0
  }

  /** LDRD: two words to Rd and the next register; a pair or an address not allowed is refused. */
  lemma DoubleLoadEffect(s: State, ins: Word, input: Input)
    requires IsExtra(ins) && !Bit20(ins) && Bit6(ins) && !Bit5(ins) && (Bit24(ins) || !Bit21(ins))
    ensures var t, a, rd, b := BaseWritten(s, ins), HalfAddress(s, ins), RdOf(ins), CurrentBank(s);
            var o := Execute(s, ins, input);
            && (!PairAllowed(rd, a) ==> o == Done(t, 7))
            && (PairAllowed(rd, a) && a >= |s.mem| ==> o == Done(t.(cells := t.cells[Cell(rd, b) := 0]), -1))
            && (PairAllowed(rd, a) && a + 4 == |s.mem| ==>
                  rd < 15 &&
                  var low := WordAt(s.mem, a, s.be);
                  o == Done(t.(cells := t.cells[Cell(rd, b) := low][Cell(rd + 1, b) := low]), -1))
            && (PairAllowed(rd, a) && a + 7 < |s.mem| ==>
                  rd < 15 &&
                  var low, high := WordAt(s.mem, a, s.be), WordAt(s.mem, a + 4, s.be);
                  o == Done(t.(cells := t.cells[Cell(rd, b) := low][Cell(rd + 1, b) := high]), 0))
  {
    hide WordAt, ReadReg, RnOf, RdOf, Bit20, Bit21, Bit22, Bit23, Bit24, BankOf, Execute, Cell, HalfTransfer.LoadDouble, BaseWritten, HalfAddress;
    ExtraBase(s, ins, input);
    BaseMemory(s, ins);
    var t, a, rd := BaseWritten(s, ins), HalfAddress(s, ins), RdOf(ins);
    if PairAllowed(rd, a) { TwoLoads(t, a, rd); }
  }

  lemma TwoLoads(t: State, a: Word, rd: GReg)
    requires PairAllowed(rd, a)
    ensures var o, b := HalfTransfer.LoadDouble(t, a, rd), CurrentBank(t);
            && (a >= |t.mem| ==> o == Done(t.(cells := t.cells[Cell(rd, b) := 0]), -1))
            && (a + 4 == |t.mem| ==>
                  var low := WordAt(t.mem, a, t.be);
                  o == Done(t.(cells := t.cells[Cell(rd, b) := low][Cell(rd + 1, b) := low]), -1))
            && (a + 7 < |t.mem| ==>
                  var low, high := WordAt(t.mem, a, t.be), WordAt(t.mem, a + 4, t.be);
                  o == Done(t.(cells := t.cells[Cell(rd, b) := low][Cell(rd + 1, b) := high]), 0))
  {
    hide WordAt, BankOf, Cell, Add;
    NextWord(a);
    if a + 3 < |t.mem| { KeepsBank(t, rd, WordAt(t.mem, a, t.be)); }
  }

  lemma NextWord(a: Word)
    requires a % 8 == 0
    ensures Add(a, 4) == a + 4
  {
  }

  /** STRD: the pair, read after the base is written, goes to two words. */
  lemma DoubleStoreEffect(s: State, ins: Word, input: Input)
    requires IsExtra(ins) && !Bit20(ins) && Bit6(ins) && Bit5(ins) && (Bit24(ins) || !Bit21(ins))
    ensures var t, a, rd, b := BaseWritten(s, ins), HalfAddress(s, ins), RdOf(ins), CurrentBank(s);
            var o := Execute(s, ins, input);
            && (!PairAllowed(rd, a) ==> o == Done(t, 7))
            && (PairAllowed(rd, a) && a >= |s.mem| ==> o == Done(t, -1))
            && (PairAllowed(rd, a) && a + 4 == |s.mem| ==>
                  o == Done(t.(mem := PutWord(s.mem, a, ReadReg(t, rd), s.be)), -1))
            && (PairAllowed(rd, a) && a + 7 < |s.mem| ==>
                  rd < 15 &&
                  o == Done(t.(mem := PutWord(PutWord(s.mem, a, ReadReg(t, rd), s.be), a + 4, ReadReg(t, rd + 1), s.be)), 0))
  {
    hide WordAt, PutWord, ReadReg, RnOf, RdOf, Bit20, Bit21, Bit22, Bit23, Bit24, BankOf, Execute, Cell, HalfTransfer.StoreDouble, BaseWritten, HalfAddress;
    ExtraBase(s, ins, input);
    BaseMemory(s, ins);
    var t, a, rd := BaseWritten(s, ins), HalfAddress(s, ins), RdOf(ins);
    if PairAllowed(rd, a) { TwoStores(t, a, rd); }
  }

  lemma TwoStores(t: State, a: Word, rd: GReg)
    requires PairAllowed(rd, a)
    ensures var o := HalfTransfer.StoreDouble(t, a, rd);
            && (a >= |t.mem| ==> o == Done(t, -1))
            && (a + 4 == |t.mem| ==> o == Done(t.(mem := PutWord(t.mem, a, ReadReg(t, rd), t.be)), -1))
            && (a + 7 < |t.mem| ==>
                  o == Done(t.(mem := PutWord(PutWord(t.mem, a, ReadReg(t, rd), t.be), a + 4, ReadReg(t, rd + 1), t.be)), 0))
  {
    hide WordAt, PutWord, BankOf, Cell, ClearBit1, Add;
    NextWord(a);
  }

  // ---------------------------------------------------------------- load and store multiple

  /** The register list: bits 15 to 0, and how many of them below i are set. */
  lemma ListIsBits(ins: Word, i: nat)
    requires i < 16
    ensures BlockTransfer.Listed(BlockTransfer.ListOf(ins), i) <==> Bit(ins, i) == 1
    ensures BlockTransfer.Count(BlockTransfer.ListOf(ins), 0) == 0
    ensures BlockTransfer.Count(BlockTransfer.ListOf(ins), i + 1) ==
            BlockTransfer.Count(BlockTransfer.ListOf(ins), i) + Bit(ins, i)
  {
    ListedIsBit(ins % 0x1_0000, i);
    BitBelow(ins, i);
    hide BlockTransfer.Listed, Bit;
    BlockTransfer.CountStep(BlockTransfer.ListOf(ins), i);
    Bitwise.BitsAreBits(ins, ins, i);
  }

  lemma {:induction false} ListedIsBit(list: nat, i: nat)
    ensures BlockTransfer.Listed(list, i) <==> Bit(list, i) == 1
  {
    hide Bit;
    if i > 0 {
      ListedIsBit(list / 2, i - 1);
      Bitwise.BitOfHalf(list, i);
    } else {
      Bitwise.LowestBit(list);
    }
  }

  /** The low half word keeps the low bits. */
  lemma {:induction false} BitBelow(x: nat, i: nat)
    requires i < 16
    ensures Bit(x % 0x1_0000, i) == Bit(x, i)
  {
    var p, q := Pow2(i), Pow2(15 - i);
    Pow2Add(i, 15 - i);
    assert Pow2(15) == 0x8000 by { assert Pow2(7) == 0x80 && Pow2(8) == 0x100; Pow2Add(7, 8); }
    HalfOf(x, p, q);
  }

  lemma HalfOf(x: nat, p: nat, q: nat)
    requires p > 0 && q > 0 && p * q == 0x8000
    ensures x % 0x1_0000 / p % 2 == x / p % 2
  {
    var d := 2 * q;
    assert p * d == 0x1_0000 by { Associate(p, 2, q); Associate(2, p, q); }
    DivDiv(x, p, d);
    DivDiv(x / p, 2, q);
    assert x % 0x1_0000 == x / p % d * p + x % p;
    DivModUnique(x % 0x1_0000, p, x / p % d, x % p);
    DivDiv(x / p % d, 2, q);
    assert x / p % d == x / p / 2 % q * 2 + x / p % 2;
    DivModUnique(x / p % d, 2, x / p / 2 % q, x / p % 2);
  }

  /** The address of register k: one word for each register listed below it. */
  lemma SlotAddress(start: int, list: nat, k: nat)
    ensures BlockTransfer.Slot(start % 0x1_0000_0000, list, k) == (start + 4 * BlockTransfer.Count(list, k)) % 0x1_0000_0000
  {
    AddAdd(0, start, 4 * BlockTransfer.Count(list, k));
    hide BlockTransfer.Count;
  }

  /** Words, starting where the addressing mode has them. */
  function BlockAddress(s: State, ins: Word, k: nat): Word {
    var rn := ReadReg(s, ins / 0x1_0000 % 16);
    var n: int := BlockTransfer.Count(ins % 0x1_0000, 16);
    var first := if Bit23(ins) then (if Bit24(ins) then 4 else 0) else (if Bit24(ins) then 0 else 4) - 4 * n;
    (rn + first + 4 * BlockTransfer.Count(ins % 0x1_0000, k)) % 0x1_0000_0000
  }

  lemma BlockSlot(s: State, ins: Word, k: nat)
    ensures BlockTransfer.Slot(BlockInverse.BlockOf(s, ins).start, ins % 0x1_0000, k) == BlockAddress(s, ins, k)
    ensures BlockInverse.BlockOf(s, ins).writeback == ManualBlock.NewBase(s, ins)
  {
    hide ReadReg, Bit23, Bit24, BlockTransfer.Count, BlockTransfer.Slot, BlockInverse.BlockOf;
    var rn, n: int := ReadReg(s, ins / 0x1_0000 % 16), BlockTransfer.Count(ins % 0x1_0000, 16);
    ManualBlock.BlockStarts(s, ins);
    SlotAddress(if Bit23(ins) then (if Bit24(ins) then rn + 4 else rn)
                else if Bit24(ins) then rn - 4 * n else rn - 4 * n + 4, ins % 0x1_0000, k);
  }

  /** Each word of the block is inside memory. */
  ghost predicate BlockInMemory(s: State, ins: Word) {
    |s.mem| <= 0x1_0000_0000 && forall k: GReg :: Bit(ins, k) == 1 ==> BlockAddress(s, ins, k) + 3 < |s.mem|
  }

  lemma BlockIsInside(s: State, ins: Word)
    requires BlockInMemory(s, ins)
    ensures BlockInverse.BlockInside(s, ins)
  {
    hide Bit, BlockAddress, BlockTransfer.Slot, BlockTransfer.Listed, BlockInverse.BlockOf;
    forall k: nat | k < 16 && BlockTransfer.Listed(BlockTransfer.ListOf(ins), k)
      ensures BlockTransfer.Slot(BlockInverse.BlockOf(s, ins).start, BlockTransfer.ListOf(ins), k) + 3 < |s.mem|
    {
      ListIsBits(ins, k);
      BlockSlot(s, ins, k);
    }
  }

  /**
   STM: each listed register goes to its address, no other byte changes, and with W the base is
   written back.
   */
  lemma StoreMultipleEffect(s: State, ins: Word, input: Input)
    requires ClassOf(ins) == 4 && !Bit20(ins) && BlockInMemory(s, ins)
    ensures var o, rn := Execute(s, ins, input), ins / 0x1_0000 % 16;
            && o.Done? && o.code == 0 && |o.s.mem| == |s.mem|
            && (forall k: GReg :: Bit(ins, k) == 1 ==> WordAt(o.s.mem, BlockAddress(s, ins, k), s.be) == ReadReg(s, k))
            && (forall x :: 0 <= x < |s.mem|
                  && (forall k: GReg :: Bit(ins, k) == 1 ==> !(BlockAddress(s, ins, k) <= x < BlockAddress(s, ins, k) + 4))
                  ==> o.s.mem[x] == s.mem[x])
            && o.s == s.(mem := o.s.mem,
                         cells := if Bit21(ins) then s.cells[Cell(rn, CurrentBank(s)) := ManualBlock.NewBase(s, ins)] else s.cells)
  {
    hide Bit, BlockAddress, BlockTransfer.Slot, BlockTransfer.Listed, BlockInverse.BlockOf, ManualBlock.NewBase, ReadReg, WordAt, Bit20,
      Bit21, BankOf, Cell, BlockTransfer.LoadStoreMultiple;
    BlockIsInside(s, ins);
    BlockInverse.StoreMultiple(s, ins, input.junk);
    var list, start := BlockTransfer.ListOf(ins), BlockInverse.BlockOf(s, ins).start;
    forall k: GReg
      ensures (BlockTransfer.Listed(list, k) <==> Bit(ins, k) == 1)
           && BlockTransfer.Slot(start, list, k) == BlockAddress(s, ins, k)
           && BlockInverse.BlockOf(s, ins).writeback == ManualBlock.NewBase(s, ins)
    {
      ListIsBits(ins, k);
      BlockSlot(s, ins, k);
    }
    BlockSlot(s, ins, 0);
    MultipleExecutes(s, ins, input);
  }

  lemma MultipleExecutes(s: State, ins: Word, input: Input)
    requires ClassOf(ins) == 4
    ensures Execute(s, ins, input) == BlockTransfer.LoadStoreMultiple(s, ins, input.junk)
  {
    hide BlockTransfer.LoadStoreMultiple;
  }

  /**
   LDM: each listed register comes from its address, PC with its low two bits cleared, no other
   register changes, and with W the base is written back last.
   */
  lemma LoadMultipleEffect(s: State, ins: Word, input: Input)
    requires ClassOf(ins) == 4 && Bit20(ins) && !(Bit22(ins) && Bit(ins, 15) == 1) && BlockInMemory(s, ins)
    ensures var o, rn, b := Execute(s, ins, input), ins / 0x1_0000 % 16, CurrentBank(s);
            && o.Done? && o.code == 0 && o.s == s.(cells := o.s.cells)
            && (forall k: GReg :: Bit(ins, k) == 1 && !(Bit21(ins) && k == rn) ==>
                  var w := WordAt(s.mem, BlockAddress(s, ins, k), s.be);
                  o.s.cells[Cell(k, b)] == if k == 15 then w - w % 4 else w)
            && (Bit21(ins) ==> o.s.cells[Cell(rn, b)] == ManualBlock.NewBase(s, ins))
            && (forall c | 0 <= c < 37 && !(Bit21(ins) && c == Cell(rn, b)) ::
                  (forall k: GReg :: Bit(ins, k) == 1 ==> Cell(k, b) != c) ==> o.s.cells[c] == s.cells[c])
  {
    hide Bit, BlockAddress, BlockTransfer.Slot, BlockTransfer.Listed, BlockInverse.BlockOf, ManualBlock.NewBase, ReadReg, WordAt, Bit20,
      Bit21, Bit22, BankOf, Cell, BlockTransfer.LoadStoreMultiple, BlockTransfer.Received;
    BlockIsInside(s, ins);
    ListIsBits(ins, 15);
    BlockInverse.LoadMultiple(s, ins, input.junk);
    var list, start := BlockTransfer.ListOf(ins), BlockInverse.BlockOf(s, ins).start;
    forall k: GReg
      ensures (BlockTransfer.Listed(list, k) <==> Bit(ins, k) == 1)
           && BlockTransfer.Slot(start, list, k) == BlockAddress(s, ins, k)
    {
      ListIsBits(ins, k);
      BlockSlot(s, ins, k);
    }
    BlockSlot(s, ins, 0);
    MultipleExecutes(s, ins, input);
  }
}
