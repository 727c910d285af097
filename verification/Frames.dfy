/**
 Stack frames, fetched and executed: function prologue and epilogue, and the frame of an
 interrupt handler.
 */
module Frames {
  import opened Words
  import opened MemoryUnit
  import opened RegisterFile
  import opened ArmCore
  import opened Encoding
  import opened BlockTransfer
  import opened BlockInverse
  import opened Instruction

  /** Sets of registers among R0-R12, as bits 12-0 of a register list. */
  type Low13 = l: nat | l < 0x2000

  /** `STMDB SP!, {L, LR}`. */
  function PushOf(l: Low13): Word { 0xE92D_4000 + l }

  /** `LDMIA SP!, {L, PC}`. */
  function PopOf(l: Low13): Word { 0xE8BD_8000 + l }

  /** `LDMIA SP!, {L, LR}`. */
  function UnstackOf(l: Low13): Word { 0xE8BD_4000 + l }

  lemma {:induction false} ListedAbove(l: nat, k: nat, i: nat)
    requires l < Pow2(k)
    ensures Listed(l + Pow2(k), i) <==> i == k || Listed(l, i)
    ensures i >= k ==> !Listed(l, i)
    decreases k
  {
    if k == 0 {
      OneListed(i);
    } else {
      var p := Pow2(k - 1);
      assert (l + Pow2(k)) / 2 == l / 2 + p && (l + Pow2(k)) % 2 == l % 2;
      if i > 0 { ListedAbove(l / 2, k - 1, i - 1); }
    }
  }

  lemma {:induction false} OneListed(i: nat)
    ensures Listed(1, i) <==> i == 0
    ensures !Listed(0, i)
  {
    if i > 0 { OneListed(i - 1); }
  }

  /** The registers of a list made of L and one register r of R13-R15. */
  lemma FrameList(l: Low13, r: nat, i: nat)
    requires 13 <= r < 16
    ensures Listed(l + Pow2(r), i) <==> i == r || Listed(l, i)
    ensures i >= 13 ==> !Listed(l, i)
  {
    assert Pow2(13) == 0x2000;
    Bitwise.Pow2Step(14); Bitwise.Pow2Step(15);
    ListedAbove(l, r, i);
    ListedAbove(l, 13, i);
  }

  lemma {:induction false} FrameCount(l: Low13, r: nat, i: nat)
    requires 13 <= r < 16 && i <= 16
    ensures Count(l + Pow2(r), i) == Count(l, i) + if i > r then 1 else 0
    ensures i >= 13 ==> Count(l, i) == Count(l, 13)
  {
    if i > 0 {
      FrameCount(l, r, i - 1);
      FrameList(l, r, i - 1);
    }
  }

  lemma FramePowers()
    ensures Pow2(14) == 0x4000 && Pow2(15) == 0x8000
  {
    assert Pow2(7) == 0x80 && Pow2(8) == 0x100;
    Pow2Add(7, 7);
    Pow2Add(7, 8);
  }

  /** The fields of the three instructions. */
  lemma FrameFields(l: Low13)
    ensures ListOf(PushOf(l)) == l + 0x4000 && ListOf(PopOf(l)) == l + 0x8000 && ListOf(UnstackOf(l)) == l + 0x4000
    ensures forall ins :: ins == PushOf(l) || ins == PopOf(l) || ins == UnstackOf(l) ==>
              CondOf(ins) == AL && ClassOf(ins) == 4 && RnOf(ins) == SP && Bit21(ins) && !Bit22(ins)
    ensures !Bit20(PushOf(l)) && Bit24(PushOf(l)) && !Bit23(PushOf(l))
    ensures Bit20(PopOf(l)) && !Bit24(PopOf(l)) && Bit23(PopOf(l))
    ensures Bit20(UnstackOf(l)) && !Bit24(UnstackOf(l)) && Bit23(UnstackOf(l))
  {
    TopFields(0xE92D, 0x4000 + l, PushOf(l));
    TopFields(0xE8BD, 0x8000 + l, PopOf(l));
    TopFields(0xE8BD, 0x4000 + l, UnstackOf(l));
  }

  lemma TopFields(h: Half, low: Half, ins: Word)
    requires ins == h * 0x1_0000 + low
    ensures ListOf(ins) == low && RnOf(ins) == h % 16 && CondOf(ins) == h / 0x1000 && ClassOf(ins) == h / 0x200 % 8
    ensures Bit24(ins) == (h / 0x100 % 2 == 1) && Bit23(ins) == (h / 0x80 % 2 == 1) && Bit22(ins) == (h / 0x40 % 2 == 1)
    ensures Bit21(ins) == (h / 0x20 % 2 == 1) && Bit20(ins) == (h / 0x10 % 2 == 1)
  {
    DivModUnique(ins, 0x1_0000, h, low);
    DivDiv(ins, 0x1_0000, 0x1000); DivDiv(ins, 0x1_0000, 0x200); DivDiv(ins, 0x1_0000, 0x100);
    DivDiv(ins, 0x1_0000, 0x80); DivDiv(ins, 0x1_0000, 0x40); DivDiv(ins, 0x1_0000, 0x20); DivDiv(ins, 0x1_0000, 0x10);
  }

  /** The state is about to execute this instruction. */
  predicate At(s: State, ins: Word) {
    Pc(s) + 3 < |s.mem| && NextInstruction(s) == ins
  }

  /** A step at a load or store multiple that always executes is that instruction. */
  lemma StepMultiple(s: State, ins: Word, input: Input)
    requires At(s, ins) && CondOf(ins) == AL && ClassOf(ins) == 4
    requires LoadStoreMultiple(Fetched(s), ins, input.junk).Done?
    ensures Step(s, input) == LoadStoreMultiple(Fetched(s), ins, input.junk)
  {
    MultipleCode(Fetched(s), ins, input.junk);
    hide LoadStoreMultiple, Fetched, CondOf, ClassOf, WordAt;
  }

  lemma MultipleCode(s: State, ins: Word, junk: Word)
    ensures LoadStoreMultiple(s, ins, junk).Done? ==> LoadStoreMultiple(s, ins, junk).code == 0
  {
    hide TransferFrom, RangeOf, WriteReg, SetCpsr, Listed, Count;
  }

  /** Fetching changes no register but PC. */
  lemma FetchedReads(s: State, r: GReg)
    requires r != PC
    ensures ReadReg(Fetched(s), r) == ReadReg(s, r)
    ensures CurrentBank(Fetched(s)) == CurrentBank(s) && Fetched(s).mem == s.mem && Fetched(s).be == s.be
  {
  }

  // ---------------------------------------------------------------- the frame in memory

  /** Words in a frame: one per register of L, then the link. */
  function FrameSize(l: Low13): (n: nat) ensures 1 <= n <= 14 { Count(l, 13) + 1 }

  /**
   The frame below the stack pointer starts here; the word of register k is `Slot(a, l, k)`, and
   that of the link `Slot(a, l, 13)`.
   */
  function FrameBase(s: State, l: Low13): Word {
    Add(ReadReg(s, SP), -4 * FrameSize(l))
  }

  ghost predicate FrameInside(size: nat, l: Low13, a: Word) {
    && size <= 0x1_0000_0000
    && Slot(a, l, 13) + 3 < size
    && forall k: nat :: k < 13 && Listed(l, k) ==> Slot(a, l, k) + 3 < size
  }

  ghost predicate SameFrame(m: Bytes, m': Bytes, be: bool, l: Low13, a: Word)
    requires |m| == |m'| && FrameInside(|m|, l, a)
  {
    && WordAt(m, Slot(a, l, 13), be) == WordAt(m', Slot(a, l, 13), be)
    && forall k: nat :: k < 13 && Listed(l, k) ==>
         WordAt(m, Slot(a, l, k), be) == WordAt(m', Slot(a, l, k), be)
  }

  /** The slots of the transfer are the words of the frame. */
  lemma FrameSlot(l: Low13, r: nat, a: Word, k: nat)
    requires 13 < r < 16
    ensures k < 13 ==> Slot(a, l + Pow2(r), k) == Slot(a, l, k)
    ensures k == r ==> Slot(a, l + Pow2(r), k) == Slot(a, l, 13)
    ensures k == 16 ==> Count(l + Pow2(r), k) == FrameSize(l)
  {
    if k <= 16 { FrameCount(l, r, k); }
    hide Count, Pow2;
  }

  lemma FrameSlotsInside(l: Low13, r: nat, a: Word, size: nat)
    requires 13 < r < 16 && FrameInside(size, l, a)
    ensures SlotsInside(size, l + Pow2(r), 0, a)
  {
    hide Slot, Listed, Pow2, Slot;
    var list := l + Pow2(r);
    forall k: nat | 0 <= k < 16 && Listed(list, k) ensures Slot(a, list, k) + 3 < size {
      FrameList(l, r, k);
      FrameSlot(l, r, a, k);
    }
  }

  /** v is s after pushing a frame. */
  ghost predicate Pushed(s: State, l: Low13, v: State)
    requires FrameInside(|s.mem|, l, FrameBase(s, l))
  {
    var a, b := FrameBase(s, l), CurrentBank(s);
    && |v.mem| == |s.mem| && v.be == s.be && v.cells[Cell(SP, b)] == a && Pc(v) == Add(Pc(s), 4)
    && (forall x :: 0 <= x < |s.mem| && Outside(l + 0x4000, 0, a, x) ==> v.mem[x] == s.mem[x])
    && WordAt(v.mem, Slot(a, l, 13), s.be) == ReadReg(s, LR)
    && (forall k: nat :: k < 13 && Listed(l, k) ==> WordAt(v.mem, Slot(a, l, k), s.be) == ReadReg(s, k))
    && (forall c :: 0 <= c < 37 && c != 30 && c != Cell(SP, b) ==> v.cells[c] == s.cells[c])
  }

  lemma PushEffect(s: State, l: Low13, input: Input)
    requires At(s, PushOf(l)) && FrameInside(|s.mem|, l, FrameBase(s, l))
    ensures Step(s, input).Done? && Step(s, input).code == 0 && Pushed(s, l, Step(s, input).s)
  {
    hide Listed, WordAt, Slot, BankOf;
    var t, ins, a := Fetched(s), PushOf(l), FrameBase(s, l);
    FrameFields(l);
    FramePowers();
    FrameSlotsInside(l, 14, a, |s.mem|);
    FrameSlot(l, 14, a, 16);
    FetchedReads(s, SP); FetchedReads(s, LR);
    assert BlockOf(t, ins).start == a == BlockOf(t, ins).writeback by {
      assert -4 * FrameSize(l) == -(4 * FrameSize(l));
      hide Count, Add;
    }
    StoreMultiple(t, ins, input.junk);
    StepMultiple(s, ins, input);
    hide Step, LoadStoreMultiple, Slot, Count, Outside, WordAt, BlockOf, BankOf, ClearBit1, Pow2;
    var o := LoadStoreMultiple(t, ins, input.junk);
    forall k: nat | k < 13 && Listed(l, k)
      ensures WordAt(o.s.mem, Slot(a, l, k), s.be) == ReadReg(s, k)
    {
      FrameList(l, 14, k);
      FrameSlot(l, 14, a, k);
      FetchedReads(s, k);
    }
    FrameList(l, 14, 14);
    FrameSlot(l, 14, a, 14);
  }

  /** `LDMIA SP!` of L and register r: PC in an epilogue, LR in a handler. */
  function LoadOf(l: Low13, r: nat): Word {
    if r == 15 then PopOf(l) else UnstackOf(l)
  }

  /** v is t after popping the frame its stack pointer points at. */
  ghost predicate Popped(t: State, l: Low13, r: GReg, v: State)
    requires FrameInside(|t.mem|, l, ReadReg(t, SP))
  {
    var a, b := ReadReg(t, SP), CurrentBank(t);
    var link := WordAt(t.mem, Slot(a, l, 13), t.be);
    && v.mem == t.mem && v.be == t.be && v.cells[31] == t.cells[31] && (r != 15 ==> Pc(v) == Add(Pc(t), 4))
    && v.cells[Cell(SP, b)] == Add(a, 4 * FrameSize(l))
    && v.cells[Cell(r, b)] == (if r == 15 then link - link % 4 else link)
    && (forall k: nat :: k < 13 && Listed(l, k) ==> v.cells[Cell(k, b)] == WordAt(t.mem, Slot(a, l, k), t.be))
    && (forall c | 0 <= c < 37 && c != 30 && c != Cell(SP, b) && c != Cell(r, b) ::
          (forall k: nat :: k < 13 && Listed(l, k) ==> c != Cell(k, b)) ==> v.cells[c] == t.cells[c])
  }

  /** The fields of a pop, and the block it transfers. */
  lemma PopFields(l: Low13, r: GReg)
    requires 14 <= r
    ensures var ins := LoadOf(l, r);
            && ListOf(ins) == l + Pow2(r) && CondOf(ins) == AL && ClassOf(ins) == 4 && RnOf(ins) == SP
            && Bit21(ins) && !Bit22(ins) && Bit20(ins) && !Bit24(ins) && Bit23(ins)
  {
    FrameFields(l);
    FramePowers();
    hide Pow2, ListOf, CondOf, ClassOf, RnOf;
  }

  lemma PopBlock(t: State, l: Low13, r: GReg)
    requires 14 <= r
    ensures var range := BlockOf(Fetched(t), LoadOf(l, r));
            range.start == ReadReg(t, SP) && range.writeback == Add(ReadReg(t, SP), 4 * FrameSize(l))
  {
    hide ListOf, RnOf, Bit20, Bit21, Bit22, Bit23, Bit24, CondOf, ClassOf, Pow2, Count, Add, Fetched, ReadReg,
      LoadOf, Slot;
    PopFields(l, r);
    FrameSlot(l, r, ReadReg(t, SP), 16);
    FetchedReads(t, SP);
  }

  /** v is t after the load of a frame, in terms of the slots of the transfer. */
  ghost predicate LoadedFrame(t: State, l: Low13, r: GReg, v: State)
    requires 14 <= r && FrameInside(|t.mem|, l, ReadReg(t, SP))
  {
    var a, b, list := ReadReg(t, SP), CurrentBank(t), l + Pow2(r);
    && v == Fetched(t).(cells := v.cells)
    && v.cells[Cell(SP, b)] == Add(a, 4 * FrameSize(l))
    && (forall k: GReg :: Listed(list, k) ==>
          Slot(a, list, k) + 3 < |t.mem| && v.cells[Cell(k, b)] == Loaded(Fetched(t), list, a, k))
    && (forall c | 0 <= c < 37 && c != Cell(SP, b) ::
          (forall k: GReg :: Listed(list, k) ==> Cell(k, b) != c) ==> v.cells[c] == Fetched(t).cells[c])
  }

  lemma PopLoads(t: State, l: Low13, r: GReg, junk: Word)
    requires 14 <= r && FrameInside(|t.mem|, l, ReadReg(t, SP))
    ensures var o := LoadStoreMultiple(Fetched(t), LoadOf(l, r), junk);
            o.Done? && o.code == 0 && LoadedFrame(t, l, r, o.s)
  {
    hide LoadStoreMultiple, Slot, Loaded, Count, WordAt, BlockOf, Pow2, BankOf, Listed, FrameInside, ReadReg,
      Add, Fetched, Cell, LoadOf, ListOf, RnOf;
    PopFields(l, r);
    PopBlock(t, l, r);
    FrameSlotsInside(l, r, ReadReg(t, SP), |t.mem|);
    FetchedReads(t, SP);
    FrameList(l, r, SP);
    InsideSize(|t.mem|, l, ReadReg(t, SP));
    LoadMultiple(Fetched(t), LoadOf(l, r), junk);
  }

  lemma InsideSize(size: nat, l: Low13, a: Word)
    requires FrameInside(size, l, a)
    ensures size <= 0x1_0000_0000
  {
  }

  /** The slots are the words of the frame. */
  lemma PopCells(t: State, l: Low13, r: GReg, v: State)
    requires 14 <= r && FrameInside(|t.mem|, l, ReadReg(t, SP)) && LoadedFrame(t, l, r, v)
    ensures Popped(t, l, r, v)
  {
    hide Slot, Count, WordAt, Pow2, BankOf, Listed, FrameSize, ClearBit1;
    var a, b, list := ReadReg(t, SP), CurrentBank(t), l + Pow2(r);
    forall k: nat | k < 13 && Listed(l, k)
      ensures v.cells[Cell(k, b)] == WordAt(t.mem, Slot(a, l, k), t.be)
    {
      FrameList(l, r, k);
      FrameSlot(l, r, a, k);
    }
    FrameList(l, r, r);
    FrameSlot(l, r, a, r);
    forall c | 0 <= c < 37 && c != 30 && c != Cell(SP, b) && c != Cell(r, b)
      && (forall k: nat :: k < 13 && Listed(l, k) ==> c != Cell(k, b))
      ensures v.cells[c] == t.cells[c]
    {
      forall k: GReg | Listed(list, k) ensures Cell(k, b) != c { FrameList(l, r, k); }
    }
    forall k: GReg ensures Cell(k, b) != 31 { CellsIdentify(k, b, CPSR, b); }
    if r != 15 {
      assert Cell(PC, b) == 30;
      CellsIdentify(SP, b, PC, b);
      forall k: GReg | Listed(list, k) ensures Cell(k, b) != 30 {
        FrameList(l, r, k);
        CellsIdentify(k, b, PC, b);
      }
    }
  }

  lemma PopEffect(t: State, l: Low13, r: GReg, input: Input)
    requires 14 <= r && At(t, LoadOf(l, r)) && FrameInside(|t.mem|, l, ReadReg(t, SP))
    ensures Step(t, input).Done? && Step(t, input).code == 0 && Popped(t, l, r, Step(t, input).s)
  {
    hide Step, LoadStoreMultiple, LoadedFrame, Popped, FrameInside, At, LoadOf, ReadReg, Fetched;
    PopLoads(t, l, r, input.junk);
    PopFields(l, r);
    assert At(t, LoadOf(l, r));
    StepMultiple(t, LoadOf(l, r), input);
    PopCells(t, l, r, Step(t, input).s);
  }

  /** What pushing put in the frame, popping an unchanged frame takes out. */
  lemma FrameRestored(s: State, l: Low13, s1: State, t: State, r: GReg, v: State)
    requires 14 <= r && FrameInside(|s.mem|, l, FrameBase(s, l)) && Pushed(s, l, s1)
    requires CurrentBank(t) == CurrentBank(s) && t.be == s.be && ReadReg(t, SP) == FrameBase(s, l)
    requires |t.mem| == |s.mem| && SameFrame(t.mem, s1.mem, s.be, l, FrameBase(s, l))
    requires Popped(t, l, r, v)
    ensures forall k: nat :: k < 13 && Listed(l, k) ==> ReadReg(v, k) == ReadReg(s, k)
    ensures ReadReg(v, SP) == ReadReg(s, SP) && CurrentBank(v) == CurrentBank(s)
    ensures v.cells[Cell(r, CurrentBank(s))] == ReadReg(s, LR) - if r == 15 then ReadReg(s, LR) % 4 else 0
  {
    hide WordAt, Slot, Listed, BankOf, Cell, FrameInside, ClearBit1, FrameSize, Add;
    var n: int := FrameSize(l);
    AddAdd(ReadReg(s, SP), -4 * n, 4 * n);
    AddZero(ReadReg(s, SP));
  }

  /**
   Prologue and epilogue.  For every L within R0-R12, pushing L and LR, then, after any body
   that keeps the bank, the stack pointer and the frame, popping L and PC, restores L and SP
   and leaves PC at LR with its low two bits cleared.
   */
  lemma PrologueEpilogue(s: State, l: Low13, t: State, i1: Input, i2: Input)
    requires At(s, PushOf(l)) && FrameInside(|s.mem|, l, FrameBase(s, l)) && At(t, PopOf(l))
    requires var o := Step(s, i1);
             o.Done? && |o.s.mem| == |s.mem| ==>
               && CurrentBank(t) == CurrentBank(s) && t.be == s.be && ReadReg(t, SP) == ReadReg(o.s, SP)
               && |t.mem| == |s.mem| && SameFrame(t.mem, o.s.mem, s.be, l, FrameBase(s, l))
    ensures Step(s, i1).Done?
    ensures var o := Step(t, i2);
            && o.Done? && o.code == 0 && o.s.mem == t.mem
            && (forall k: nat :: k < 13 && Listed(l, k) ==> ReadReg(o.s, k) == ReadReg(s, k))
            && ReadReg(o.s, SP) == ReadReg(s, SP)
            && Pc(o.s) == ReadReg(s, LR) - ReadReg(s, LR) % 4
  {
    hide Step, Pushed, FrameInside, SameFrame, ReadReg, Listed, BankOf, FrameBase;
    PushEffect(s, l, i1);
    var s1 := Step(s, i1).s;
    PushedStack(s, l, s1);
    PopEffect(t, l, 15, i2);
    FrameRestored(s, l, s1, t, 15, Step(t, i2).s);
    assert Cell(PC, CurrentBank(s)) == 30;
  }

  lemma PushedStack(s: State, l: Low13, s1: State)
    requires FrameInside(|s.mem|, l, FrameBase(s, l)) && Pushed(s, l, s1)
    ensures CurrentBank(s1) == CurrentBank(s) && ReadReg(s1, SP) == FrameBase(s, l) && |s1.mem| == |s.mem|
  {
    CellsIdentify(SP, CurrentBank(s), CPSR, CurrentBank(s));
    hide FrameInside, WordAt, Slot, Listed, BankOf, Cell, FrameBase;
  }
}
