/**
 An interrupt handler with a stack frame: push, any body, pop, return.
 */
module HandlerFrames {
  import opened Words
  import opened MemoryUnit
  import opened RegisterFile
  import opened ArmCore
  import opened Encoding
  import opened BlockTransfer
  import opened Exceptions
  import opened Instruction
  import opened Interrupts
  import opened Frames

  /** R0-R12. */
  const ALL: Low13 := 0x1FFF

  lemma {:induction false} AllListed(k: nat, n: nat)
    requires k < n
    ensures Listed(Pow2(n) - 1, k)
  {
    if k > 0 {
      AllListed(k - 1, n - 1);
      assert (Pow2(n) - 1) / 2 == Pow2(n - 1) - 1;
    }
  }

  lemma {:induction false} RunInTwo(s: State, first: seq<Action>, second: seq<Action>)
    requires StaysInIrq(s, first) && RunTo(s, first).Done? && StaysInIrq(RunTo(s, first).s, second)
    ensures StaysInIrq(s, first + second)
    ensures RunTo(s, first + second) == RunTo(RunTo(s, first).s, second)
    decreases |first|
  {
    hide Act, Masked;
    if first == [] {
      assert first + second == second;
    } else {
      assert (first + second)[0] == first[0] && (first + second)[1..] == first[1..] + second;
      RunInTwo(Act(s, first[0]).s, first[1..], second);
    }
  }

  /** A step at the push or the pop of a frame stays in the handler. */
  lemma FrameStepStays(s: State, ins: Word, input: Input)
    requires ModeOf(s) == IRQ && Masked(Cpsr(s)) && At(s, ins) && (ins == PushOf(ALL) || ins == UnstackOf(ALL))
    requires Step(s, input).Done? && Cpsr(Step(s, input).s) == Cpsr(s)
    ensures StaysInIrq(s, [Instr(input)]) && RunTo(s, [Instr(input)]) == Done(Step(s, input).s, 0)
  {
    hide Step, BankOf, Passes, CondOf, Masked;
    FrameFields(ALL);
    var a := [Instr(input)];
    assert a[1..] == [];
    var t := Step(s, input).s;
    assert RunTo(t, []) == Done(t, 0);
    assert StaysInIrq(t, []);
  }

  /** The body of a handler whose frame is in place: it keeps the stack pointer and the frame. */
  ghost predicate KeepsFrame(e: State, s: State, t: State)
    requires FrameInside(|e.mem|, ALL, FrameBase(e, ALL))
  {
    && ReadReg(t, SP) == FrameBase(e, ALL) && |t.mem| == |s.mem| == |e.mem|
    && SameFrame(t.mem, s.mem, e.be, ALL, FrameBase(e, ALL))
  }

  /** The states of a framed handler: at entry, in the frame, after the body, after the pop. */
  ghost predicate FramedRun(e: State, i0: Input, e1: State, body: seq<Action>, u: State, i1: Input, v: State) {
    && At(e, PushOf(ALL)) && FrameInside(|e.mem|, ALL, FrameBase(e, ALL))
    && Step(e, i0).Done? && Step(e, i0).s == e1
    && StaysInIrq(e1, body) && RunTo(e1, body).Done? && RunTo(e1, body).s == u
    && KeepsFrame(e, e1, u) && At(u, UnstackOf(ALL))
    && Step(u, i1).Done? && Step(u, i1).s == v
  }

  function WholeRun(i0: Input, body: seq<Action>, i1: Input): seq<Action> {
    [Instr(i0)] + body + [Instr(i1)]
  }

  /** The frame gives every register back. */
  lemma FrameGivesBack(e: State, i0: Input, e1: State, body: seq<Action>, u: State, i1: Input, v: State)
    requires ModeOf(e) == IRQ && FramedRun(e, i0, e1, body, u, i1, v)
    ensures HandlerRestored(e, v) && Cpsr(e1) == Cpsr(e) && Cpsr(v) == Cpsr(u)
  {
    hide Step, FrameInside, BankOf, ReadReg, ClearBit1, SameFrame, Listed, WordAt, Slot, FrameBase, Popped, Pushed;
    assert BankOf(IRQ) == BANK_IRQ by { IrqHasItsBank(e); }
    PushEffect(e, ALL, i0);
    PushedStack(e, ALL, e1);
    PushedPsr(e, e1);
    HandlerConfined(e1, body);
    hide RunTo, StaysInIrq;
    PopEffect(u, ALL, 14, i1);
    PoppedPsr(u, v);
    FrameRestored(e, ALL, e1, u, 14, v);
    BothRestored(e, v);
  }

  lemma IrqHasItsBank(e: State)
    ensures BankOf(IRQ) == BANK_IRQ
  {
  }

  /** Put end to end the three parts are one run of the handler. */
  lemma FramedIsHandler(e: State, i0: Input, e1: State, body: seq<Action>, u: State, i1: Input, v: State)
    requires ModeOf(e) == IRQ && Masked(Cpsr(e)) && FramedRun(e, i0, e1, body, u, i1, v)
    ensures StaysInIrq(e, WholeRun(i0, body, i1)) && RunTo(e, WholeRun(i0, body, i1)) == Done(v, 0)
  {
    hide Step, FrameInside, BankOf, ReadReg, SameFrame, Listed, WordAt, FrameBase, HandlerRestored, Masked;
    FrameGivesBack(e, i0, e1, body, u, i1, v);
    FrameStepStays(e, PushOf(ALL), i0);
    HandlerConfined(e1, body);
    RunCode(e1, body);
    FrameStepStays(u, UnstackOf(ALL), i1);
    hide RunTo, StaysInIrq, KeepsFrame;
    RunInTwo(e, [Instr(i0)], body);
    RunInTwo(e, [Instr(i0)] + body, [Instr(i1)]);
  }

  /**
   A handler that pushes R0-R12 and R14, does whatever it likes to them in IRQ mode with
   interrupts masked, pops them and returns, is transparent: nothing more is asked of its
   body than to keep its stack pointer and its frame.
   */
  lemma FramedHandler(s: State, i0: Input, e1: State, body: seq<Action>, u: State, i1: Input, v: State, i2: Input)
    requires !Masked(Cpsr(s)) && CurrentBank(s) != BANK_IRQ
    requires FramedRun(EnterIrq(s), i0, e1, body, u, i1, v) && AtReturn(v)
    ensures Act(s, Irq(i0)) == Done(EnterIrq(s), INTERRUPT)
    ensures RunTo(EnterIrq(s), WholeRun(i0, body, i1)) == Done(v, 0)
    ensures Step(v, i2).Done? && Resumed(s, Step(v, i2).s)
    ensures Pc(Step(v, i2).s) == Pc(s) <==> Pc(s) % 4 < 2
  {
    hide Step, EnterIrq, FlagsOfReturn, Resumed, Masked, RunTo, StaysInIrq, HandlerRestored, ClearBit1;
    var e := EnterIrq(s);
    EntryState(s);
    FrameGivesBack(e, i0, e1, body, u, i1, v);
    FramedIsHandler(e, i0, e1, body, u, i1, v);
    hide FramedRun;
    InterruptTransparent(s, WholeRun(i0, body, i1), i2);
  }

  lemma PushedPsr(e: State, e1: State)
    requires FrameInside(|e.mem|, ALL, FrameBase(e, ALL)) && Pushed(e, ALL, e1)
    ensures Cpsr(e1) == Cpsr(e) && e1.be == e.be
  {
    CellsIdentify(SP, CurrentBank(e), CPSR, CurrentBank(e));
    hide FrameInside, WordAt, Slot, Listed, BankOf, Cell, FrameBase;
  }

  lemma PoppedPsr(t: State, v: State)
    requires FrameInside(|t.mem|, ALL, ReadReg(t, SP)) && Popped(t, ALL, 14, v)
    ensures Cpsr(v) == Cpsr(t)
  {
    hide FrameInside, WordAt, Slot, Listed, BankOf, Cell;
  }

  lemma BothRestored(e: State, v: State)
    requires CurrentBank(e) == BANK_IRQ == CurrentBank(v)
    requires forall k: nat :: k < 13 && Listed(ALL, k) ==> ReadReg(v, k) == ReadReg(e, k)
    requires v.cells[Cell(LR, BANK_IRQ)] == ReadReg(e, LR)
    ensures HandlerRestored(e, v)
  {
    forall r: GReg | r < 13 || r == LR ensures v.cells[Cell(r, BANK_IRQ)] == e.cells[Cell(r, BANK_IRQ)] {
      if r < 13 {
        assert Pow2(13) == 0x2000;
        AllListed(r, 13);
        assert ReadReg(v, r) == ReadReg(e, r);
      }
    }
  }

  // ---------------------------------------------------------------- the shortest such handler

  /** Push, pop and return at the vector; the stack is above them and inside memory. */
  ghost predicate ShortHandler(s: State) {
    && 0x1F < |s.mem| <= 0x1_0000_0000
    && WordAt(s.mem, 0x14, s.be) == PushOf(ALL) && WordAt(s.mem, 0x18, s.be) == UnstackOf(ALL)
    && WordAt(s.mem, 0x1C, s.be) == RETURN
    && 0x20 + 56 <= ReadReg(s, SP) <= |s.mem|
  }

  lemma {:induction false} AllCounted(i: nat)
    requires i <= 13
    ensures Count(ALL, i) == i
  {
    if i > 0 {
      AllCounted(i - 1);
      assert Pow2(13) == 0x2000;
      AllListed(i - 1, 13);
    }
  }

  /** The frame of the short handler is below its stack pointer, word by word. */
  lemma ShortSlots(e: State, k: nat)
    requires 0x20 + 56 <= ReadReg(e, SP) <= 0x1_0000_0000 && k <= 13
    ensures Slot(FrameBase(e, ALL), ALL, k) == ReadReg(e, SP) - 56 + 4 * k
  {
    hide Count, ReadReg;
    AllCounted(13);
    AllCounted(k);
  }

  lemma ShortFrame(e: State)
    requires 0x20 + 56 <= ReadReg(e, SP) <= |e.mem| <= 0x1_0000_0000
    ensures FrameInside(|e.mem|, ALL, FrameBase(e, ALL))
  {
    hide Slot, Listed, ReadReg, FrameBase;
    ShortSlots(e, 13);
    forall k: nat | k < 13 && Listed(ALL, k) ensures Slot(FrameBase(e, ALL), ALL, k) + 3 < |e.mem| {
      ShortSlots(e, k);
    }
  }

  /** A byte of the code is outside the frame. */
  lemma OutsideCode(e: State, x: int)
    requires 0x20 + 56 <= ReadReg(e, SP) <= 0x1_0000_0000 && 0 <= x < 0x20
    ensures Outside(ALL + 0x4000, 0, FrameBase(e, ALL), x)
  {
    hide Slot, Listed, ReadReg, FrameBase, Pow2;
    var list, a := ALL + 0x4000, FrameBase(e, ALL);
    FramePowers();
    forall k: nat | k < 16 && Listed(list, k) ensures x < Slot(a, list, k) {
      FrameList(ALL, 14, k);
      FrameSlot(ALL, 14, a, k);
      ShortSlots(e, if k < 13 then k else 13);
    }
  }

  /** The interrupted stack pointer is the handler's. */
  lemma EntryStack(s: State)
    ensures ReadReg(EnterIrq(s), SP) == ReadReg(s, SP)
  {
    EntryState(s);
    hide EnterIrq;
    assert CurrentBank(EnterIrq(s)) == BANK_IRQ by { assert BankOf(IRQ) == BANK_IRQ; }
  }

  /** The bytes of the code are not the frame's. */
  lemma CodeStays(e: State, e1: State, a: int)
    requires 0x20 + 56 <= ReadReg(e, SP) <= |e.mem| <= 0x1_0000_0000 && 0 <= a <= 0x1C
    requires FrameInside(|e.mem|, ALL, FrameBase(e, ALL)) && Pushed(e, ALL, e1)
    ensures WordAt(e1.mem, a, e.be) == WordAt(e.mem, a, e.be)
  {
    hide FrameInside, Outside, WordAt, Slot, Listed, FrameBase, Cell, ReadReg;
    OutsideCode(e, a); OutsideCode(e, a + 1); OutsideCode(e, a + 2); OutsideCode(e, a + 3);
    SameBytes(e1.mem, e.mem, a, e.be);
  }

  lemma KeepsOwnFrame(e: State, e1: State)
    requires FrameInside(|e.mem|, ALL, FrameBase(e, ALL)) && Pushed(e, ALL, e1)
    ensures KeepsFrame(e, e1, e1)
  {
    PushedStack(e, ALL, e1);
    hide FrameInside, WordAt, Slot, Listed, FrameBase, Cell, Outside;
  }

  /**
   The hypotheses of `FramedHandler` can be met: with the short handler at the vector every
   unmasked interrupt of a program outside IRQ mode is served by a framed run.
   */
  lemma ShortHandlerRuns(s: State, i0: Input, i1: Input)
    requires !Masked(Cpsr(s)) && CurrentBank(s) != BANK_IRQ && ShortHandler(s)
    ensures var e := EnterIrq(s);
            && Step(e, i0).Done?
            && var e1 := Step(e, i0).s;
            && Step(e1, i1).Done?
            && var v := Step(e1, i1).s;
            && FramedRun(e, i0, e1, [], e1, i1, v) && AtReturn(v)
  {
    hide Step, EnterIrq, Pushed, Popped, FrameInside, ReadReg, WordAt, Slot, FrameBase, KeepsFrame, Masked, ClearBit1, Add;
    var e := EnterIrq(s);
    EntryState(s);
    EntryStack(s);
    ShortFrame(e);
    PushEffect(e, ALL, i0);
    var e1 := Step(e, i0).s;
    PushedStack(e, ALL, e1);
    PushedPsr(e, e1);
    CodeStays(e, e1, 0x18); CodeStays(e, e1, 0x1C);
    KeepsOwnFrame(e, e1);
    PushedPc(e, e1);
    ShortPc();
    assert At(e1, UnstackOf(ALL));
    PopEffect(e1, ALL, 14, i1);
    var v := Step(e1, i1).s;
    PoppedPc(e1, v);
    assert StaysInIrq(e1, []) && RunTo(e1, []) == Done(e1, 0);
  }

  lemma ShortPc()
    ensures Add(0x14, 4) == 0x18 && Add(0x18, 4) == 0x1C
  {
  }

  lemma PushedPc(e: State, e1: State)
    requires FrameInside(|e.mem|, ALL, FrameBase(e, ALL)) && Pushed(e, ALL, e1)
    ensures Pc(e1) == Add(Pc(e), 4) && |e1.mem| == |e.mem|
  {
    hide FrameInside, WordAt, Slot, Listed, FrameBase, Cell, Outside;
  }

  lemma PoppedPc(t: State, v: State)
    requires FrameInside(|t.mem|, ALL, ReadReg(t, SP)) && Popped(t, ALL, 14, v)
    ensures Pc(v) == Add(Pc(t), 4) && v.mem == t.mem && v.be == t.be
  {
    hide FrameInside, WordAt, Slot, Listed, Cell;
  }
}
