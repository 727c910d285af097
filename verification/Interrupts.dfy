/**
 Interrupts over whole runs: what an IRQ handler can do, and what the interrupted program sees.

 The IRQ thread and the gdb thread hold one lock around each exception and each command, so
 a run is a sequence of actions, each a step of the processor or the delivery of an IRQ.
 */
module Interrupts {
  import opened Words
  import opened MemoryUnit
  import opened RegisterFile
  import opened ArmCore
  import opened Encoding
  import opened DataProcessing
  import opened Shifter
  import opened Exceptions
  import opened Instruction
  import opened Confinement

  datatype Action = Instr(input: Input) | Irq(input: Input)

  function Act(s: State, a: Action): Outcome {
    match a
    case Instr(input) => Step(s, input)
    case Irq(input) => Exception(s, INTERRUPT, input)
  }

  function RunTo(s: State, actions: seq<Action>): Outcome
    decreases |actions|
  {
    if actions == [] then Done(s, 0)
    else match Act(s, actions[0])
         case Undefined => Undefined
         case Done(t, _) => RunTo(t, actions[1..])
  }

  lemma {:induction false} RunCode(s: State, actions: seq<Action>)
    ensures RunTo(s, actions).Done? ==> RunTo(s, actions).code == 0
    decreases |actions|
  {
    if actions != [] && Act(s, actions[0]).Done? {
      RunCode(Act(s, actions[0]).s, actions[1..]);
    }
    hide Act;
  }

  /** The steps of a run, without the deliveries. */
  function Instructions(actions: seq<Action>): seq<Action>
    decreases |actions|
  {
    if actions == [] then []
    else (if actions[0].Instr? then [actions[0]] else []) + Instructions(actions[1..])
  }

  /** The run is defined, and in IRQ mode with interrupts masked in each of its states. */
  ghost predicate StaysInIrq(s: State, actions: seq<Action>)
    decreases |actions|
  {
    && ModeOf(s) == IRQ && Masked(Cpsr(s))
    && (actions == [] ||
        (Act(s, actions[0]).Done? && StaysInIrq(Act(s, actions[0]).s, actions[1..])))
  }

  /** A masked delivery changes nothing, so a handler's run is that of its instructions alone. */
  lemma {:induction false} MaskedDeliveriesVanish(s: State, actions: seq<Action>)
    requires StaysInIrq(s, actions)
    ensures RunTo(s, actions) == RunTo(s, Instructions(actions))
    decreases |actions|
  {
    if actions != [] {
      MaskedDeliveriesVanish(Act(s, actions[0]).s, actions[1..]);
      if actions[0].Instr? {
        var steps := Instructions(actions);
        assert steps[0] == actions[0] && steps[1..] == Instructions(actions[1..]);
      } else {
        assert Instructions(actions) == Instructions(actions[1..]);
      }
      hide Step, EnterIrq;
    }
  }

  /** Whatever the handler does, it cannot reach what IRQ mode does not see, nor SPSR_irq. */
  lemma {:induction false} HandlerConfined(s: State, actions: seq<Action>)
    requires StaysInIrq(s, actions)
    ensures var o := RunTo(s, actions);
            o.Done? && Confined(BANK_IRQ, s, o.s) && ModeOf(o.s) == IRQ && Masked(Cpsr(o.s))
    decreases |actions|
  {
    ItselfConfined(s);
    if actions != [] {
      var t := Act(s, actions[0]).s;
      if actions[0].Instr? { StayingIsConfined(s, actions[0].input); }
      HandlerConfined(t, actions[1..]);
      Compose(BANK_IRQ, s, t, RunTo(t, actions[1..]).s);
      hide Step, Confined, EnterIrq;
    }
  }

  // ---------------------------------------------------------------- entry

  /** Everything the interrupted mode sees but PC and CPSR. */
  predicate SameContext(b: Bank, s: State, t: State) {
    forall r: GReg :: r != PC ==> t.cells[Cell(r, b)] == s.cells[Cell(r, b)]
  }

  /** The state an entry leaves. */
  lemma EntryState(s: State)
    ensures var t := EnterIrq(s);
            && ModeOf(t) == IRQ && Masked(Cpsr(t)) && Pc(t) == 0x14 && t.mem == s.mem && t.be == s.be
            && t.cells[Cell(LR, BANK_IRQ)] == ClearBit1(Add(Pc(s), 4))
            && t.cells[Cell(SP, BANK_IRQ)] == s.cells[Cell(SP, CurrentBank(s))]
            && t.cells[Cell(SPSR, BANK_IRQ)] == Cpsr(s)
            && forall c | 0 <= c < 37 && c != 30 && c != 31 && c != Cell(SPSR, BANK_IRQ) ::
                 c != Cell(LR, BANK_IRQ) && c != Cell(SP, BANK_IRQ) ==> t.cells[c] == s.cells[c]
  {
    hide ClearBit1, Add;
    assert BankOf(IRQ) == BANK_IRQ;
    var c1 := s.cells[31 := IrqPsr(Cpsr(s))];
    assert c1[31] % 64 == IRQ;
  }

  /**
   An entry keeps the context of the interrupted program exactly when that program does not
   run in IRQ mode itself, or its link register already holds the new link.
   */
  lemma EntryKeepsContext(s: State)
    ensures SameContext(CurrentBank(s), s, EnterIrq(s)) <==>
            CurrentBank(s) != BANK_IRQ || s.cells[Cell(LR, BANK_IRQ)] == ClearBit1(Add(Pc(s), 4))
  {
    EntryState(s);
    var b := CurrentBank(s);
    hide EnterIrq, ClearBit1, Add, BankOf;
    if b != BANK_IRQ {
      forall r: GReg | r != PC ensures EnterIrq(s).cells[Cell(r, b)] == s.cells[Cell(r, b)] {
        CellsIdentify(r, b, LR, BANK_IRQ);
        CellsIdentify(r, b, SP, BANK_IRQ);
      }
    }
  }

  // ---------------------------------------------------------------- return

  /** `SUBS PC, R14, #4`. */
  const RETURN: Word := 0xE25E_F004

  predicate AtReturn(s: State) {
    Pc(s) + 3 < |s.mem| && NextInstruction(s) == RETURN
  }

  lemma DecodeReturn(t: State, input: Input)
    ensures Passes(CondOf(RETURN), Cpsr(t))
    ensures Execute(t, RETURN, input) == Done(ApplyOperator(t, RETURN, 4, FlagC(Cpsr(t))), 0)
    ensures OpcodeOf(RETURN) == SUB && RdOf(RETURN) == PC && RnOf(RETURN) == LR && Bit20(RETURN)
  {
    hide ApplyOperator, OperandOf, FlagC, FlagZ, FlagN, FlagV;
    ReturnFields();
    ReturnOperand(t);
    hide ClassOf, CondOf, OpcodeOf, RdOf, RnOf, Bit20, Miscellaneous;
  }

  lemma ReturnFields()
    ensures CondOf(RETURN) == AL && ClassOf(RETURN) == 1 && !Miscellaneous(RETURN)
    ensures OpcodeOf(RETURN) == SUB && RdOf(RETURN) == PC && RnOf(RETURN) == LR && Bit20(RETURN)
    ensures RsOf(RETURN) == 0 && RETURN % 0x100 == 4
  {
  }

  lemma ReturnOperand(t: State)
    ensures OperandOf(t, RETURN) == Shifted(4, FlagC(Cpsr(t)))
  {
    ReturnFields();
    NoShift(ROR, 4, FlagC(Cpsr(t)));
    hide BarrelShift, ImmediateShift, FlagC, ClassOf, RsOf, ReadReg;
  }

  lemma NoShift(t: ShiftType, rm: Word, c: Flag)
    ensures BarrelShift(t, rm, 0, c) == Shifted(rm, c)
  {
  }

  /** In a mode with an SPSR the return loads PC from R14 - 4 and CPSR, but for NZCV, from the SPSR. */
  lemma ReturnStep(u: State, input: Input)
    requires AtReturn(u) && HasSpsr(CurrentBank(u))
    ensures var o := Step(u, input);
            && o.Done? && o.code == 0 && o.s.mem == u.mem && o.s.be == u.be
            && Pc(o.s) == Sub(u.cells[Cell(LR, CurrentBank(u))], 4)
            && Cpsr(o.s) == NewPsr(SUB, u.cells[Cell(LR, CurrentBank(u))], 4, FlagC(Cpsr(u)), Pc(o.s), Spsr(u))
            && (forall c :: 0 <= c < 37 && c != 30 && c != 31 ==> o.s.cells[c] == u.cells[c])
  {
    var t := Fetched(u);
    DecodeReturn(t, input);
    hide Passes, Execute, NewPsr, Add, Sub;
    var b := CurrentBank(u);
    assert CurrentBank(t) == b;
    assert Cell(LR, b) != 30 && Cell(SPSR, b) != 30 && Cell(PC, b) == 30;
    hide BankOf, Cell;
  }

  // ---------------------------------------------------------------- transparency

  /** At its end the handler has put back the registers both modes share, and its link. */
  predicate HandlerRestored(e: State, u: State) {
    forall r: GReg :: r < 13 || r == LR ==> u.cells[Cell(r, BANK_IRQ)] == e.cells[Cell(r, BANK_IRQ)]
  }

  /**
   The flags the return leaves: it recomputes them for its subtraction after loading the
   SPSR, where DDI 0100 section A4.1.106 restores all of CPSR.
   */
  predicate FlagsOfReturn(psr: Word, link: Word) {
    var pc := Sub(link, 4);
    && (FlagN(psr) == 1 <==> Negative(pc)) && (FlagZ(psr) == 1 <==> pc == 0)
    && (FlagC(psr) == 1 <==> Negative(pc)) && (FlagV(psr) == 1 <==> Negative(link) && !Negative(pc))
  }

  lemma FlagsRestored(psr: Word, link: Word, carry: Flag)
    ensures NewPsr(SUB, link, 4, carry, Sub(link, 4), psr) == psr <==> FlagsOfReturn(psr, link)
  {
    Split(psr);
    hide Sub;
  }

  /** The interrupted program goes on as if nothing had happened, but for NZCV. */
  predicate Resumed(s: State, v: State) {
    && (forall r: GReg :: r != PC ==> ReadReg(v, r) == ReadReg(s, r))
    && Cpsr(v) % 0x1000_0000 == Cpsr(s) % 0x1000_0000
    && ModeOf(v) == ModeOf(s)
    && (HasSpsr(CurrentBank(s)) ==> HasSpsr(CurrentBank(v)) && Spsr(v) == Spsr(s))
  }

  /**
   Interrupt transparency.  The handler runs any instructions in IRQ mode with interrupts
   masked, with any deliveries in between, and ends at `SUBS PC, R14, #4` with R0-R12 and R14
   as it found them.  Then the return resumes the interrupted program: its registers, its mode,
   its status word but for NZCV, its PC exactly when bit 1 of that was clear, and its NZCV
   exactly when they are those of the return's own subtraction.
   */
  lemma InterruptTransparent(s: State, actions: seq<Action>, input: Input)
    requires !Masked(Cpsr(s)) && CurrentBank(s) != BANK_IRQ
    requires StaysInIrq(EnterIrq(s), actions)
    requires var o := RunTo(EnterIrq(s), actions);
             o.Done? ==> HandlerRestored(EnterIrq(s), o.s) && AtReturn(o.s)
    ensures Act(s, Irq(input)) == Done(EnterIrq(s), INTERRUPT)
    ensures var o := RunTo(EnterIrq(s), actions);
            && o.Done? && Step(o.s, input).Done?
            && Resumed(s, Step(o.s, input).s)
            && (Pc(Step(o.s, input).s) == Pc(s) <==> Pc(s) % 4 < 2)
            && (Cpsr(Step(o.s, input).s) == Cpsr(s) <==> FlagsOfReturn(Cpsr(s), ClearBit1(Add(Pc(s), 4))))
  {
    var e, b := EnterIrq(s), CurrentBank(s);
    HandlerConfined(e, actions);
    var u := RunTo(e, actions).s;
    assert CurrentBank(u) == BANK_IRQ;
    EntryState(s);
    ReturnStep(u, input);
    hide RunTo, Step, StaysInIrq, EnterIrq;
    assert u.cells[Cell(SPSR, BANK_IRQ)] == e.cells[Cell(SPSR, BANK_IRQ)];
    var v := Step(u, input).s;
    LinkBack(Pc(s));
    FlagsRestored(Cpsr(s), ClearBit1(Add(Pc(s), 4)), FlagC(Cpsr(u)));
    ContextBack(s, e, u);
    SameLowBits(Cpsr(v), Cpsr(s));
    hide Confined, BankOf;
    forall r: GReg | r != PC ensures ReadReg(v, r) == ReadReg(s, r) {
      assert v.cells[Cell(r, b)] == u.cells[Cell(r, b)];
    }
  }

  /**
   The shortest handler: with the return at the vector itself, every unmasked interrupt of a
   program outside IRQ mode is entered and returned from at once.
   */
  lemma EmptyHandler(s: State, input: Input)
    requires !Masked(Cpsr(s)) && CurrentBank(s) != BANK_IRQ
    requires 0x17 < |s.mem| && WordAt(s.mem, 0x14, s.be) == RETURN
    ensures var e := EnterIrq(s);
            && Act(s, Irq(input)) == Done(e, INTERRUPT)
            && Step(e, input).Done? && Resumed(s, Step(e, input).s) && Step(e, input).s.mem == s.mem
            && (Pc(Step(e, input).s) == Pc(s) <==> Pc(s) % 4 < 2)
  {
    var e := EnterIrq(s);
    EntryState(s);
    assert RunTo(e, []) == Done(e, 0);
    assert StaysInIrq(e, []);
    hide Step, EnterIrq, WordAt, FlagsOfReturn, Resumed, StaysInIrq, RunTo, ClearBit1;
    ReturnStep(e, input);
    InterruptTransparent(s, [], input);
  }

  lemma LinkBack(pc: Word)
    ensures Sub(ClearBit1(Add(pc, 4)), 4) == pc <==> pc % 4 < 2
  {
    hide Add, Sub;
    var x := Add(pc, 4);
    NextAddress(pc);
    AddSub(pc, 4);
    if pc % 4 >= 2 { TwoBelow(x); }
  }

  lemma NextAddress(pc: Word)
    ensures Add(pc, 4) == if pc < 0xFFFF_FFFC then pc + 4 else pc - 0xFFFF_FFFC
    ensures Add(pc, 4) % 4 == pc % 4
  {
    var wraps := if pc < 0xFFFF_FFFC then 0 else 1;
    DivModUnique(pc + 4, 0x1_0000_0000, wraps, pc + 4 - wraps * 0x1_0000_0000);
    DivModUnique(Add(pc, 4), 4, pc / 4 + 1 - wraps * 0x4000_0000, pc % 4);
  }

  lemma TwoBelow(x: Word)
    requires x >= 2
    ensures Sub(x - 2, 4) != Sub(x, 4)
  {
  }

  /** What the handler restored, and what it could not reach, is the interrupted context. */
  lemma ContextBack(s: State, e: State, u: State)
    requires CurrentBank(s) != BANK_IRQ && e == EnterIrq(s)
    requires Confined(BANK_IRQ, e, u) && HandlerRestored(e, u)
    ensures var b := CurrentBank(s);
            && SameContext(b, s, u)
            && (HasSpsr(b) ==> u.cells[Cell(SPSR, b)] == s.cells[Cell(SPSR, b)])
  {
    var b := CurrentBank(s);
    EntryState(s);
    hide EnterIrq, BankOf, HandlerRestored;
    forall r: Reg | r != PC && r != CPSR && Cell(r, b) >= 0
      ensures u.cells[Cell(r, b)] == s.cells[Cell(r, b)]
    {
      CellsIdentify(r, b, LR, BANK_IRQ);
      CellsIdentify(r, b, SP, BANK_IRQ);
      CellsIdentify(r, b, SPSR, BANK_IRQ);
      if r < 13 && Shared(r, b, BANK_IRQ) {
        CellsIdentify(r, b, r, BANK_IRQ);
        RestoredAt(e, u, r);
      } else {
        forall r': Reg | r' != SPSR ensures Cell(r', BANK_IRQ) != Cell(r, b) {
          CellsIdentify(r, b, r', BANK_IRQ);
        }
      }
    }
    assert SameContext(b, s, u);
  }

  lemma RestoredAt(e: State, u: State, r: GReg)
    requires HandlerRestored(e, u) && (r < 13 || r == LR)
    ensures u.cells[Cell(r, BANK_IRQ)] == e.cells[Cell(r, BANK_IRQ)]
  {
  }
}
