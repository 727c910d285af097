/**
 arm_instruction.c: fetch, condition, decoding, and the step of the processor.
 */
module Instruction {
  import opened Words
  import opened MemoryUnit
  import opened ArmCore
  import opened Encoding
  import DataProcessing
  import BlockTransfer
  import SingleTransfer
  import HalfTransfer
  import BranchOther
  import opened Exceptions

  type Condition = c: int | 0 <= c < 16

  const EQ: Condition := 0
  const NE: Condition := 1
  const GE: Condition := 10
  const LT: Condition := 11
  const GT: Condition := 12
  const LE: Condition := 13
  const AL: Condition := 14

  /** arm_instruction.c:186-215; condition 9 (LS) wants C and Z both set, 15 never passes. */
  predicate Passes(cond: Condition, psr: Word) {
    var n, z, c, v := FlagN(psr) == 1, FlagZ(psr) == 1, FlagC(psr) == 1, FlagV(psr) == 1;
    match cond
    case 0 => z
    case 1 => !z
    case 2 => c
    case 3 => !c
    case 4 => n
    case 5 => !n
    case 6 => v
    case 7 => !v
    case 8 => c && !z
    case 9 => c && z
    case 10 => n == v
    case 11 => n != v
    case 12 => !z && n == v
    case 13 => z || n != v
    case 14 => true
    case _ => false
  }

  /** Which bits of the status word each condition reads (31 is N, 30 Z, 29 C, 28 V). */
  lemma ConditionFlags(psr: Word)
    ensures Passes(0, psr) <==> Bit(psr, 30) == 1
    ensures Passes(1, psr) <==> Bit(psr, 30) == 0
    ensures Passes(2, psr) <==> Bit(psr, 29) == 1
    ensures Passes(3, psr) <==> Bit(psr, 29) == 0
    ensures Passes(4, psr) <==> psr >= 0x8000_0000
    ensures Passes(5, psr) <==> psr < 0x8000_0000
    ensures Passes(6, psr) <==> Bit(psr, 28) == 1
    ensures Passes(7, psr) <==> Bit(psr, 28) == 0
    ensures Passes(8, psr) <==> Bit(psr, 29) == 1 && Bit(psr, 30) == 0
    ensures Passes(9, psr) <==> Bit(psr, 29) == 1 && Bit(psr, 30) == 1
    ensures Passes(10, psr) <==> Bit(psr, 31) == Bit(psr, 28)
    ensures Passes(11, psr) <==> Bit(psr, 31) != Bit(psr, 28)
    ensures Passes(12, psr) <==> Bit(psr, 30) == 0 && Bit(psr, 31) == Bit(psr, 28)
    ensures Passes(13, psr) <==> Bit(psr, 30) == 1 || Bit(psr, 31) != Bit(psr, 28)
    ensures Passes(14, psr) && !Passes(15, psr)
  {
    FlagsAreBits(psr);
    SignBit(psr);
    hide Bit, FlagN, FlagZ, FlagC, FlagV;
  }

  lemma SignBit(psr: Word)
    ensures (FlagN(psr) == 1 <==> psr >= 0x8000_0000) && FlagN(psr) < 2 && FlagZ(psr) < 2 && FlagC(psr) < 2 && FlagV(psr) < 2
  {
  }

  /**
   The conditions come in opposite pairs (section A3.2.1 of DDI 0100), but for HI and LS:
   they are opposite here exactly when C is set.
   */
  lemma OppositeConditions(cond: Condition, psr: Word)
    requires cond % 2 == 0 && cond < AL
    ensures Passes(cond + 1, psr) == !Passes(cond, psr) <==> cond != 8 || FlagC(psr) == 1
  {
    hide FlagN, FlagZ, FlagC, FlagV;
  }

  /** Bits 24-23 are 10 and S is clear: the space of the miscellaneous instructions. */
  predicate Miscellaneous(ins: Word) {
    Bit24(ins) && !Bit23(ins) && !Bit20(ins)
  }

  /** `arm_fetch_code_inst`: the effect of an instruction whose condition passed. */
  function Execute(s: State, ins: Word, input: Input): Outcome {
    match ClassOf(ins)
    case 0 =>
      if !Bit4(ins) then
        if Miscellaneous(ins) then BranchOther.MoveStatus(s, ins) else Done(DataProcessing.DataProcess(s, ins), 0)
      else if !Bit7(ins) then
        if Miscellaneous(ins) then Done(BranchOther.BranchExchange(s, ins), 0)
        else Done(DataProcessing.DataProcess(s, ins), 0)
      else if !Bit5(ins) && !Bit6(ins) then Done(BranchOther.Multiply(s, ins), 0)
      else HalfTransfer.LoadStoreExtra(s, ins)
    case 1 =>
      if Miscellaneous(ins) then Done(s, UNDEFINED_INSTRUCTION) else Done(DataProcessing.DataProcess(s, ins), 0)
    case 2 => SingleTransfer.LoadStoreImmediate(s, ins)
    case 3 => if Bit4(ins) then Done(s, UNDEFINED_INSTRUCTION) else SingleTransfer.LoadStoreRegister(s, ins)
    case 4 => BlockTransfer.LoadStoreMultiple(s, ins, input.junk)
    case 5 => Done(BranchOther.Branch(s, ins), 0)
    case 6 => Done(s, UNDEFINED_INSTRUCTION)
    case _ => Done(s, if Bit24(ins) then SOFTWARE_INTERRUPT else UNDEFINED_INSTRUCTION)
  }

  /** The instruction a state is about to fetch. */
  function NextInstruction(s: State): Word
    requires Pc(s) + 3 < |s.mem|
  {
    WordAt(s.mem, Pc(s), s.be)
  }

  /** A fetch outside memory resets the processor. */
  predicate FetchFails(s: State) {
    Pc(s) >= |s.mem|
  }

  /** What follows a handler: a result other than 0 is raised, as the byte C passes on. */
  function Raise(o: Outcome, input: Input): Outcome {
    match o
    case Undefined => Undefined
    case Done(t, code) => if code == 0 then o else Exception(t, code % 256, input)
  }

  /** `arm_step`. */
  function Step(s: State, input: Input): Outcome {
    var t := Fetched(s);
    if FetchFails(s) then Exception(t, RESET, input)
    else if Pc(s) + 3 >= |s.mem| then Undefined
    else
      var ins := NextInstruction(s);
      if !Passes(CondOf(ins), Cpsr(t)) then Done(t, 0) else Raise(Execute(t, ins, input), input)
  }

  /** A step that executes nothing: its fetch fails, or its condition does. */
  lemma IdleStep(s: State, input: Input)
    ensures Pc(s) >= |s.mem| ==>
              Step(s, input) == Done(State(s.cells[31 := 0x153][30 := 0], s.mem, (s.cycles + 1) % 0x1_0000_0000, s.be), 1)
    ensures Pc(s) < |s.mem| <= Pc(s) + 3 ==> Step(s, input) == Undefined
    ensures Pc(s) + 3 < |s.mem| && !Passes(CondOf(WordAt(s.mem, Pc(s), s.be)), s.cells[31]) ==>
              Step(s, input) == Done(State(s.cells[30 := (Pc(s) + 4) % 0x1_0000_0000], s.mem,
                                           (s.cycles + 1) % 0x1_0000_0000, s.be), 0)
  {
    hide Execute, Passes, CondOf, WordAt, Exception;
    var t := Fetched(s);
    ExceptionEffect(t, RESET, input);
    assert t.cells[31 := 0x153][30 := 0] == s.cells[31 := 0x153][30 := 0];
  }

  /** What a step makes of a handler's result: a failed access, -1, comes back as the byte 255. */
  lemma RaiseEffect(t: State, input: Input)
    ensures Raise(Done(t, 0), input) == Done(t, 0)
    ensures Raise(Done(t, -1), input) == Done(t, 255)
    ensures Raise(Done(t, 2), input) == Done(t, 2) && Raise(Done(t, 7), input) == Done(t, 7)
    ensures Raise(Done(t, 8), input) == SoftwareInterrupt(t, input)
  {
    ExceptionEffect(t, 255, input);
    ExceptionEffect(t, 2, input);
    ExceptionEffect(t, 7, input);
    hide SoftwareInterrupt, EnterIrq, Reset;
  }

  method FetchCodeInst(p: Core, ins: Word, cpsr: Word, input: Input) returns (code: int)
    requires p.Valid() && cpsr == Cpsr(p.View()) && Execute(p.View(), ins, input).Done?
    modifies p.reg.data, p.mem.data
    ensures Execute(old(p.View()), ins, input) == Done(p.View(), code)
  {
    hide DataProcessing.DataProcess, BranchOther.MoveStatus, BranchOther.BranchExchange, BranchOther.Multiply,
      BranchOther.Branch, HalfTransfer.LoadStoreExtra, SingleTransfer.LoadStoreImmediate,
      SingleTransfer.LoadStoreRegister, BlockTransfer.LoadStoreMultiple, Miscellaneous;
    code := UNDEFINED_INSTRUCTION;
    match ClassOf(ins) {
      case 0 =>
        if !Bit4(ins) {
          if Miscellaneous(ins) {
            code := BranchOther.PerformMoveStatus(p, ins);
          } else {
            code := DataProcessing.Perform(p, ins, cpsr);
          }
        } else if !Bit7(ins) {
          if Miscellaneous(ins) {
            code := BranchOther.PerformBranchExchange(p, ins);
          } else {
            code := DataProcessing.Perform(p, ins, cpsr);
          }
        } else if !Bit5(ins) && !Bit6(ins) {
          code := BranchOther.PerformMultiply(p, ins, cpsr);
        } else {
          code := HalfTransfer.Perform(p, ins);
        }
      case 1 =>
        if !Miscellaneous(ins) {
          code := DataProcessing.Perform(p, ins, cpsr);
        }
      case 2 => code := SingleTransfer.PerformImmediate(p, ins);
      case 3 =>
        if !Bit4(ins) {
          code := SingleTransfer.PerformRegister(p, ins);
        }
      case 4 => code := BlockTransfer.Perform(p, ins, input.junk);
      case 5 => code := BranchOther.PerformBranch(p, ins);
      case 6 =>
      case _ =>
        if Bit24(ins) {
          code := SOFTWARE_INTERRUPT;
        }
    }
  }

  /** `arm_execute_instruction`; a failed fetch comes back as RESET. */
  method ExecuteInstruction(p: Core, input: Input) returns (code: int)
    requires p.Valid() && Step(p.View(), input).Done?
    modifies p.reg.data, p.mem.data, p
    ensures var s := old(p.View());
            if FetchFails(s) then p.View() == Fetched(s) && code == RESET
            else Pc(s) + 3 < |s.mem|
                 && if Passes(CondOf(NextInstruction(s)), Cpsr(Fetched(s)))
                    then Execute(Fetched(s), NextInstruction(s), input) == Done(p.View(), code)
                    else p.View() == Fetched(s) && code == 0
  {
    hide Execute, Exception, Passes, Fetched, WordAt, CondOf;
    var err, ins := p.Fetch();
    if err != OK { return RESET; }
    var cpsr := p.ReadCpsr();
    if !Passes(CondOf(ins), cpsr) { return 0; }
    code := FetchCodeInst(p, ins, cpsr, input);
  }

  /** A step from what its execution left. */
  lemma StepCases(s: State, input: Input, t: State, code: int)
    requires if FetchFails(s) then t == Fetched(s) && code == RESET
             else Pc(s) + 3 < |s.mem|
                  && if Passes(CondOf(NextInstruction(s)), Cpsr(Fetched(s)))
                     then Execute(Fetched(s), NextInstruction(s), input) == Done(t, code)
                     else t == Fetched(s) && code == 0
    ensures Step(s, input) == if code == 0 then Done(t, 0) else Exception(t, code % 256, input)
  {
    hide Execute, Exception, Passes, Fetched, WordAt, CondOf;
  }

  /** `arm_step`. */
  method PerformStep(p: Core, input: Input) returns (code: int)
    requires p.Valid() && Step(p.View(), input).Done?
    modifies p.reg.data, p.mem.data, p
    ensures p.Valid() && Step(old(p.View()), input) == Done(p.View(), code)
  {
    hide Step, Execute, Exception, Passes, Fetched, WordAt, CondOf, FetchFails;
    ghost var s := p.View();
    code := ExecuteInstruction(p, input);
    StepCases(s, input, p.View(), code);
    if code != 0 {
      var raised := code % 256;
      code := Exceptions.Perform(p, raised, input);
    }
  }
}
