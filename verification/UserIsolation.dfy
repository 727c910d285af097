/**
 User mode cannot reach the exception modes, over whole runs.

 The statements cover every mode without an SPSR: USR, SYS, and the values of the mode field
 that the simulator treats as USR.
 */
module UserIsolation {
  import opened RegisterFile
  import opened ArmCore
  import opened Encoding
  import opened Instruction
  import opened Confinement
  import BlockTransfer

  /** The cells such a mode must not touch are the banked registers of the exception modes. */
  lemma BankedCellsArePrivate(r: Reg, b: Bank, u: Bank)
    requires HasSpsr(b) && !HasSpsr(u)
    ensures Private(Cell(r, b), u) <==> !Shared(r, b, u)
  {
    if Shared(r, b, u) {
      CellsIdentify(r, b, r, u);
    } else {
      forall r': Reg | r' != SPSR ensures Cell(r', u) != Cell(r, b) {
        CellsIdentify(r, b, r', u);
      }
    }
  }

  /** A step leaves such a mode exactly when its fetch fails, and then by a reset. */
  lemma OnlyAFailedFetchLeaves(s: State, input: Input)
    requires !HasSpsr(CurrentBank(s)) && Step(s, input).Done?
    ensures ModeOf(Step(s, input).s) != ModeOf(s) <==> FetchFails(s)
    ensures FetchFails(s) ==> Cpsr(Step(s, input).s) == 0x153 && Pc(Step(s, input).s) == 0
  {
    StepConfined(s, input);
    if FetchFails(s) {
      assert Cell(PC, CurrentBank(SetCpsr(Fetched(s), 0x153))) == 30;
    }
    hide Step;
  }

  /** The load multiple that would restore CPSR there reads an SPSR that does not exist. */
  lemma RestoringIsUndefined(s: State, input: Input)
    requires !HasSpsr(CurrentBank(s)) && Executes(s) && RestoresPsr(NextInstruction(s))
    ensures Step(s, input) == Undefined
  {
    var t, ins := Fetched(s), NextInstruction(s);
    FetchedStays(s);
    assert CurrentBank(t) == CurrentBank(s);
    var range := BlockTransfer.RangeOf(Bit24(ins), Bit23(ins), ReadReg(t, RnOf(ins)),
                                       BlockTransfer.Count(BlockTransfer.ListOf(ins), 16));
    TransfersStay(t, true, BlockTransfer.ListOf(ins), 0, range.start, input.junk);
    hide BlockTransfer.TransferFrom, BlockTransfer.RangeOf, BlockTransfer.Listed, BankOf, Fetched, ReadReg, Confined;
  }

  /** Each state is the result of stepping the one before. */
  ghost predicate IsRun(states: seq<State>, inputs: seq<Input>) {
    && |states| == |inputs| + 1
    && forall i :: 0 <= i < |inputs| ==>
         Step(states[i], inputs[i]).Done? && Step(states[i], inputs[i]).s == states[i + 1]
  }

  /**
   Isolation: however long the run, until a fetch fails no banked register of an exception
   mode and no SPSR has changed and the mode is the one it started in; and the failing fetch
   itself changes none of them.
   */
  lemma {:induction false} IsolatedRun(states: seq<State>, inputs: seq<Input>, k: nat)
    requires IsRun(states, inputs) && k < |states| && !HasSpsr(CurrentBank(states[0]))
    requires forall i :: 0 <= i < k - 1 ==> !FetchFails(states[i])
    ensures forall r: Reg, b: Bank :: HasSpsr(b) && !Shared(r, b, CurrentBank(states[0])) ==>
              states[k].cells[Cell(r, b)] == states[0].cells[Cell(r, b)]
    ensures ModeOf(states[k]) == ModeOf(states[0]) <==> k == 0 || !FetchFails(states[k - 1])
  {
    ConfinedRun(states, inputs, k);
    var u := CurrentBank(states[0]);
    forall r: Reg, b: Bank | HasSpsr(b) && !Shared(r, b, u)
      ensures states[k].cells[Cell(r, b)] == states[0].cells[Cell(r, b)]
    {
      BankedCellsArePrivate(r, b, u);
    }
  }

  lemma {:induction false} ConfinedRun(states: seq<State>, inputs: seq<Input>, k: nat)
    requires IsRun(states, inputs) && k < |states| && !HasSpsr(CurrentBank(states[0]))
    requires forall i :: 0 <= i < k - 1 ==> !FetchFails(states[i])
    ensures Confined(CurrentBank(states[0]), states[0], states[k])
    ensures ModeOf(states[k]) == ModeOf(states[0]) <==> k == 0 || !FetchFails(states[k - 1])
  {
    if k > 0 {
      ConfinedRun(states, inputs, k - 1);
      StepConfined(states[k - 1], inputs[k - 1]);
      OnlyAFailedFetchLeaves(states[k - 1], inputs[k - 1]);
      Compose(CurrentBank(states[0]), states[0], states[k - 1], states[k]);
      hide Step, Confined, BankOf;
    }
  }
}
