/**
 Where the decoder of arm_instruction.c and section A3.16 of DDI 0100 read a word differently.

 Both give the words of class 000 an operation.  The code knows one operation in each of the
 spaces of the miscellaneous instructions and of the multiplications, and takes every word of
 the space for it.
 */
module Decoding {
  import opened Words
  import opened ArmCore
  import opened Encoding
  import opened Instruction
  import BranchOther
  import DataProcessing
  import HalfTransfer

  datatype Operation =
    | MRS | MSR | BX | BLX | CLZ | BKPT | SaturatingAdd | HalfMultiply
    | MUL | MLA | LongMultiply | Swap
    | DataProcess | ExtraTransfer | Unallocated | Skipped

  /** Bits 7-4 are 1001: multiplications and swaps. */
  predicate MultiplySpace(ins: Word) {
    Bit7(ins) && !Bit6(ins) && !Bit5(ins) && Bit4(ins)
  }

  /** The miscellaneous instructions of the manual: bits 24-23 are 10, S is clear. */
  predicate MiscellaneousSpace(ins: Word) {
    Miscellaneous(ins) && !(Bit4(ins) && Bit7(ins))
  }

  /** Section A3.16.4, by bits 7-4 and bits 22-21. */
  function ManualMiscellaneous(ins: Word): Operation {
    if Bit7(ins) then HalfMultiply
    else if !Bit6(ins) && !Bit5(ins) && !Bit4(ins) then if Bit21(ins) then MSR else MRS
    else if !Bit6(ins) && !Bit5(ins) then
      if !Bit21(ins) then Unallocated else if Bit22(ins) then CLZ else BX
    else if !Bit6(ins) && Bit4(ins) then if Bit21(ins) && !Bit22(ins) then BLX else Unallocated
    else if Bit6(ins) && !Bit5(ins) && Bit4(ins) then SaturatingAdd
    else if Bit6(ins) && Bit5(ins) && Bit4(ins) && Bit21(ins) && !Bit22(ins) then BKPT
    else Unallocated
  }

  /** Section A3.16.2, by bits 24-20. */
  function ManualMultiply(ins: Word): Operation {
    if !Bit24(ins) then
      if Bit23(ins) then LongMultiply
      else if Bit22(ins) then Unallocated
      else if Bit21(ins) then MLA else MUL
    else if !Bit23(ins) && !Bit21(ins) && !Bit20(ins) then Swap
    else Unallocated
  }

  /** Condition 15 is a space of its own, of which ARMv5 allocates no word of class 000. */
  function ManualOperation(ins: Word): Operation {
    if CondOf(ins) == 15 then Unallocated
    else if MultiplySpace(ins) then ManualMultiply(ins)
    else if Bit4(ins) && Bit7(ins) then ExtraTransfer
    else if MiscellaneousSpace(ins) then ManualMiscellaneous(ins)
    else DataProcess
  }

  /** A word with condition 15 never passes its condition: the code skips it. */
  function CodeOperation(ins: Word): Operation {
    if CondOf(ins) == 15 then Skipped
    else if MultiplySpace(ins) then MUL
    else if Bit4(ins) && Bit7(ins) then ExtraTransfer
    else if MiscellaneousSpace(ins) then if Bit4(ins) then BX else MRS
    else DataProcess
  }

  /** What a step executes for a word of class 000 is the effect of its `CodeOperation`. */
  lemma CodeExecutes(s: State, ins: Word, input: Input)
    requires ClassOf(ins) == 0
    ensures CodeOperation(ins) == Skipped ==> !Passes(CondOf(ins), Cpsr(s))
    ensures CodeOperation(ins) != Skipped ==>
            Execute(s, ins, input) ==
            match CodeOperation(ins)
            case MUL => Done(BranchOther.Multiply(s, ins), 0)
            case MRS => BranchOther.MoveStatus(s, ins)
            case BX => Done(BranchOther.BranchExchange(s, ins), 0)
            case ExtraTransfer => HalfTransfer.LoadStoreExtra(s, ins)
            case _ => Done(DataProcessing.DataProcess(s, ins), 0)
  {
    hide BranchOther.Multiply, BranchOther.MoveStatus, BranchOther.BranchExchange, HalfTransfer.LoadStoreExtra,
      DataProcessing.DataProcess, Bit4, Bit5, Bit6, Bit7, Bit20, Bit21, Bit22, Bit23, Bit24;
  }

  /**
   The two agree if and only if the condition is not 15 and a word of the multiplications is a MUL (bits 24-21 clear), a
   miscellaneous one with bit 4 is a BX (0001 in bits 7-4, 01 in bits 22-21), and one without
   it is an MRS (0000 in bits 7-4, bit 21 clear).
   */
  lemma DecoderIsArchitectural(ins: Word)
    requires ClassOf(ins) == 0
    ensures CodeOperation(ins) == ManualOperation(ins) <==>
            if CondOf(ins) == 15 then false
            else if MultiplySpace(ins) then OpcodeOf(ins) == 0
            else if !MiscellaneousSpace(ins) then true
            else if Bit4(ins) then !Bit6(ins) && !Bit5(ins) && Bit21(ins) && !Bit22(ins)
            else !Bit7(ins) && !Bit6(ins) && !Bit5(ins) && !Bit21(ins)
  {
    OpcodeBits(ins);
    hide Bit4, Bit5, Bit6, Bit7, Bit20, Bit21, Bit22, Bit23, Bit24, OpcodeOf;
  }

  lemma OpcodeBits(ins: Word)
    ensures OpcodeOf(ins) == 0 <==> !Bit24(ins) && !Bit23(ins) && !Bit22(ins) && !Bit21(ins)
  {
    var q := ins / 0x20_0000;
    DivDiv(ins, 0x20_0000, 2); DivDiv(ins, 0x20_0000, 4); DivDiv(ins, 0x20_0000, 8);
    FourBits(q);
  }

  lemma FourBits(q: nat)
    ensures q % 16 == 0 <==> q % 2 == 0 && q / 2 % 2 == 0 && q / 4 % 2 == 0 && q / 8 % 2 == 0
  {
    DivDiv(q, 2, 8);
    DivDiv(q / 2, 2, 4);
    DivDiv(q / 4, 2, 2);
  }

  /** MLA R0, R1, R2, R3 and SWP R2, R1, [R0] are executed as multiplications. */
  lemma OthersMultiply(s: State, input: Input)
    ensures ManualOperation(0xE020_3291) == MLA && ManualOperation(0xE100_2091) == Swap
    ensures forall ins: Word :: ins == 0xE020_3291 || ins == 0xE100_2091 ==>
              Execute(s, ins, input) == Done(BranchOther.Multiply(s, ins), 0)
  {
    hide BranchOther.Multiply, Execute, CodeOperation, ManualOperation, ClassOf;
    OtherWords();
    CodeExecutes(s, 0xE020_3291, input);
    CodeExecutes(s, 0xE100_2091, input);
  }

  lemma OtherWords()
    ensures ClassOf(0xE020_3291) == 0 && CodeOperation(0xE020_3291) == MUL && ManualOperation(0xE020_3291) == MLA
    ensures ClassOf(0xE100_2091) == 0 && CodeOperation(0xE100_2091) == MUL && ManualOperation(0xE100_2091) == Swap
  {
  }
}
