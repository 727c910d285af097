# A verified model of the ARM simulator

The repository simulates an ARMv5 processor and lets gdb drive it over the remote serial
protocol. This project models the processor and the stub in Dafny and proves what a
maintainer would want to rely on: the laws of the load/store engine, the barrel shifter and
the comparisons, safety of whole runs (user mode, interrupts), and the contracts of the stub's
data structures. Where the code does not do what its standard asks, the model follows the code.
The differences met are listed below; for most of them a lemma says for exactly which inputs the
two agree.

The standards are the ARM Architecture Reference Manual (DDI 0100, cited by section) and the
Overview section of the GDB Remote Serial Protocol appendix of the GDB manual.

## How it is built

Each C object that changes in place is a class: `Memory` (a byte array), `Registers` (the
per-mode pointer tables over 37 cells), `Core`, the breakpoint `Table`, and the packet buffer
`Link`. `Core.View()` is the abstract state: cells, memory, cycle count and endianness. Every
handler comes twice: a function on states says what the instruction does, and a method with the
branches and loops of the C function is proved to have exactly that effect, down to
`Instruction.PerformStep`, which is `arm_step`. The laws are lemmas about the functions, so they
hold of the methods. What the functions themselves compute is stated once more on the bits of the
instruction word, independently of them: `TransferEffects` for loads and stores, `RegisterEffects`
for the rest, `ControlFlow.BranchStep` for branches, `Instruction.ConditionFlags` for conditions.

| files | content |
|---|---|
| `Words`, `Bitwise`, `Encoding` | 32-bit arithmetic, the macros of util.h, instruction fields |
| `MemoryUnit`, `RegisterFile`, `ArmCore` | memory.c, registers.c, arm_core.c |
| `Shifter`, `DataProcessing` | arm_data_processing.c |
| `BlockTransfer`, `BlockInverse`, `ManualBlock`, `UserRegisters`, `SingleTransfer`, `HalfTransfer`, `TransferEffects` | arm_load_store.c |
| `BranchOther`, `Exceptions`, `Instruction`, `Decoding`, `RegisterEffects` | arm_branch_other.c, arm_exception.c, arm_instruction.c |
| `Confinement`, `UserIsolation`, `ExceptionReturn`, `Interrupts`, `Unseen`, `Footprints`, `InterruptedRuns`, `Frames`, `HandlerFrames`, `ControlFlow` | programs and whole runs |
| `Breakpoints`, `HexText`, `Packets`, `Scanning`, `GdbMemory`, `GdbRegisters`, `GdbRun` | gdb_protocol.c, scanner.l |

An operation on states yields an `Outcome`: `Done` with a state and the code the C function
returns, or `Undefined` where the C program leaves defined behaviour. That happens in three
places only: a half-word or word access whose first byte is the only one checked
(memory.c:90, 107, 136, 156) and which runs past the end of the array; an access to the SPSR of
a mode that has none (a load multiple with the S bit and PC, in user or system mode); and SWI 3
with a text longer than its buffer of 100 bytes (arm_exception.c:41-49). The methods ask their
callers to exclude `Undefined` and nothing else. Two more places that C leaves undefined are given
the value evidently meant instead: `ror(x, 0)`, which shifts by 32, is x, and the cell of R13 and
R14 in the FIQ bank, one past the end of its block, is the last of the block.

`Input` carries what comes from outside: the number scanned by SWI 4, and the value an
uninitialised C variable happens to hold (`data` in load multiple, `instruction` in the SWI
handler, `value` in `print_string`).
`State.be` is the endianness chosen when the simulator is compiled, `bigEndianHost` that of the
host; everything is proved for both values of both.

A run is a sequence of actions, each a step or the delivery of an interrupt: the IRQ thread and the
gdb thread take one lock around each exception and each command (arm_simulator.c:107-109,
gdb_protocol.c:582-584).

## Where the code differs from its documentation

The model follows the code in all of these. For the first group a lemma gives the exact
condition under which the two agree:

- Sums always clear the C flag and differences copy bit 31 into it: `DataProcessing.WideAddition`,
  `DataProcessing.WideSubtraction`.
- LSR #0 and ROR #0 as immediate shifts: `Shifter.ImmediateIsArchitectural`; ROR #0 as a load/store
  offset uses the register's number: `SingleTransfer.ScaledIsArchitectural`.
- Condition LS tests C and Z both set: `Instruction.OppositeConditions`.
- MUL reads S from bit 4, where it is always set, and writes the sign to C instead of N:
  `BranchOther.MulIsArchitectural`.
- The decoder takes MLA, the long multiplications and SWP for MUL, and every word of the BX and MRS
  spaces for BX and MRS: `Decoding.DecoderIsArchitectural`. BX never sets T, and a BLX executed
  as BX does not link: `BranchOther.ExchangeIsArchitectural`.
- The mode field is six bits wide, so a set T bit selects the user bank:
  `RegisterFile.ModeFieldIsArchitectural`.
- The exception return `LDMFD SP!, {.., PC}^` writes its base back in the mode it returns to, not the
  one it leaves (`Confinement.StepConfined`), reads at the address as it stands, does not abort outside
  memory, and clears bit 1 of PC also when it returns to Thumb state:
  `ExceptionReturn.ReturnIsArchitectural`, with an input for each in `ReturnFromIrq`, `UnalignedReturn`,
  `FailedReturn` and `ThumbReturn`.
- LDM and STM with the S bit and without PC use the registers of the current mode, not of user mode:
  `UserRegisters.UserLoadIsArchitectural`, `UserRegisters.UserStoreIsArchitectural`.
- A PC loaded by LDR or LDM never sets T: `BranchOther.LoadedPcIsArchitectural`.
- Half-word, double-word and signed transfers write the base back before the access and their
  register after a failed load: `HalfTransfer.FailureKeeps`.
- `SUBS PC, R14, #4`, `MOVS PC, R14` and the like recompute NZCV after loading the SPSR:
  `DataProcessing.OperatorReturn`, `Interrupts.FlagsRestored`.
- Reading PC clears bit 1, so a program at an address with that bit set is not resumed where it was:
  `Interrupts.LinkBack`; its SWI number is read from the wrong address: `ControlFlow.SwiAddress`.
- An entry from IRQ mode itself overwrites the link register: `Interrupts.EntryKeepsContext`.
- A packet with one byte changed is refused by its checksum except for some `$` and `#`, which make
  the scanner see another packet: `Scanning.OneByteChanged`.

The others are stated without a condition, or only described here:

- The IRQ vector is 0x14 (arm_exception.c:115), and an entry copies the interrupted R13 to R13_irq
  (arm_exception.c:119), which section A2.6 leaves alone: `Interrupts.EntryState`.
- A reset writes 0x153 to CPSR, which leaves I clear where section A2.6.2 sets it, so an interrupt right
  after a reset is taken: `Exceptions.ResetUnmasked`.
- A failed fetch returns 1, which is RESET: `UserIsolation.OnlyAFailedFetchLeaves`.
- A failed read of a load multiple is not reported; `BlockInverse.LoadMultiple` says what the register
  receives instead.
- LDR at an address that is not a multiple of 4 reads the four bytes from there, where section A4.1.23
  rotates the aligned word; STR, LDM and STM use such addresses as they stand (`BlockTransfer.LoadLayout`,
  `BlockTransfer.StoreLayout`), where the manual ignores the two low bits.
- LDRT and STRT (post-indexed with W set) return UNDEFINED_INSTRUCTION: `SingleTransfer.Dispatch`.
- An addition to a full breakpoint table is refused even for an address already in it:
  `Breakpoints.Table.Add`.

## Model

| member | source | states |
|---|---|---|
| Words.FlagsAreBits | util.h:30 | the four flag readers are `get_bit` at positions 31 to 28 |
| Bitwise.SetAndClear | util.h:31-32 | `set_bit` and `clr_bit` add or subtract that power of two exactly when the bit differs |
| Bitwise.EachBit | util.h:30-36 | and, or and exclusive or act on each bit separately, for words of any size |
| Encoding.GetBitsIsField | util.h:34 | the masks and shifts of `get_bits` come to a quotient and a remainder, for every h and l below 31 apart |
| Encoding.FieldsAreGetBits | arm_instruction.c:32-170 | the instruction fields used by the decoder are the `get_bits` of their positions |
| Encoding.BitsAreGetBit | util.h:30 | the single bits used by the decoder and the handlers are `get_bit` of their positions |
| MemoryUnit.PutWord | memory.c:154-176 | a stored word reads back in the same endianness, and no other byte changes |
| MemoryUnit.PutHalf | memory.c:134-152 | a stored half word reads back, and no other byte changes |
| MemoryUnit.OtherEndianness | memory.c:105-121 | a word written in one endianness and read in the other is byte-reversed |
| MemoryUnit.ReadElsewhere | memory.c:154-176 | a word disjoint from a write is unchanged by it |
| MemoryUnit.Endianness | memory.c:88-121 | big-endian, the byte at the address is the most significant of the word or half word; little-endian, the least |
| MemoryUnit.PutSame | memory.c:154-176 | writing a word changes nothing if and only if it was there already |
| MemoryUnit.ReverseTwice | util.h:39 | byte reversal is its own inverse |
| MemoryUnit.Memory.ReadByte | memory.c:77-86 | fails exactly outside memory, else gives the byte |
| MemoryUnit.Memory.ReadHalf | memory.c:88-103 | fails exactly when the first byte is outside, else gives the half word in the chosen endianness |
| MemoryUnit.Memory.ReadWord | memory.c:105-121 | fails exactly when the first byte is outside, else gives the word in the chosen endianness |
| MemoryUnit.Memory.WriteByte | memory.c:123-132 | changes that byte only, or nothing when it fails |
| MemoryUnit.Memory.WriteHalf | memory.c:134-152 | the array becomes `PutHalf` of what it was, or stays when it fails |
| MemoryUnit.Memory.WriteWord | memory.c:154-176 | the array becomes `PutWord` of what it was, or stays when it fails |
| RegisterFile.CellsIdentify | registers.c:29-81 | two names denote one cell exactly when they are the same register in banks that share it (section A2.3) |
| RegisterFile.BankedMap | registers.c:150-180 | a read after a write sees the written value exactly when both name the same bank cell |
| RegisterFile.ModesShare | registers.c:98-143 | which of the seven modes, by number, share which registers, which have an SPSR, and that every other number counts as user mode |
| RegisterFile.ModeFieldIsArchitectural | registers.c:98-133 | the six-bit mode field selects the bank of the five mode bits if and only if T is clear or they select the user bank anyway |
| RegisterFile.PointInto | registers.c:35-80 | one turn of the table-building loop points that register's seven pointers at its cells and leaves the others |
| RegisterFile.Registers.constructor | registers.c:29-81 | the loops build the whole pointer table, with every register 0 |
| RegisterFile.Registers.Read | registers.c:150-159 | the value of the named cell, whatever the host's byte order |
| RegisterFile.Registers.Write | registers.c:171-180 | changes the named cell only; the byte swap cancels the one of the read |
| RegisterFile.Registers.ReadCpsr | registers.c:161-164 | CPSR, which is kept unswapped |
| RegisterFile.Registers.WriteCpsr | registers.c:182-186 | changes CPSR only |
| RegisterFile.Registers.GetMode | registers.c:130-133 | the low six bits of CPSR |
| RegisterFile.Registers.WriteSpsr | registers.c:188-195 | writes the SPSR of a mode that has one and changes nothing otherwise |
| ArmCore.ClearBit1IsMask | arm_core.c:91-106 | the mask 0xFFFFFFFD clears bit 1 and keeps the rest |
| ArmCore.Core.constructor | arm_core.c:51-69 | the state after creation: reset CPSR, PC 0, the supervisor stack at the end of memory |
| ArmCore.Core.ReadRegister | arm_core.c:91-116 | the register of the current bank; PC reads as its cell plus 4 with bit 1 cleared |
| ArmCore.Core.WriteRegister | arm_core.c:133-147 | changes that register of the current bank only |
| ArmCore.Core.ReadSpsr | arm_core.c:125-131 | the SPSR of the current mode |
| ArmCore.Core.WriteSpsr | arm_core.c:155-159 | writes the SPSR of the current mode, if it has one |
| ArmCore.Core.ReadWord | arm_core.c:179-186 | a word read at the compiled endianness |
| ArmCore.Core.Fetch | arm_core.c:188-204 | PC advances by 4 and the cycle count by 1 even when the read fails |
| ArmCore.Core.WriteWord | arm_core.c:224-231 | a word stored at the compiled endianness, registers untouched |
| Shifter.GetShifterOperandRegisterShift | arm_data_processing.c:320-414 | for every word and every amount, operand and carry are those of one arithmetic definition of the four shifts; amount 0 passes C through |
| Shifter.GetShifterOperandImmediateShift | arm_data_processing.c:256-318 | all four types for amounts 1 to 31, LSL #0 and ASR #0 are the same definition; LSR #0 and ROR #0 as coded |
| Shifter.RotatedImmediate | arm_data_processing.c:445-461 | the 8-bit immediate is ROR by twice the rotation, with its carry |
| Shifter.ImmediateIsArchitectural | arm_data_processing.c:256-318 | an immediate shift is that of section A5.1 if and only if it is not LSR #0 of anything but zero with N clear, nor ROR #0 with bit 0 of CPSR different from C |
| Shifter.LslCases | arm_data_processing.c:326-348 | multiplication by 2^s modulo 2^32, carry bit 32 of the product, is what the shift operators give, for every s |
| Shifter.LsrCases | arm_data_processing.c:349-370 | floor division by 2^s and its carry, for every s |
| Shifter.AsrCases | arm_data_processing.c:371-394 | floor division of the signed value and its carry, for every s |
| Shifter.RorCases | arm_data_processing.c:395-414 | exchange of quotient and remainder and its carry, for every s |
| DataProcessing.PutIsSetOrClear | arm_data_processing.c:28-63 | the flag updates are `set_bit` and `clr_bit` at bits 31 to 28 |
| DataProcessing.FlagChain | arm_data_processing.c:211-252 | the chain of flag functions leaves one status word: the four new flags over the untouched low 28 bits |
| DataProcessing.PerformOperator | arm_data_processing.c:124-254 | the sixteen operators, with the SPSR taken for Rd = PC and S |
| DataProcessing.Perform | arm_data_processing.c:417-461 | the three encodings, shifter and operator together |
| DataProcessing.OverflowMeansRange | arm_data_processing.c:65-109 | V after ADD, CMN, SUB and CMP if and only if the signed result leaves the int32 range |
| DataProcessing.ComparisonFlags | arm_data_processing.c:65-109 | after SUB or CMP, Z is equality and N different from V is less-than of the signed values |
| DataProcessing.LogicalOperators | arm_data_processing.c:124-254 | AND, EOR, ORR, BIC and MVN bit by bit |
| DataProcessing.WideAddition | arm_data_processing.c:52-63 | ADDS then ADC adds two 64-bit numbers if and only if the low words do not carry |
| DataProcessing.WideSubtraction | arm_data_processing.c:111-122 | SUBS then SBC subtracts two 64-bit numbers if and only if bit 31 of the low difference agrees with "no borrow" |
| DataProcessing.OperatorReturn | arm_data_processing.c:211-252 | any operator with S and Rd = PC, in a mode with an SPSR, returns as the manual has it if and only if the SPSR holds the flags of the operation itself |
| DataProcessing.MoveReturn | arm_data_processing.c:211-252 | for MOVS PC, R14: N and Z those of the link, C the shifter's |
| RegisterEffects.ResultIsValue | arm_data_processing.c:124-254 | the value of each of the sixteen operators, by opcode, as arithmetic modulo 2^32 or bitwise |
| RegisterEffects.OperatorFlags | arm_data_processing.c:28-122 | N, Z, C and V after each operator, by opcode, and the untouched low 28 bits |
| RegisterEffects.BorrowOverflow | arm_data_processing.c:84-96 | V after SBC and RSC as coded |
| RegisterEffects.ImmediateOperand | arm_data_processing.c:445-461 | the operand is the low byte rotated by twice bits 11-8, with its carry |
| RegisterEffects.RegisterOperand | arm_data_processing.c:320-414 | the operand is the register of bits 3-0 shifted, by the type in bits 6-5, by the low byte of the register of bits 11-8 |
| RegisterEffects.ShiftedOperand | arm_data_processing.c:256-318 | the operand is the register of bits 3-0 shifted by bits 11-7, with the four cases of amount 0 |
| RegisterEffects.DataProcessingEffect | arm_data_processing.c:417-461 | the whole state after an instruction of the three encodings: Rd, flags, SPSR, nothing else |
| RegisterEffects.OperatorWrites | arm_data_processing.c:124-254 | what Rd reads afterwards is the value of the operator, and every other register reads as before |
| BlockTransfer.TransferOne | arm_load_store.c:589-613 | one turn of the transfer loop for a listed register leaves the rest of the transfer to do |
| BlockTransfer.Perform | arm_load_store.c:542-624 | popcount loop, address range, transfer loop, SPSR and writeback have the specified effect |
| BlockTransfer.MaskLow2 | arm_load_store.c:594-602 | the mask of a loaded PC clears its low two bits |
| BlockTransfer.SlotsDisjoint | arm_load_store.c:554-613 | two listed registers occupy disjoint words, modulo 2^32, and the lower register comes first |
| BlockTransfer.DefinedWhen | arm_load_store.c:589-613 | the transfer stays within defined C if and only if no listed word straddles the end of memory |
| BlockTransfer.StoreLayout | arm_load_store.c:589-613 | register i is stored at start + 4 * (listed registers below i), unless that is outside memory, and no other byte changes |
| BlockTransfer.LoadLayout | arm_load_store.c:589-613 | register i receives the word at start + 4 * (listed registers below i), or, outside memory, the last word read before; no other cell changes |
| BlockTransfer.RunsToTheEnd | arm_load_store.c:554-613 | in each addressing mode the running address ends at the end address plus 4, modulo 2^32 |
| ManualBlock.BlockStarts | arm_load_store.c:559-586 | first address and new base of the four addressing modes, as sums of the base register and the number of registers |
| TransferEffects.ListIsBits | arm_load_store.c:548-556 | the register list is bits 15-0, and the count of its bits |
| TransferEffects.StoreMultipleEffect | arm_load_store.c:542-624 | STM: register k goes to base + 4 * (listed below k), plus 4 with P, upwards, or 4 * n less, plus 4 without P, downwards; no other byte changes, and the new base is base plus or minus 4 * n |
| TransferEffects.LoadMultipleEffect | arm_load_store.c:542-624 | LDM: register k comes from that address, PC with its low two bits cleared, no other register changes but the base |
| BlockInverse.StoreMultiple | arm_load_store.c:542-624 | the whole effect of STM: every listed word in memory, the base, and nothing else |
| BlockInverse.LoadMultiple | arm_load_store.c:542-624 | the whole effect of LDM without the SPSR, also for a block partly outside memory, where no failure is reported |
| BlockInverse.SameRange | arm_load_store.c:554-586 | flipping P and U from the written-back base gives the same block and the old base |
| BlockInverse.StoreThenLoad | arm_load_store.c:542-624 | STM with writeback, anything that keeps base and block, then LDM with P and U flipped restores every listed register and the base; memory outside the block is unchanged |
| BlockInverse.StoreLoadIsIdentity | arm_load_store.c:542-624 | one right after the other, such a pair leaves the whole state but memory as it was |
| SingleTransfer.BBitHandle | arm_load_store.c:64-106 | the word or byte access and its failure |
| SingleTransfer.Dispatch | arm_load_store.c:108-177 | offset, pre-indexed and post-indexed forms, with writeback only after success |
| SingleTransfer.PerformImmediate | arm_load_store.c:179-254 | the immediate-offset instruction |
| SingleTransfer.Scale | arm_load_store.c:270-319 | the scaling by shift operators is the barrel shifter of A5.1 (ROR #0 as coded) |
| SingleTransfer.PerformRegister | arm_load_store.c:256-362 | the register-offset instruction |
| SingleTransfer.ScaledIsArchitectural | arm_load_store.c:270-319 | the scaled offset is that of section A5.2 if and only if it is not ROR #0, or the number and value of the register agree above bit 0 |
| TransferEffects.SingleEffect | arm_load_store.c:52-362 | the whole state after LDR, LDRB, STR or STRB: the word or byte at base plus or minus the offset, by bit 23, or at the base when post-indexed, and what becomes of the base; failures change nothing |
| SingleTransfer.FailureChangesNothing | arm_load_store.c:64-177 | an access reported as failed changes no register and no memory |
| SingleTransfer.StoreThenLoad | arm_load_store.c:52-177 | STR pre-indexed then LDR post-indexed with U flipped, and the reverse, gives back the stored word or byte and restores Rn |
| SingleTransfer.ScaledStoreThenLoad | arm_load_store.c:256-362 | the same for the instructions with an unchanged scaled register offset |
| HalfTransfer.PerformAccess | arm_load_store.c:473-537 | the switch over half, double and signed accesses |
| HalfTransfer.Perform | arm_load_store.c:364-540 | the whole instruction, with its early writeback |
| TransferEffects.ExtraBase | arm_load_store.c:364-472 | offset, sum or difference, address and early writeback of the half, double and signed forms |
| TransferEffects.HalfLoadEffect | arm_load_store.c:473-537 | the whole state after LDRH and LDRSH |
| TransferEffects.ByteLoadEffect | arm_load_store.c:473-537 | the whole state after LDRSB |
| TransferEffects.HalfStoreEffect | arm_load_store.c:473-537 | the whole state after STRH |
| TransferEffects.DoubleLoadEffect | arm_load_store.c:473-537 | the whole state after LDRD, allowed or not, in and out of memory |
| TransferEffects.DoubleStoreEffect | arm_load_store.c:473-537 | the whole state after STRD, allowed or not, in and out of memory |
| HalfTransfer.ExtensionKeepsValue | arm_load_store.c:473-537 | sign extension keeps the signed value of a byte and of a half word |
| HalfTransfer.PairStoreThenLoad | arm_load_store.c:364-540 | STRD then the dual LDRD gives both words back, in any pair without the base, and restores Rn |
| HalfTransfer.FailureKeeps | arm_load_store.c:364-540 | a failing half, double or signed transfer changes nothing if and only if its base, its registers and the first word of a double store already held what it writes by then |
| HalfTransfer.FailedLoadShows | arm_load_store.c:473-537 | LDRH R0, [R1] outside memory clears R0 |
| HalfTransfer.HalfStoreThenLoad | arm_load_store.c:364-540 | STRH then the dual LDRH or LDRSH gives the half word, extended as asked, and restores Rn |
| BranchOther.ExtendThenShift | arm_branch_other.c:37-47 | filling the top byte and shifting is adding 4 times the signed 24-bit offset |
| BranchOther.PerformBranch | arm_branch_other.c:30-50 | B and BL: target and link |
| BranchOther.PerformMoveStatus | arm_branch_other.c:61-80 | MRS of CPSR or SPSR, and the abort where there is none |
| BranchOther.PerformBranchExchange | arm_branch_other.c:82-89 | BX drops bit 0 of the target |
| BranchOther.MaskLowBit | arm_branch_other.c:82-89 | the mask 0xFFFFFFFE drops bit 0 |
| BranchOther.ExchangeIsArchitectural | arm_branch_other.c:82-89 | BX is that of section A4.1.10 if and only if bit 0 of the target equals T; as BLX (section A4.1.9) also R14 must hold the return address before |
| BranchOther.LoadedPcIsArchitectural | arm_load_store.c:64-106 | a loaded PC is that of sections A4.1.23 and A4.1.20 if and only if, for LDR, the word is even and T clear, for LDM, bit 1 is clear and bit 0 equals T |
| BranchOther.PerformMultiply | arm_branch_other.c:91-123 | MUL with the S bit and flags as coded |
| BranchOther.MultiplyProduct | arm_branch_other.c:91-123 | the product is right for the signed and the unsigned reading |
| BranchOther.MulIsArchitectural | arm_branch_other.c:91-123 | a MUL has the effect of section A4.1.40 if and only if, with bit 20 set, N and C already equal the sign of the product, or, with it clear, Z and C already are those of the product |
| BranchOther.MulChangesFlags | arm_branch_other.c:91-123 | an input that shows it: MUL R0, R1, R2 without S, for a product of 1 with Z set |
| RegisterEffects.StatusEffect | arm_branch_other.c:61-80 | the whole state after MRS: which status word goes to Rd, or DATA_ABORT |
| RegisterEffects.ExchangeEffect | arm_branch_other.c:82-89 | the whole state after BX |
| RegisterEffects.MultiplyEffect | arm_branch_other.c:91-123 | the whole state after a word executed as MUL |
| RegisterEffects.NoEffect | arm_instruction.c:93-170 | the words without a handler return UNDEFINED_INSTRUCTION, SWI its code, and change nothing |
| Exceptions.IrqPsrIsBits | arm_exception.c:110-112 | the three macros replace the mode by IRQ, clear T and set I, and keep every other bit |
| Exceptions.Perform | arm_exception.c:58-131 | IRQ entry and masking, reset, software interrupts by number with the text loop of call 3 |
| Exceptions.PrintString | arm_exception.c:35-51 | the text `print_string` hands on, up to its NUL |
| Exceptions.TextIs | arm_exception.c:41-49 | a text that ends within the buffer is the bytes before its first NUL |
| Exceptions.TextOverruns | arm_exception.c:41-49 | the text runs past the buffer if and only if none of the first 100 bytes found is a NUL, where a byte outside memory is the one found before |
| Exceptions.ResetUnmasked | arm_exception.c:125-130 | a reset leaves I clear, and an interrupt right after it is taken |
| Exceptions.ExceptionEffect | arm_exception.c:101-131 | the state after each exception by number: reset, an interrupt masked or not, and the codes that only come back |
| Instruction.ConditionFlags | arm_instruction.c:186-215 | which bits of CPSR each of the sixteen conditions reads |
| Instruction.OppositeConditions | arm_instruction.c:186-215 | conditions come in opposite pairs (section A3.2.1), HI and LS if and only if C is set |
| Instruction.FetchCodeInst | arm_instruction.c:32-170 | the decoder reaches the right handler for every word |
| Decoding.CodeExecutes | arm_instruction.c:50-93 | a word of class 000 is executed as the operation `CodeOperation` gives it, and with condition 15 not at all |
| Decoding.DecoderIsArchitectural | arm_instruction.c:50-93 | that is the operation of section A3.16 if and only if the condition is not 15 and a multiplication is a MUL, a miscellaneous word with bit 4 a BX, and one without an MRS |
| Decoding.OthersMultiply | arm_instruction.c:76-89 | MLA and SWP words that are executed as MUL |
| Instruction.ExecuteInstruction | arm_instruction.c:172-226 | fetch, condition, execution; a failed fetch comes back as RESET |
| Instruction.IdleStep | arm_instruction.c:172-238 | the whole state after a step whose fetch or condition fails |
| Instruction.RaiseEffect | arm_instruction.c:228-238 | what a step makes of each result of a handler; -1 comes back as 255 |
| Instruction.PerformStep | arm_instruction.c:228-238 | one step of the processor, with the exception its result raises |
| Confinement.MultipleStays | arm_load_store.c:542-624 | a load or store multiple reaches only the current bank if and only if it does not restore CPSR and write a new base to a register the old bank does not share |
| Confinement.ExecuteStays | arm_instruction.c:32-170 | every handler the decoder reaches changes only the current bank, CPSR and memory, with that one exception exactly, and keeps a mode without SPSR |
| Confinement.StepConfined | arm_instruction.c:172-238 | one step changes only the current bank, CPSR and memory, if and only if it is not that exception; then it leaves the bank |
| Confinement.StayingIsConfined | arm_instruction.c:172-238 | every step that stays in its bank is confined to it |
| ExceptionReturn.ReturnIsArchitectural | arm_load_store.c:542-624 | LDM with S and PC has the effect of section A4.1.22 if and only if its block is inside memory, its words are those at the word boundaries with PC masked alike, and it does not write back or both modes share the base register |
| ExceptionReturn.AlignedReturn | arm_load_store.c:542-624 | from a word boundary: if and only if its block is inside memory, T is clear in the SPSR or bit 1 in the word for PC, and the same of the base |
| ExceptionReturn.FailedReturn | arm_load_store.c:589-613 | outside memory the code jumps to what an uninitialised variable held and reports nothing, the manual aborts |
| ExceptionReturn.UnalignedReturn | arm_load_store.c:589-613 | from address 5 the code takes the word there, the manual the one at 4 |
| ExceptionReturn.ThumbReturn | arm_load_store.c:594-602 | with T set in the SPSR the manual keeps bit 1 of PC |
| ExceptionReturn.ReturnExamples | arm_load_store.c:542-624 | a state for each of the three |
| UserRegisters.UserLoadIsArchitectural | arm_load_store.c:542-624 | LDM with S and without PC has the effect of section A4.1.21 if and only if its block is inside memory and each register is shared with user mode and gets the same word, or both held already what is loaded |
| UserRegisters.UserStoreIsArchitectural | arm_load_store.c:542-624 | from a word boundary, STM with S has the effect of section A4.1.98 if and only if its block is inside memory and each register listed reads the same in user mode |
| UserRegisters.ReadsAlike | registers.c:29-81 | a register does so if and only if user mode shares it or the two cells agree |
| ExceptionReturn.ReturnFromIrq | arm_load_store.c:613-623 | the step of `LDMFD SP!, {PC}^` from IRQ mode moves the stack pointer of the mode returned to |
| ExceptionReturn.ExampleEscapes | arm_load_store.c:613-623 | a state from which it does |
| UserIsolation.BankedCellsArePrivate | registers.c:29-81 | what user mode must not touch is exactly the banked registers it does not share |
| UserIsolation.OnlyAFailedFetchLeaves | arm_instruction.c:172-238 | a step leaves user mode if and only if its fetch fails, and then by a reset |
| UserIsolation.RestoringIsUndefined | arm_load_store.c:614-617 | LDM with S bit and PC in user mode reads an SPSR that does not exist |
| UserIsolation.IsolatedRun | arm_instruction.c:172-238 | over every run from user mode, no banked register of an exception mode and no SPSR changes, and the mode stays until a fetch fails |
| Interrupts.MaskedDeliveriesVanish | arm_exception.c:101-122 | deliveries while I is set change nothing: any interleaving equals the run of its instructions alone |
| Interrupts.HandlerConfined | arm_exception.c:101-122 | whatever a handler runs that keeps IRQ mode and the mask, it cannot reach what IRQ mode does not see, nor SPSR_irq |
| Interrupts.EntryState | arm_exception.c:101-122 | the complete state an entry leaves |
| Interrupts.EntryKeepsContext | arm_exception.c:101-122 | an entry keeps the interrupted context if and only if it does not come from IRQ mode with a different link |
| Interrupts.ReturnStep | arm_data_processing.c:211-252 | the step of `SUBS PC, R14, #4` in a mode with an SPSR |
| Interrupts.FlagsRestored | arm_data_processing.c:211-252 | the return restores the whole status word if and only if NZCV were those of its own subtraction |
| Interrupts.LinkBack | arm_core.c:91-106 | the link minus 4 is the interrupted PC if and only if bit 1 of that was clear |
| Interrupts.InterruptTransparent | arm_exception.c:101-122 | entry, any handler run with deliveries interleaved, and return restore registers, mode, CPSR bits 27 to 0 and SPSR; PC and NZCV exactly as said above |
| Interrupts.EmptyHandler | arm_exception.c:101-122 | with the return at the vector, every unmasked interrupt of a program outside IRQ mode is entered and undone at once |
| Unseen.ExecuteSeen | arm_instruction.c:32-170 | no handler lets a program outside IRQ mode tell apart two states that differ in R13_irq, R14_irq, SPSR_irq and the cycle count |
| Unseen.StepSeen | arm_instruction.c:172-238 | two states that look the same to such a program make the same step |
| Footprints.ExecuteAlike | arm_instruction.c:32-170 | every handler: two memories that differ only in bytes it does not read give the same result, and then differ only in those of them it does not write |
| Footprints.StepAlike | arm_instruction.c:172-238 | the same for a step, its fetch and its software interrupt |
| InterruptedRuns.ServedUnseen | arm_exception.c:101-122 | entry, handler and return leave a state that looks the same but for memory, when PC and NZCV are restored |
| InterruptedRuns.InterruptedRun | arm_exception.c:101-122 | a program with any number of interrupts, masked or so served, that reads no byte a handler has changed and it has not written since, is defined exactly when its run alone is, and ends with the same status, registers of every mode but those only IRQ mode has, and memory but for such bytes |
| InterruptedRuns.InterruptsVanish | arm_exception.c:101-122 | the same without a condition on the program, and with equal memory, when each handler gives memory back |
| InterruptedRuns.FramedIsServed | arm_exception.c:101-122 | handlers with a stack frame are among those served well |
| InterruptedRuns.ServedAtOnce | arm_exception.c:101-122 | such an interrupt: the return at the vector, PC at a word address, NZCV clear |
| Frames.PushEffect | arm_load_store.c:542-624 | the step of `STMDB SP!, {L, LR}` for every L within R0-R12: the words of the frame, SP, PC, and no other byte of memory |
| Frames.PopEffect | arm_load_store.c:542-624 | the step of `LDMIA SP!` of L and PC or LR |
| Frames.PrologueEpilogue | arm_load_store.c:573-623 | prologue, any body that keeps SP and the frame, epilogue: L and SP restored, PC is LR with its low two bits cleared |
| HandlerFrames.FrameGivesBack | arm_load_store.c:542-624 | a handler that pushes and pops R0-R12 and R14 gives them all back |
| HandlerFrames.FramedIsHandler | arm_exception.c:101-122 | push, body and pop put end to end are one masked handler run |
| HandlerFrames.FramedHandler | arm_exception.c:101-122 | such a handler is transparent, whatever its body does to the registers |
| HandlerFrames.ShortHandlerRuns | arm_exception.c:101-122 | push, pop and return at the vector make such a handler of every unmasked interrupt outside IRQ mode |
| ControlFlow.CompareStep | arm_data_processing.c:124-254 | the complete effect on PC, memory and flags of a CMP or SUBS step, in any encoding |
| ControlFlow.OrderDecided | arm_instruction.c:186-215 | EQ, NE, GE, LT, GT and LE after a comparison pass if and only if the signed relation holds |
| ControlFlow.CompareThenConditional | arm_instruction.c:172-238 | after the step of a comparison the next instruction is executed if and only if its condition holds of the two signed operands |
| ControlFlow.SetFlagsStep | arm_data_processing.c:124-254 | the step of any flag-setting operator: PC, memory and flags |
| ControlFlow.SetThenConditional | arm_instruction.c:172-238 | after it the next instruction is executed under MI, PL, EQ and NE exactly when the value is negative, not, zero, not, and under CS and CC by the code's C flag |
| ControlFlow.BranchStep | arm_branch_other.c:30-50 | the whole state after the step of B and BL from a word boundary, for every 24-bit offset |
| ControlFlow.Call | arm_branch_other.c:30-50 | the step of BL at a reaches a + 8 + 4 * offset and leaves a + 4 in R14 |
| ControlFlow.CallThenReturn | arm_branch_other.c:82-89 | a later BX R14 with R14 intact makes a + 4 the next fetch address |
| ControlFlow.SwiAddress | arm_exception.c:67-75 | the handler reads the SWI at the address it was fetched from if and only if bit 1 of PC is clear |
| ControlFlow.SoftwareInterruptStep | arm_exception.c:67-100 | the step of a SWI is decided by its own comment field |
| Breakpoints.NeverOverfull | gdb_protocol.c:87-125 | no sequence of commands makes more than 1024 breakpoints |
| Breakpoints.Membership | gdb_protocol.c:87-125 | after any commands, an address is set if and only if some accepted addition of it has not been removed since |
| Breakpoints.AscendingSize | gdb_protocol.c:61-125 | an ascending table holds as many addresses as entries |
| Breakpoints.AscendingUnique | gdb_protocol.c:61-125 | the table is determined by its set of addresses |
| Breakpoints.Table.Find | gdb_protocol.c:61-85 | binary search ends, and finds an index if and only if the address is in the table |
| Breakpoints.Table.Add | gdb_protocol.c:87-106 | inserts, refusing only when full, and keeps the table strictly ascending |
| Breakpoints.Table.ShiftUp | gdb_protocol.c:93-98 | the shift moves exactly the greater addresses up by one and leaves the place free |
| Breakpoints.Table.Remove | gdb_protocol.c:108-125 | deletes and reports membership, and keeps the table strictly ascending |
| HexText.ParseHex | gdb_protocol.c:161-171 | printing n hexadecimal digits and reading them gives the number back |
| HexText.HexWordParses | gdb_protocol.c:161-171 | the same for the eight digits of a word |
| HexText.DigitsAre | gdb_protocol.c:161-171 | the sixteen digits written, and the upper-case ones also read |
| HexText.EightDigits | gdb_protocol.c:161-171 | a word is written byte by byte, the most significant first, two digits each |
| Packets.ChecksumAppend | gdb_protocol.c:132-150 | the checksum of a concatenation is the sum of the checksums |
| Packets.ChecksumIsSum | gdb_protocol.c:132-150 | the checksum is the sum of the bytes modulo 256 |
| Packets.FrameIs | gdb_protocol.c:132-150 | a frame is `$`, the payload, `#` and two digits of that sum |
| Packets.HandlerLetters | gdb_protocol.c:524-547 | the letters that have a handler |
| Packets.RefusedWhen | gdb_protocol.c:554-591 | a packet is refused if and only if its digits are not the checksum of its payload |
| Scanning.ScanPacket | gdb_protocol.c:554-591 | the pattern of scanner.l:67 cuts a packet at the front of the input off whole, whatever follows, for this function |
| Scanning.FramedIsScanned | gdb_protocol.c:554-591 | a frame reaches this function as it is if and only if its payload is free of `$` and `#` |
| Scanning.FramedIsAccepted | gdb_protocol.c:132-150 | such a framed payload is accepted and reaches its handler intact |
| Scanning.OneByteChanged | gdb_protocol.c:554-591 | one payload byte changed: no packet of the text is accepted for an ordinary byte; for a `$` one is if and only if the bytes up to it sum to 0, for a `#` if and only if the next two bytes are the checksum of those before |
| Scanning.CutPacketRuns | gdb_protocol.c:554-591 | an input that shows it: `g?67` with `?` changed to `#` runs the handler of `g` |
| Packets.ExchangeUnnoticed | gdb_protocol.c:554-591 | exchanging two payload bytes is never noticed |
| Packets.Link.SendBuffer | gdb_protocol.c:132-150 | the buffer becomes the frame of the NUL-terminated payload it held |
| Packets.Link.SendData | gdb_protocol.c:152-157 | the buffer becomes the frame of the text |
| Packets.PacketAnalysis | gdb_protocol.c:554-591 | computes the verdict on the packet, and overwrites its `#` if and only if the checksum is right |
| GdbMemory.FlipIsXor | gdb_protocol.c:419-450 | exclusive or with 0x20 toggles bit 5 |
| GdbMemory.UnescapeInverts | gdb_protocol.c:419-450 | every escaping of a byte string is undone |
| GdbMemory.EscapedIsBytes | gdb_protocol.c:419-450 | unescaping while storing is unescaping first |
| GdbMemory.WriteMemoryBinary | gdb_protocol.c:419-450 | stores the bytes it unescapes one by one until one is outside, and answers accordingly; only running past the buffer is excluded |
| GdbMemory.WrittenWhere | gdb_protocol.c:419-450 | inside memory exactly the range changes; past the end the rest is dropped and reported |
| GdbMemory.ReadMemory | gdb_protocol.c:300-322 | frames the hexadecimal text of the range, or the error |
| GdbMemory.ReadTextIs | gdb_protocol.c:300-322 | a read past the end gives the text of the bytes inside |
| GdbMemory.HexAllAt | gdb_protocol.c:300-322 | the text has two digits for each byte, in order |
| GdbMemory.RepliesWhen | gdb_protocol.c:300-322 | when the replies are OK, E02 and E0E |
| GdbMemory.WriteThenRead | gdb_protocol.c:300-322 | binary write of any escaping, then read: exactly those bytes change and exactly their text comes back |
| GdbRegisters.ReadGeneralRegisters | gdb_protocol.c:270-298 | frames the dump of the current mode's registers and CPSR |
| GdbRegisters.DumpIs | gdb_protocol.c:270-298 | eight digits for each of R0 to R15 of the current bank, 200 times `x`, eight digits of CPSR |
| GdbRegisters.WriteGeneralRegisters | gdb_protocol.c:375-407 | writes the sixteen registers in the old mode, then CPSR |
| GdbRegisters.DumpReadable | gdb_protocol.c:270-298 | every field of a dump reads back as the register it shows |
| GdbRegisters.WrittenCells | gdb_protocol.c:375-407 | the writes change exactly the sixteen cells the mode sees |
| GdbRegisters.DumpThenLoad | gdb_protocol.c:375-407 | loading the machine's own dump leaves its state unchanged, in every mode |
| GdbRegisters.LoadThenDump | gdb_protocol.c:375-407 | a dump after a load shows the written field where the old and new bank share the register, else the new bank's own register |
| GdbRun.Cont | gdb_protocol.c:213-234 | if it returns after n steps then n >= 1, state n is at a breakpoint or raised something, and no earlier state from 1 on is or did; the stop reason is framed |
| GdbRun.StopReasons | gdb_protocol.c:177-198 | S04, S0A, S0B, X05 or S05, by exception |
| GdbRun.RunSplits | gdb_protocol.c:213-234 | continuing from the n-th state goes through the rest of the same run |
| GdbRun.StopsNoLater | gdb_protocol.c:213-234 | with more breakpoints a run stops no later, and continuing with the fewer ones stops where the run would have |

## Left out

- Sockets, threads, option parsing, tracing and debug output; of the lock only atomicity is kept.
- Characters and numbers written by the SWI calls 1 to 3 once their text is known, and how call 4 scans its number (a parameter).
- The scanner's acknowledgements and requests for retransmission: `Scanning.Scan` keeps the packets it hands on.
- The headers `address,size:` of the memory and breakpoint commands, scanned from text by `sscanf`: address and size are parameters.
- The handlers `p`, `P`, `q`, `H`, `?`, `C`, `S` and `k`: decimal parsing of a hexadecimal field, or fixed replies.
- Coprocessor, media and MSR instructions beyond their result UNDEFINED_INSTRUCTION.
- Exceptions with codes other than RESET, INTERRUPT and SOFTWARE_INTERRUPT, which only return their code; the interrupt socket may deliver any byte, and runs here deliver INTERRUPT.
- Creation with a NULL memory, destruction, and failing allocations.
- The meaning of the C flag for CS, CC, HI and LS after a comparison, and of V after ADC, SBC, RSC and RSB: the code does not provide them; the flags are modelled as coded.
- Showcase programs and name tables.
- Memories larger than 2^32 bytes, which no address reaches.
- RegisterFile.Registers.Read: the null pointer of a missing SPSR is excluded by a precondition, as dereferencing it is undefined in C.
- RegisterFile.PointInto: the FIQ cells of R13 and R14 are kept inside their block, where the C pointer is one past it.
- GdbRun.Cont: the C loop may run for ever; here each step takes one element of a finite sequence of inputs, and the method reports when they are used up.
- GdbMemory.ReadMemory: the reply must fit the packet buffer, which the C code does not check.
- GdbMemory.WrittenWhere: the closed form is for memories below 2^32 bytes, where addresses do not wrap; `WriteBytes` itself wraps as the code does.
- GdbRegisters.WriteGeneralRegisters: the text must hold hexadecimal digits in the fields read; C leaves the variable unchanged otherwise.
- Decoding.DecoderIsArchitectural: the fields the manual fixes as should-be-zero or should-be-one are not looked at.
- UserRegisters.UserStoreIsArchitectural: blocks at word boundaries only; elsewhere the code also stores at other bytes than the manual.
- ExceptionReturn.ReturnIsArchitectural: with the base in the list the manual leaves the written-back result open, so nothing is compared.
