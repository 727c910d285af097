/**
 arm_core.c: the processor, seen as one value (`State`) and as the object that holds it.

 Every later module says what an operation does as a function from states to states, and
 proves that the method performing it on a `Core` has exactly that effect.
 */
module ArmCore {
  import opened Words
  import opened Bitwise
  import opened MemoryUnit
  import opened RegisterFile

  /** R0 to R15, the registers an instruction can name. */
  type GReg = r: int | 0 <= r < 16

  /** `be` is the endianness fixed when the simulator is compiled. */
  datatype State = State(cells: Cells, mem: Bytes, cycles: Word, be: bool)

  /**
   What an operation comes to: a new state and a result code, or nothing, when the C code
   leaves defined behaviour (an access that straddles the end of memory, or the SPSR of a
   mode that has none).
   */
  datatype Outcome = Done(s: State, code: int) | Undefined

  /** What the model takes from outside: a number scanned, and an uninitialised word. */
  datatype Input = Input(scanned: Word, junk: Word)

  /** What a handler returns for an instruction it does not know. */
  const UNDEFINED_INSTRUCTION: int := 7

  /** Further codes of arm_constants.h. */
  const DATA_ABORT: int := 2
  const PREFETCH_ABORT: int := 6

  function Cpsr(s: State): Word {
    s.cells[31]
  }

  function Pc(s: State): Word {
    s.cells[30]
  }

  function ModeOf(s: State): Mode {
    s.cells[31] % 64
  }

  function CurrentBank(s: State): Bank {
    BankOf(s.cells[31] % 64)
  }

  /** `value & 0xFFFFFFFD`. */
  function ClearBit1(x: Word): (y: Word)
    ensures y % 2 == x % 2 && y % 4 < 2
    ensures x % 4 < 2 ==> y == x
  {
    if x % 4 < 2 then x else x - 2
  }

  lemma ClearBit1IsMask(x: Word)
    ensures And(x, 0xFFFF_FFFD) == ClearBit1(x)
  {
    AndHole(x, 1, 32);
    WholeWord(x);
    assert Pow2(1) == 2;
    assert Bit(x, 1) == x / 2 % 2;
    hide AndBits, Low, Pow2, Bit;
  }

  /** A register as an instruction reads it: PC is the instruction's address plus 8. */
  function ReadReg(s: State, r: GReg): Word {
    var v := s.cells[Cell(r, CurrentBank(s))];
    if r == PC then ClearBit1(Add(v, 4)) else v
  }

  function WriteReg(s: State, r: GReg, v: Word): State {
    s.(cells := s.cells[Cell(r, CurrentBank(s)) := v])
  }

  function SetCpsr(s: State, v: Word): State {
    s.(cells := s.cells[31 := v])
  }

  function Spsr(s: State): Word
    requires HasSpsr(CurrentBank(s))
  {
    s.cells[Cell(SPSR, CurrentBank(s))]
  }

  function SetSpsr(s: State, v: Word): State {
    if HasSpsr(CurrentBank(s)) then s.(cells := s.cells[Cell(SPSR, CurrentBank(s)) := v]) else s
  }

  /** The machine after a fetch: PC is past the instruction and one more cycle is counted. */
  function Fetched(s: State): State {
    s.(cells := s.cells[30 := Add(Pc(s), 4)], cycles := Add(s.cycles, 1))
  }

  function StoreWord(s: State, a: Word, v: Word): Outcome {
    if a >= |s.mem| then Done(s, FAILED)
    else if a + 3 >= |s.mem| then Undefined
    else Done(s.(mem := PutWord(s.mem, a, v, s.be)), OK)
  }

  function StoreHalf(s: State, a: Word, v: Half): Outcome {
    if a >= |s.mem| then Done(s, FAILED)
    else if a + 1 >= |s.mem| then Undefined
    else Done(s.(mem := PutHalf(s.mem, a, v, s.be)), OK)
  }

  function StoreByte(s: State, a: Word, v: Byte): Outcome {
    if a >= |s.mem| then Done(s, FAILED) else Done(s.(mem := s.mem[a := v]), OK)
  }

  class Core {
    const reg: Registers
    const mem: Memory
    const be: bool
    var cycleCount: Word

    ghost predicate Valid()
      reads reg, reg.ptrs
    {
      && reg.Valid()
      && (reg.data as object) != mem.data
      && mem.data.Length <= 0x1_0000_0000
    }

    ghost function View(): State
      requires reg.data.Length == 37
      reads this, reg.data, mem.data
    {
      State(reg.Contents(), mem.Contents(), cycleCount, be)
    }

    /**
     arm_core.c:51, `arm_create`: the core starts in the state RESET leaves, with the stack
     pointer of that mode at the end of memory.
     */
    constructor (reg: Registers, mem: Memory, be: bool)
      requires reg.Valid() && (reg.data as object) != mem.data && mem.data.Length <= 0x1_0000_0000
      modifies reg.data
      ensures Valid() && this.reg == reg && this.mem == mem && this.be == be
      ensures View() == State(old(reg.Contents())[31 := 0x153][30 := 0][Cell(SP, BANK_SVC) := Wrap(mem.data.Length)],
                              old(mem.Contents()), 0, be)
    {
      this.reg, this.mem, this.be, this.cycleCount := reg, mem, be, 0;
      new;
      reg.WriteCpsr(0x153);
      reg.Write(PC, SVC, 0);
      reg.Write(SP, SVC, Wrap(mem.data.Length));
    }

    method CurrentModeHasSpsr() returns (b: bool)
      requires Valid()
      ensures b == HasSpsr(CurrentBank(View()))
    {
      var m := reg.GetMode();
      b := HasSpsr(BankOf(m));
    }

    method ReadRegister(r: GReg) returns (v: Word)
      requires Valid()
      ensures v == ReadReg(View(), r)
    {
      var m := reg.GetMode();
      v := reg.Read(r, m);
      if r == PC {
        v := Add(v, 4);
        ClearBit1IsMask(v);
        v := And(v, 0xFFFF_FFFD);
      }
    }

    method WriteRegister(r: GReg, v: Word)
      requires Valid()
      modifies reg.data
      ensures View() == WriteReg(old(View()), r, v)
    {
      var m := reg.GetMode();
      reg.Write(r, m, v);
    }

    method ReadCpsr() returns (v: Word)
      requires Valid()
      ensures v == Cpsr(View())
    {
      v := reg.ReadCpsr();
    }

    method WriteCpsr(v: Word)
      requires Valid()
      modifies reg.data
      ensures View() == SetCpsr(old(View()), v)
    {
      reg.WriteCpsr(v);
    }

    method ReadSpsr() returns (v: Word)
      requires Valid() && HasSpsr(CurrentBank(View()))
      ensures v == Spsr(View())
    {
      var m := reg.GetMode();
      v := reg.Read(SPSR, m);
    }

    method WriteSpsr(v: Word)
      requires Valid()
      modifies reg.data
      ensures View() == SetSpsr(old(View()), v)
    {
      var m := reg.GetMode();
      reg.WriteSpsr(m, v);
    }

    method ReadByte(a: Word) returns (err: int, v: Byte)
      requires Valid()
      ensures err == if a < |View().mem| then OK else FAILED
      ensures err == OK ==> v == View().mem[a]
    {
      err, v := mem.ReadByte(a);
    }

    method ReadHalf(a: Word) returns (err: int, v: Half)
      requires Valid() && HalfDefined(View().mem, a)
      ensures err == if a < |View().mem| then OK else FAILED
      ensures err == OK ==> v == HalfAt(View().mem, a, be)
    {
      err, v := mem.ReadHalf(a, be);
    }

    method ReadWord(a: Word) returns (err: int, v: Word)
      requires Valid() && WordDefined(View().mem, a)
      ensures err == if a < |View().mem| then OK else FAILED
      ensures err == OK ==> v == WordAt(View().mem, a, be)
    {
      err, v := mem.ReadWord(a, be);
    }

    /** arm_core.c:188: the program counter moves on even when the read fails. */
    method Fetch() returns (err: int, v: Word)
      requires Valid() && WordDefined(View().mem, Pc(View()))
      modifies reg.data, this
      ensures View() == Fetched(old(View()))
      ensures err == if Pc(old(View())) < |old(View()).mem| then OK else FAILED
      ensures err == OK ==> v == WordAt(old(View()).mem, Pc(old(View())), be)
    {
      var m := reg.GetMode();
      var address := reg.Read(PC, m);
      reg.Write(PC, m, Add(address, 4));
      err, v := mem.ReadWord(address, be);
      cycleCount := Add(cycleCount, 1);
    }

    method WriteByte(a: Word, v: Byte) returns (err: int)
      requires Valid()
      modifies mem.data
      ensures StoreByte(old(View()), a, v) == Done(View(), err)
    {
      err := mem.WriteByte(a, v);
      assert reg.Contents() == old(reg.Contents());
    }

    method WriteHalf(a: Word, v: Half) returns (err: int)
      requires Valid() && StoreHalf(View(), a, v).Done?
      modifies mem.data
      ensures StoreHalf(old(View()), a, v) == Done(View(), err)
    {
      err := mem.WriteHalf(a, v, be);
      assert reg.Contents() == old(reg.Contents());
    }

    method WriteWord(a: Word, v: Word) returns (err: int)
      requires Valid() && StoreWord(View(), a, v).Done?
      modifies mem.data
      ensures StoreWord(old(View()), a, v) == Done(View(), err)
    {
      err := mem.WriteWord(a, v, be);
      assert reg.Contents() == old(reg.Contents());
    }
  }
}
