/**
 registers.c: eighteen registers seen through per-mode pointers into shared cells.

 `Cell` says which of the 37 physical cells a register names in a bank.  The class builds
 the pointer tables with the loops of the C code, and keeps a cell in memory byte-reversed
 when the host is little-endian, as the C code does for every register except CPSR.
 */
module RegisterFile {
  import opened Words
  import opened MemoryUnit

  type Reg = r: int | 0 <= r < 18
  type Mode = m: int | 0 <= m < 64
  type Bank = b: int | 0 <= b < 7
  type Cells = c: seq<Word> | |c| == 37 witness seq(37, _ => 0)

  const SP: Reg := 13
  const LR: Reg := 14
  const PC: Reg := 15
  const CPSR: Reg := 16
  const SPSR: Reg := 17

  const USR: Mode := 0x10
  const FIQ: Mode := 0x11
  const IRQ: Mode := 0x12
  const SVC: Mode := 0x13
  const ABT: Mode := 0x17
  const UND: Mode := 0x1b
  const SYS: Mode := 0x1f

  const BANK_USR: Bank := 0
  const BANK_SYS: Bank := 1
  const BANK_SVC: Bank := 2
  const BANK_ABT: Bank := 3
  const BANK_UND: Bank := 4
  const BANK_IRQ: Bank := 5
  const BANK_FIQ: Bank := 6

  /** `get_read_write_mode`: every value that is not a mode falls back to bank 0. */
  function BankOf(mode: Mode): Bank {
    if mode == SYS then BANK_SYS
    else if mode == SVC then BANK_SVC
    else if mode == ABT then BANK_ABT
    else if mode == UND then BANK_UND
    else if mode == IRQ then BANK_IRQ
    else if mode == FIQ then BANK_FIQ
    else BANK_USR
  }

  /**
   The mode field of DDI 0100 has five bits; the code takes six.  The bank is the same if and
   only if the sixth, the T bit, is clear or the mode uses the user registers anyway.
   */
  lemma ModeFieldIsArchitectural(psr: Word)
    ensures BankOf(psr % 64) == BankOf(psr % 32) <==> psr / 32 % 2 == 0 || BankOf(psr % 32) == BANK_USR
  {
    QuotientRemainder(psr, 32);
    QuotientRemainder(psr / 32, 2);
    DivModUnique(psr, 64, psr / 32 / 2, psr / 32 % 2 * 32 + psr % 32);
  }

  /** Only the five exception modes have an SPSR. */
  predicate HasSpsr(b: Bank) {
    b >= BANK_SVC
  }

  /** The physical cell behind a register in a bank; -1 is the null pointer. */
  function Cell(r: Reg, b: Bank): (c: int)
    ensures -1 <= c < 37
    ensures c == -1 <==> r == SPSR && !HasSpsr(b)
  {
    if r < 8 then r
    else if r < 13 then 8 + 2 * (r - 8) + (if b == BANK_FIQ then 1 else 0)
    else if r < 15 then 18 + 6 * (r - 13) + (if HasSpsr(b) then b - 1 else 0)
    else if r == PC then 30
    else if r == CPSR then 31
    else if HasSpsr(b) then 30 + b else -1
  }

  /** Two banks share a register: the table of section A2.3 of DDI 0100. */
  predicate Shared(r: Reg, b: Bank, b': Bank) {
    if r < 8 || r == PC || r == CPSR then true
    else if r < 13 then (b == BANK_FIQ) == (b' == BANK_FIQ)
    else if r < 15 then b == b' || (!HasSpsr(b) && !HasSpsr(b'))
    else HasSpsr(b) && b == b'
  }

  /** The seven modes. */
  predicate IsMode(m: Mode) {
    m in {0x10, 0x11, 0x12, 0x13, 0x17, 0x1b, 0x1f}
  }

  /**
   Which modes share a register, by their numbers: R0 to R7, PC and CPSR, all; R8 to R12, all but
   0x11 (FIQ); R13 and R14, 0x10 (USR) and 0x1f (SYS); the SPSR none, and those two have none.
   Every other value of the mode field counts as USR.
   */
  lemma ModesShare(r: Reg, m: Mode, m': Mode)
    requires IsMode(m) && IsMode(m')
    ensures Shared(r, BankOf(m), BankOf(m')) <==>
            if r < 8 || r == 15 || r == 16 then true
            else if r < 13 then (m == 0x11) == (m' == 0x11)
            else if r < 15 then m == m' || (m in {0x10, 0x1f} && m' in {0x10, 0x1f})
            else m == m' && m !in {0x10, 0x1f}
    ensures HasSpsr(BankOf(m)) <==> m !in {0x10, 0x1f}
    ensures forall n: Mode :: !IsMode(n) ==> BankOf(n) == BankOf(0x10)
  {
  }

  /** Different registers never share a cell, and one register does exactly as tabulated. */
  lemma CellsIdentify(r: Reg, b: Bank, r': Reg, b': Bank)
    requires Cell(r, b) >= 0
    ensures Cell(r, b) == Cell(r', b') <==> r == r' && Shared(r, b, b')
  {
  }

  lemma CpsrCell(b: Bank)
    ensures Cell(CPSR, b) == 31
  {
  }

  /** What is stored for a value on this host. */
  function Stored(bigEndianHost: bool, v: Word): (w: Word)
    ensures bigEndianHost ==> w == v
  {
    if bigEndianHost then v else Reverse(v)
  }

  lemma StoredZero(bigEndianHost: bool)
    ensures Stored(bigEndianHost, 0) == 0
  {
  }

  /** Where the cells of a register start when each register's cells follow the previous one's. */
  function FirstCell(i: int): int {
    if i <= 8 then i
    else if i <= 13 then 2 * i - 8
    else if i <= 15 then 6 * i - 60
    else if i <= 17 then i + 15
    else 37
  }

  /**
   One turn of the loop of registers.c:35-80: the pointers of register i.  The C code gives
   R13 and R14 cells 0 and 2..6 of a block of six; here the six cells are numbered 0..5.
   */
  method PointInto(ptrs: array2<int>, i: Reg, first: int) returns (next: int)
    requires ptrs.Length0 == 18 && ptrs.Length1 == 7 && first == FirstCell(i)
    modifies ptrs
    ensures next == FirstCell(i + 1)
    ensures forall b: Bank :: ptrs[i, b] == Cell(i, b)
    ensures forall r: Reg, b: Bank :: r != i ==> ptrs[r, b] == old(ptrs[r, b])
  {
    if 8 <= i <= 12 {
      for j := 0 to 6
        invariant forall r: Reg, b: Bank :: r != i ==> ptrs[r, b] == old(ptrs[r, b])
        invariant forall b: Bank :: b < j ==> ptrs[i, b] == first
      {
        ptrs[i, j] := first;
      }
      ptrs[i, 6] := first + 1;
      next := first + 2;
    } else if i == 13 || i == 14 {
      for j := 2 to 7
        invariant forall r: Reg, b: Bank :: r != i ==> ptrs[r, b] == old(ptrs[r, b])
        invariant forall b: Bank :: 2 <= b < j ==> ptrs[i, b] == first + b - 1
      {
        ptrs[i, j] := first + j - 1;
      }
      ptrs[i, 0] := first;
      ptrs[i, 1] := first;
      next := first + 6;
    } else if i == 17 {
      ptrs[i, 0] := -1;
      ptrs[i, 1] := -1;
      for j := 2 to 7
        invariant forall r: Reg, b: Bank :: r != i ==> ptrs[r, b] == old(ptrs[r, b])
        invariant forall b: Bank :: b < j ==> ptrs[i, b] == if b < 2 then -1 else first + b - 2
      {
        ptrs[i, j] := first + j - 2;
      }
      next := first + 5;
    } else {
      for j := 0 to 7
        invariant forall r: Reg, b: Bank :: r != i ==> ptrs[r, b] == old(ptrs[r, b])
        invariant forall b: Bank :: b < j ==> ptrs[i, b] == first
      {
        ptrs[i, j] := first;
      }
      next := first + 1;
    }
  }

  class Registers {
    const data: array<Word>
    const ptrs: array2<int>
    const bigEndianHost: bool

    ghost predicate Valid()
      reads this, ptrs
    {
      && data.Length == 37
      && ptrs.Length0 == 18 && ptrs.Length1 == 7
      && forall r: Reg, b: Bank :: ptrs[r, b] == Cell(r, b)
    }

    /** The value a cell stands for. */
    ghost function ValueAt(i: int): Word
      requires 0 <= i < data.Length
      reads data
    {
      if i == 31 then data[i] else Stored(bigEndianHost, data[i])
    }

    ghost function Contents(): (c: Cells)
      requires data.Length == 37
      reads data
      ensures forall i :: 0 <= i < 37 ==> c[i] == ValueAt(i)
    {
      seq(37, i requires 0 <= i < 37 reads data => ValueAt(i))
    }

    /** registers.c:29, `registers_create`; `calloc` leaves every cell 0. */
    constructor (bigEndianHost: bool)
      ensures Valid() && fresh(data) && fresh(ptrs)
      ensures this.bigEndianHost == bigEndianHost
      ensures forall i :: 0 <= i < 37 ==> Contents()[i] == 0
    {
      this.bigEndianHost := bigEndianHost;
      data := new Word[37](_ => 0);
      ptrs := new int[18, 7];
      new;
      hide Cell, Stored, Reverse;
      var first := 0;
      for i := 0 to 18
        invariant first == FirstCell(i)
        invariant forall r: Reg, b: Bank :: r < i ==> ptrs[r, b] == Cell(r, b)
        invariant forall k :: 0 <= k < 37 ==> data[k] == 0
      {
        first := PointInto(ptrs, i, first);
      }
      StoredZero(bigEndianHost);
    }

    /** registers.c:150; a null pointer is the caller's to avoid, as in C. */
    method Read(reg: Reg, mode: Mode) returns (x: Word)
      requires Valid() && reg != CPSR && Cell(reg, BankOf(mode)) >= 0
      ensures x == Contents()[Cell(reg, BankOf(mode))]
    {
      x := data[ptrs[reg, BankOf(mode)]];
      if !bigEndianHost {
        x := Reverse(x);
      }
    }

    /** registers.c:171. */
    method Write(reg: Reg, mode: Mode, value: Word)
      requires Valid() && reg != CPSR && Cell(reg, BankOf(mode)) >= 0
      modifies data
      ensures Contents() == old(Contents())[Cell(reg, BankOf(mode)) := value]
    {
      var x := value;
      if !bigEndianHost {
        x := Reverse(x);
        ReverseTwice(value);
      }
      data[ptrs[reg, BankOf(mode)]] := x;
    }

    method ReadCpsr() returns (x: Word)
      requires Valid()
      ensures x == Contents()[31]
    {
      x := data[31];
    }

    method WriteCpsr(value: Word)
      requires Valid()
      modifies data
      ensures Contents() == old(Contents())[31 := value]
    {
      data[31] := value;
    }

    /** registers.c:130, the low six bits of CPSR. */
    method GetMode() returns (m: Mode)
      requires Valid()
      ensures m == Contents()[31] % 64
    {
      m := data[31] % 64;
    }

    /** registers.c:188: a write to a missing SPSR is dropped. */
    method WriteSpsr(mode: Mode, value: Word)
      requires Valid()
      modifies data
      ensures Contents() == if HasSpsr(BankOf(mode)) then old(Contents())[Cell(SPSR, BankOf(mode)) := value]
                            else old(Contents())
    {
      if HasSpsr(BankOf(mode)) {
        Write(SPSR, mode, value);
      }
    }
  }

  /** What a read sees after a write: the registers are a map over banked names. */
  lemma BankedMap(c: Cells, r: Reg, b: Bank, v: Word, r': Reg, b': Bank)
    requires Cell(r, b) >= 0 && Cell(r', b') >= 0
    ensures c[Cell(r, b) := v][Cell(r', b')] ==
            if r == r' && Shared(r, b, b') then v else c[Cell(r', b')]
  {
    CellsIdentify(r, b, r', b');
  }
}
