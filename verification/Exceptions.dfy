/**
 arm_exception.c: reset, interrupts and software interrupts (section A2.6 of DDI 0100).

 Characters and numbers printed leave the model; a number scanned is `Input.scanned`.
 */
module Exceptions {
  import opened Words
  import opened Bitwise
  import opened MemoryUnit
  import opened RegisterFile
  import opened ArmCore

  type ExceptionCode = e: int | 0 <= e < 256

  const RESET: ExceptionCode := 1
  const INTERRUPT: ExceptionCode := 4
  const SOFTWARE_INTERRUPT: ExceptionCode := 8
  const END_SIMULATION: ExceptionCode := 9

  predicate Masked(psr: Word) {
    psr / 128 % 2 == 1
  }

  /** `set_bits(cpsr, 4, 0, IRQ)`, then clear bit 5 and set bit 7. */
  function IrqPsr(psr: Word): (r: Word)
    ensures r % 64 == IRQ && Masked(r) && r / 256 == psr / 256
  {
    IrqPsrBits(psr / 256, psr / 64 % 2, psr);
    psr / 256 * 256 + 128 + psr / 64 % 2 * 64 + IRQ
  }

  lemma IrqPsrBits(high: int, b6: int, psr: Word)
    requires high == psr / 256 && 0 <= b6 < 2
    ensures var r := high * 256 + 128 + b6 * 64 + IRQ;
            0 <= r < 0x1_0000_0000 && r % 64 == IRQ && r / 128 % 2 == 1 && r / 256 == high
  {
    FromBits(high * 256 + 128 + b6 * 64 + IRQ, high, 1, b6, 0, IRQ);
  }

  lemma ModeAndMaskBits(x: Word)
    ensures Pow2(5) == 32 && Pow2(7) == 128
    ensures Bit(x, 5) == x / 32 % 2 && Bit(x, 7) == x / 128 % 2 && Low(x, 5) == x % 32
  {
  }

  /** `set_bits(cpsr, 4, 0, IRQ)` of util.h replaces the low five bits. */
  lemma SetModeBits(psr: Word)
    ensures Or(And(psr, 0xFFFF_FFE0), IRQ) == psr - psr % 32 + IRQ
  {
    hide AndBits, OrBits, Pow2, Low, Bit;
    ModeAndMaskBits(psr);
    WholeWord(psr);
    AndHighMask(psr, 5, 32);
    OrDisjoint(IRQ, psr / 32, 5);
    OrCommutes(IRQ, psr / 32 * Pow2(5));
    assert psr / 32 * Pow2(5) == psr - psr % 32;
  }

  /** A word from its bits 7 to 5, and what is above and below them. */
  lemma FromBits(x: int, high: int, b7: int, b6: int, b5: int, low: int)
    requires x == high * 256 + b7 * 128 + b6 * 64 + b5 * 32 + low
    requires 0 <= b7 < 2 && 0 <= b6 < 2 && 0 <= b5 < 2 && 0 <= low < 32
    ensures x / 256 == high && x / 128 % 2 == b7 && x / 64 % 2 == b6 && x / 32 % 2 == b5
    ensures x % 32 == low && x % 64 == b5 * 32 + low
  {
    DivModUnique(x, 256, high, b7 * 128 + b6 * 64 + b5 * 32 + low);
    DivModUnique(x, 128, high * 2 + b7, b6 * 64 + b5 * 32 + low);
    DivModUnique(x, 64, high * 4 + b7 * 2 + b6, b5 * 32 + low);
    DivModUnique(x, 32, high * 8 + b7 * 4 + b6 * 2 + b5, low);
    DivModUnique(high * 2 + b7, 2, high, b7);
    DivModUnique(high * 4 + b7 * 2 + b6, 2, high * 2 + b7, b6);
    DivModUnique(high * 8 + b7 * 4 + b6 * 2 + b5, 2, high * 4 + b7 * 2 + b6, b5);
  }

  lemma Bits7To5(x: Word)
    ensures x == x / 256 * 256 + x / 128 % 2 * 128 + x / 64 % 2 * 64 + x / 32 % 2 * 32 + x % 32
  {
    QuotientRemainder(x, 32);
    DivDiv(x, 32, 2); QuotientRemainder(x / 32, 2);
    DivDiv(x, 64, 2); QuotientRemainder(x / 64, 2);
    DivDiv(x, 128, 2); QuotientRemainder(x / 128, 2);
  }

  /** The macros of arm_exception.c:110-112 compute `IrqPsr`. */
  lemma IrqPsrIsBits(psr: Word)
    requires !Masked(psr)
    ensures SetBit(ClrBit(Or(And(psr, 0xFFFF_FFE0), IRQ), 5), 7) == IrqPsr(psr)
  {
    hide SetBit, ClrBit, Or, And, Pow2, Bit, Low;
    SetModeBits(psr);
    Bits7To5(psr);
    var h, b6, b5 := psr / 256, psr / 64 % 2, psr / 32 % 2;
    FromBits(psr, h, 0, b6, b5, psr % 32);
    var x := psr - psr % 32 + IRQ;
    FromBits(x, h, 0, b6, b5, IRQ);
    SetAndClear(x, 5);
    ModeAndMaskBits(x);
    var y := ClrBit(x, 5);
    FromBits(y, h, 0, b6, 0, IRQ);
    SetAndClear(y, 7);
    ModeAndMaskBits(y);
  }

  /** Entry into IRQ mode: note that the vector is 0x14 and that R13 is copied over. */
  function EnterIrq(s: State): State {
    var sp, lr := ReadReg(s, SP), ReadReg(s, PC);
    var t := SetSpsr(SetCpsr(s, IrqPsr(Cpsr(s))), Cpsr(s));
    WriteReg(WriteReg(WriteReg(t, PC, 0x14), LR, lr), SP, sp)
  }

  /** The comment field of the SWI; it is read back from memory, or is whatever the variable held. */
  function SwiNumber(s: State, a: Word, input: Input): Word
    requires WordDefined(s.mem, a)
  {
    (if a < |s.mem| then WordAt(s.mem, a, s.be) else input.junk) % 0x100_0000
  }

  /** Text up to its NUL, or more of it than the buffer of `print_string` holds. */
  datatype Text = Text(bytes: Bytes) | Overrun

  function Prefixed(v: Byte, t: Text): Text {
    match t
    case Overrun => Overrun
    case Text(bytes) => Text([v] + bytes)
  }

  const BUFFER_SIZE: nat := 100

  /**
   The text from an address on, when n places are left in the buffer.  A byte outside memory
   is not read: `before` is what the C variable `value` still holds then.
   */
  function TextAt(m: Bytes, a: Word, before: Byte, n: nat): Text
    decreases n
  {
    if n == 0 then Overrun
    else
      var v := if a < |m| then m[a] else before;
      if v == 0 then Text([]) else Prefixed(v, TextAt(m, Add(a, 1), v, n - 1))
  }

  /** A text that ends in time is the bytes before its first NUL. */
  lemma {:induction false} TextIs(m: Bytes, a: Word, before: Byte, n: nat, k: nat)
    requires k < n && a + k < |m| <= 0x1_0000_0000 && m[a + k] == 0
    requires forall j :: a <= j < a + k ==> m[j] != 0
    ensures TextAt(m, a, before, n) == Text(m[a..a + k])
    decreases n
  {
    if k > 0 {
      assert Add(a, 1) == a + 1;
      FirstByte(m, a, a + k);
      TextIs(m, a + 1, m[a], n - 1, k - 1);
    }
    hide Add;
  }

  lemma FirstByte(m: Bytes, i: int, j: int)
    requires 0 <= i < j <= |m|
    ensures m[i..j] == [m[i]] + m[i + 1..j]
  {
  }

  /** The byte the loop finds in turn j: one outside memory leaves what the turn before found. */
  function Found(m: Bytes, a: Word, before: Byte, j: nat): Byte {
    if Add(a, j) < |m| then m[Add(a, j)] else if j == 0 then before else Found(m, a, before, j - 1)
  }

  /** A text is too much for the buffer if and only if none of the first n bytes found is a NUL. */
  lemma {:induction false} TextOverruns(m: Bytes, a: Word, before: Byte, n: nat)
    ensures TextAt(m, a, before, n) == Overrun <==> forall j: nat :: j < n ==> Found(m, a, before, j) != 0
    decreases n
  {
    hide Add;
    FirstFound(m, a, before);
    if n > 0 {
      var v := Found(m, a, before, 0);
      TextOverruns(m, Add(a, 1), v, n - 1);
      if TextAt(m, a, before, n) == Overrun {
        forall j: nat | j < n ensures Found(m, a, before, j) != 0 {
          if j > 0 { LaterFound(m, a, before, j - 1); }
        }
      } else if v != 0 {
        var j: nat :| j < n - 1 && Found(m, Add(a, 1), v, j) == 0;
        LaterFound(m, a, before, j);
      }
    }
  }

  lemma FirstFound(m: Bytes, a: Word, before: Byte)
    ensures Found(m, a, before, 0) == if a < |m| then m[a] else before
  {
  }

  lemma {:induction false} LaterFound(m: Bytes, a: Word, before: Byte, j: nat)
    ensures Found(m, Add(a, 1), Found(m, a, before, 0), j) == Found(m, a, before, j + 1)
  {
    AddAdd(a, 1, j);
    hide Add;
    if j > 0 { LaterFound(m, a, before, j - 1); }
  }

  /** What SWI 3 prints. */
  function Printed(s: State, input: Input): Text {
    TextAt(s.mem, ReadReg(s, 0), input.junk % 0x100, BUFFER_SIZE)
  }

  function SoftwareInterrupt(s: State, input: Input): Outcome {
    var a := Sub(ReadReg(s, PC), 8);
    if !WordDefined(s.mem, a) then Undefined
    else
      var n := SwiNumber(s, a, input);
      if n == 0x123456 then Done(s, END_SIMULATION)
      else if n == 3 && Printed(s, input).Overrun? then Undefined
      else if 1 <= n <= 3 then Done(s, 0)
      else if n == 4 then Done(WriteReg(s, 0, input.scanned), 0)
      else Done(s, SOFTWARE_INTERRUPT)
  }

  function Reset(s: State): State {
    WriteReg(SetCpsr(s, 0x153), PC, 0)
  }

  lemma ResetPsr()
    ensures !Masked(0x153)
  {
  }

  /** `arm_exception`; the codes other than these three only come back. */
  function Exception(s: State, e: ExceptionCode, input: Input): Outcome {
    if e == SOFTWARE_INTERRUPT then SoftwareInterrupt(s, input)
    else if e == INTERRUPT then if Masked(Cpsr(s)) then Done(s, 1) else Done(EnterIrq(s), INTERRUPT)
    else if e == RESET then Done(Reset(s), RESET)
    else Done(s, e)
  }

  function Prepended(before: Bytes, t: Text): Text {
    match t
    case Overrun => Overrun
    case Text(bytes) => Text(before + bytes)
  }

  /** One turn of the loop: the text ends, or goes on after one byte more. */
  lemma NextByte(before: Bytes, m: Bytes, a: Word, held: Byte, n: nat)
    requires n > 0
    ensures var v := if a < |m| then m[a] else held;
            Prepended(before, TextAt(m, a, held, n)) ==
            if v == 0 then Text(before) else Prepended(before + [v], TextAt(m, Add(a, 1), v, n - 1))
  {
    hide Add;
    var v := if a < |m| then m[a] else held;
    match TextAt(m, Add(a, 1), v, n - 1)
    case Overrun =>
    case Text(bytes) => assert before + ([v] + bytes) == before + [v] + bytes;
  }

  /** `print_string`: the text it hands to `printf`. */
  method PrintString(p: Core, input: Input) returns (text: Bytes)
    requires p.Valid() && Printed(p.View(), input).Text?
    ensures Printed(p.View(), input) == Text(text)
  {
    hide Add, TextAt;
    ghost var m, whole := p.View().mem, Printed(p.View(), input);
    var address := p.ReadRegister(0);
    var value: Byte := input.junk % 0x100;
    var c := new Byte[BUFFER_SIZE](_ => 0);
    var i, more := 0, true;
    assert c[..0] == [] && Prepended([], whole) == whole;
    while more
      invariant p.View().mem == m && i <= BUFFER_SIZE
      invariant more ==> whole == Prepended(c[..i], TextAt(m, address, value, BUFFER_SIZE - i))
      invariant !more ==> i > 0 && whole == Text(c[..i - 1])
      decreases BUFFER_SIZE - i, more
    {
      assert i < BUFFER_SIZE by { NothingLeft(m, address, value); }
      NextByte(c[..i], m, address, value, BUFFER_SIZE - i);
      var err, read := p.ReadByte(address);
      if err == OK { value := read; }
      ghost var before := c[..i];
      c[i] := value;
      i := i + 1;
      assert c[..i - 1] == before && c[..i] == before + [value];
      address := Add(address, 1);
      more := value != 0;
    }
    text := c[..i - 1];
  }

  lemma NothingLeft(m: Bytes, a: Word, held: Byte)
    ensures TextAt(m, a, held, 0) == Overrun
  {
  }

  /** The exceptions by number; an unmasked interrupt is `EnterIrq`, of which `EntryState` says all. */
  lemma ExceptionEffect(s: State, e: ExceptionCode, input: Input)
    ensures e == 1 ==> Exception(s, e, input) == Done(s.(cells := s.cells[31 := 0x153][30 := 0]), 1)
    ensures e == 4 ==> Exception(s, e, input) == if Masked(s.cells[31]) then Done(s, 1) else Done(EnterIrq(s), 4)
    ensures e != 1 && e != 4 && e != 8 ==> Exception(s, e, input) == Done(s, e)
    ensures Masked(s.cells[31]) <==> Bit(s.cells[31], 7) == 1
  {
    hide EnterIrq, SoftwareInterrupt;
    ModeAndMaskBits(s.cells[31]);
    assert Cell(PC, CurrentBank(SetCpsr(s, 0x153))) == 30;
    hide Cell, BankOf, Bit, Pow2, Low;
  }

  /** Section A2.6.2 sets I; the code leaves it clear, and an interrupt right after a reset is taken. */
  lemma ResetUnmasked(s: State, input: Input)
    ensures !Masked(Cpsr(Reset(s))) && Exception(Reset(s), INTERRUPT, input) == Done(EnterIrq(Reset(s)), INTERRUPT)
  {
    hide EnterIrq;
    var t := SetCpsr(s, 0x153);
    assert Cell(PC, CurrentBank(t)) == 30;
    ResetPsr();
  }

  method Perform(p: Core, e: ExceptionCode, input: Input) returns (code: int)
    requires p.Valid() && Exception(p.View(), e, input).Done?
    modifies p.reg.data
    ensures Exception(old(p.View()), e, input) == Done(p.View(), code)
  {
    if e == SOFTWARE_INTERRUPT {
      var pc := p.ReadRegister(PC);
      var err, read := p.ReadWord(Sub(pc, 8));
      var n := (if err == OK then read else input.junk) % 0x100_0000;
      if n == 0x123456 { return END_SIMULATION; }
      if n == 1 || n == 2 { return 0; }
      if n == 3 {
        var _ := PrintString(p, input);
        return 0;
      }
      if n == 4 {
        p.WriteRegister(0, input.scanned);
        return 0;
      }
      return e;
    }
    if e == INTERRUPT {
      var cpsr := p.ReadCpsr();
      if Masked(cpsr) { return 1; }
      var sp := p.ReadRegister(SP);
      var lr := p.ReadRegister(PC);
      p.WriteCpsr(IrqPsr(cpsr));
      p.WriteSpsr(cpsr);
      p.WriteRegister(PC, 0x18 - 4);
      p.WriteRegister(LR, lr);
      p.WriteRegister(SP, sp);
      return INTERRUPT;
    }
    if e == RESET {
      p.WriteCpsr(0x153);
      p.WriteRegister(PC, 0);
    }
    return e;
  }
}
