/**
 arm_load_store.c:52-362: load and store of a word or a byte, with an immediate or a scaled
 register offset, in the offset, pre-indexed and post-indexed forms (section A5.2 of DDI 0100).
 */
module SingleTransfer {
  import opened Words
  import opened MemoryUnit
  import opened RegisterFile
  import opened ArmCore
  import opened Encoding
  import opened Shifter

  /** `u_bit_handle`: the offset is added or subtracted. */
  function Indexed(u: bool, base: Word, offset: Word): Word {
    if u then Add(base, offset) else Sub(base, offset)
  }

  /** `b_bit_handle`: one access; a failed one changes nothing. */
  function Access(s: State, load: bool, byte: bool, a: Word, rd: GReg): Outcome {
    if !load && byte then StoreByte(s, a, ReadReg(s, rd) % 0x100)
    else if !load then StoreWord(s, a, ReadReg(s, rd))
    else if a >= |s.mem| then Done(s, FAILED)
    else if byte then Done(WriteReg(s, rd, s.mem[a]), OK)
    else if a + 3 >= |s.mem| then Undefined
    else Done(WriteReg(s, rd, WordAt(s.mem, a, s.be)), OK)
  }

  /** The L, P, U, B and W bits and the two registers of the instruction. */
  datatype Form = Form(load: bool, pre: bool, up: bool, byte: bool, writeback: bool, rn: GReg, rd: GReg)

  function FormOf(ins: Word): Form {
    Form(Bit20(ins), Bit24(ins), Bit23(ins), Bit22(ins), Bit21(ins), RnOf(ins), RdOf(ins))
  }

  function Transfer(s: State, f: Form, offset: Word): Outcome {
    if !f.pre && f.writeback then Done(s, UNDEFINED_INSTRUCTION)
    else
      var base := ReadReg(s, f.rn);
      var moved := Indexed(f.up, base, offset);
      match Access(s, f.load, f.byte, if f.pre then moved else base, f.rd)
      case Undefined => Undefined
      case Done(t, e) =>
        if e != OK || (f.pre && !f.writeback) then Done(t, e) else Done(WriteReg(t, f.rn, moved), OK)
  }

  /**
   The scaled register offset.  LSR #0 and ASR #0 mean an amount of 32; ROR #0 takes the
   register's number, not its value, for the low bits.
   */
  function ScaledOffset(s: State, ins: Word): Word {
    var t, imm := ShiftTypeOf(ins), ShiftImmOf(ins);
    if t == ROR && imm == 0 then FlagC(Cpsr(s)) * 0x8000_0000 + RmOf(ins) / 2
    else BarrelShift(t, ReadReg(s, RmOf(ins)), if imm == 0 && t != LSL then 32 else imm, 0).operand
  }

  function LoadStoreImmediate(s: State, ins: Word): Outcome {
    Transfer(s, FormOf(ins), ins % 0x1000)
  }

  function LoadStoreRegister(s: State, ins: Word): Outcome {
    Transfer(s, FormOf(ins), ScaledOffset(s, ins))
  }

  // ---------------------------------------------------------------- the C functions

  /** `b_bit_handle`, arm_load_store.c:64. */
  method BBitHandle(p: Core, load: bool, byte: bool, a: Word, rd: GReg) returns (err: int)
    requires p.Valid() && Access(p.View(), load, byte, a, rd).Done?
    modifies p.reg.data, p.mem.data
    ensures Access(old(p.View()), load, byte, a, rd) == Done(p.View(), err)
  {
    if load {
      if byte {
        var v: Byte;
        err, v := p.ReadByte(a);
        if err != OK { return err; }
        p.WriteRegister(rd, v);
      } else {
        var v: Word;
        err, v := p.ReadWord(a);
        if err != OK { return err; }
        p.WriteRegister(rd, v);
      }
    } else {
      var v := p.ReadRegister(rd);
      if byte {
        err := p.WriteByte(a, v % 0x100);
      } else {
        err := p.WriteWord(a, v);
      }
    }
  }

  /** `arm_load_immediate_offset` and its store twin: the address after the access. */
  method OffsetAccess(p: Core, f: Form, base: Word, offset: Word) returns (err: int, addr: Word)
    requires p.Valid() && Access(p.View(), f.load, f.byte, Indexed(f.up, base, offset), f.rd).Done?
    modifies p.reg.data, p.mem.data
    ensures addr == Indexed(f.up, base, offset)
    ensures Access(old(p.View()), f.load, f.byte, addr, f.rd) == Done(p.View(), err)
  {
    addr := if f.up then Add(base, offset) else Sub(base, offset);
    err := BBitHandle(p, f.load, f.byte, addr, f.rd);
  }

  /** The dispatch on L, P and W shared by arm_load_store.c:193-252 and 321-359. */
  method Dispatch(p: Core, f: Form, offset: Word) returns (err: int)
    requires p.Valid() && Transfer(p.View(), f, offset).Done?
    modifies p.reg.data, p.mem.data
    ensures Transfer(old(p.View()), f, offset) == Done(p.View(), err)
  {
    var base := p.ReadRegister(f.rn);
    if f.pre {
      var addr;
      err, addr := OffsetAccess(p, f, base, offset);
      if f.writeback && err == OK {
        p.WriteRegister(f.rn, addr);
      }
    } else if f.writeback {
      err := UNDEFINED_INSTRUCTION;
    } else {
      err := BBitHandle(p, f.load, f.byte, base, f.rd);
      if err == OK {
        p.WriteRegister(f.rn, if f.up then Add(base, offset) else Sub(base, offset));
      }
    }
  }

  /** `arm_load_store_immediate_offset`. */
  method PerformImmediate(p: Core, ins: Word) returns (err: int)
    requires p.Valid() && LoadStoreImmediate(p.View(), ins).Done?
    modifies p.reg.data, p.mem.data
    ensures LoadStoreImmediate(old(p.View()), ins) == Done(p.View(), err)
  {
    err := Dispatch(p, FormOf(ins), ins % 0x1000);
  }

  /** The scaled offset, in the operators the C code uses. */
  lemma ScaledByZero(s: State, ins: Word)
    requires ShiftImmOf(ins) == 0
    ensures var t, v := ShiftTypeOf(ins), ReadReg(s, RmOf(ins));
            ScaledOffset(s, ins) ==
            if t == LSL then v
            else if t == LSR then 0
            else if t == ASR then if Bit(v, 31) == 1 then 0xFFFF_FFFF else 0
            else FlagC(Cpsr(s)) * 0x8000_0000 + RmOf(ins) / 2
  {
    var v := ReadReg(s, RmOf(ins));
    ZeroShift(v, LSL);
    LsrCases(v, 32, 0);
    AsrCases(v, 32, 0);
    hide BarrelShift, Shl, Shr, Asr, Bit, ShiftTypeOf, ShiftImmOf, ReadReg;
  }

  lemma ScaledByPositive(s: State, ins: Word)
    requires ShiftImmOf(ins) > 0
    ensures var t, imm, v := ShiftTypeOf(ins), ShiftImmOf(ins), ReadReg(s, RmOf(ins));
            ScaledOffset(s, ins) ==
            if t == LSL then Shl(v, imm)
            else if t == LSR then Shr(v, imm)
            else if t == ASR then Asr(v, imm)
            else Ror(v, imm)
  {
    var t, imm, v := ShiftTypeOf(ins), ShiftImmOf(ins), ReadReg(s, RmOf(ins));
    hide BarrelShift, Shl, Shr, Asr, Ror, Bit, ShiftTypeOf, ShiftImmOf, ReadReg;
    if t == LSL {
      LslCases(v, imm, 0);
    } else if t == LSR {
      LsrCases(v, imm, 0);
    } else if t == ASR {
      AsrCases(v, imm, 0);
    } else {
      RorCases(v, imm, 0);
    }
  }

  /**
   The scaled offset is that of section A5.2 exactly when it is not a ROR #0, or the number
   and the value of its register agree but for the bit shifted out.
   */
  lemma ScaledIsArchitectural(s: State, ins: Word)
    ensures var t, imm, v := ShiftTypeOf(ins), ShiftImmOf(ins), ReadReg(s, RmOf(ins));
            ScaledOffset(s, ins) == Architectural(t, imm, v, FlagC(Cpsr(s))).operand <==>
            !(t == ROR && imm == 0) || RmOf(ins) / 2 == v / 2
  {
    hide ReadReg, FlagC, ShiftTypeOf, ShiftImmOf;
    CarryIgnored(ShiftTypeOf(ins), ReadReg(s, RmOf(ins)), if ShiftImmOf(ins) == 0 && ShiftTypeOf(ins) != LSL then 32 else ShiftImmOf(ins),
                 FlagC(Cpsr(s)));
    hide BarrelShift;
  }

  lemma CarryIgnored(t: ShiftType, v: Word, amount: nat, c: Flag)
    ensures BarrelShift(t, v, amount, 0).operand == BarrelShift(t, v, amount, c).operand
  {
  }

  lemma ZeroShift(v: Word, t: ShiftType)
    ensures BarrelShift(t, v, 0, 0).operand == v
    ensures Bit(v, 31) < 2
  {
  }

  /** The scaling of arm_load_store.c:270-319. */
  method Scale(p: Core, ins: Word) returns (offset: Word)
    requires p.Valid()
    ensures offset == ScaledOffset(p.View(), ins)
  {
    if ShiftImmOf(ins) == 0 { ScaledByZero(p.View(), ins); } else { ScaledByPositive(p.View(), ins); }
    hide ScaledOffset, ReadReg, Shl, Shr, Asr, Ror, Bit;
    var imm, t := ShiftImmOf(ins), ShiftTypeOf(ins);
    var rm := RmOf(ins);
    var v := p.ReadRegister(rm);
    if t == LSL {
      offset := if imm == 0 then v else Shl(v, imm);
    } else if t == LSR {
      offset := if imm == 0 then 0 else Shr(v, imm);
    } else if t == ASR {
      if imm == 0 {
        offset := if Bit(v, 31) == 1 then 0xFFFF_FFFF else 0;
      } else {
        offset := Asr(v, imm);
      }
    } else {
      if imm == 0 {
        var cpsr := p.ReadCpsr();
        offset := FlagC(cpsr) * 0x8000_0000 + rm / 2;
      } else {
        offset := Ror(v, imm);
      }
    }
  }

  /** `arm_load_store_register_offset`. */
  method PerformRegister(p: Core, ins: Word) returns (err: int)
    requires p.Valid() && LoadStoreRegister(p.View(), ins).Done?
    modifies p.reg.data, p.mem.data
    ensures LoadStoreRegister(old(p.View()), ins) == Done(p.View(), err)
  {
    hide ScaledOffset, Transfer;
    var offset := Scale(p, ins);
    err := Dispatch(p, FormOf(ins), offset);
  }

  // ---------------------------------------------------------------- properties

  /** An access reported as failed changes no register and no memory. */
  lemma FailureChangesNothing(s: State, f: Form, offset: Word)
    requires Transfer(s, f, offset).Done? && Transfer(s, f, offset).code != OK
    ensures Transfer(s, f, offset).s == s
  {
  }

  lemma IndexedBack(u: bool, base: Word, offset: Word)
    ensures Indexed(!u, Indexed(u, base, offset), offset) == base
  {
    AddSub(base, offset);
  }

  /** `ld` walks back what `st` walked: the other indexing, the other direction. */
  predicate Dual(st: Form, ld: Form) {
    && !st.load && ld.load && st.byte == ld.byte && st.rn == ld.rn && st.up != ld.up
    && st.pre != ld.pre && st.writeback == st.pre && ld.writeback == ld.pre
  }

  /** The bytes an access reaches are the same in two memories. */
  predicate SameAccessed(m: Bytes, m': Bytes, byte: bool, a: Word) {
    |m| == |m'| && forall x :: a <= x < a + (if byte then 1 else 4) && x < |m| ==> m[x] == m'[x]
  }

  function AccessedAddress(s: State, f: Form, offset: Word): Word {
    if f.pre then Indexed(f.up, ReadReg(s, f.rn), offset) else ReadReg(s, f.rn)
  }

  /** What a store that moves its base does. */
  lemma Stores(s: State, f: Form, offset: Word)
    requires !f.load && f.writeback == f.pre
    requires Transfer(s, f, offset).Done? && Transfer(s, f, offset).code == OK
    ensures var a, s1 := AccessedAddress(s, f, offset), Transfer(s, f, offset).s;
            && a + (if f.byte then 0 else 3) < |s.mem| == |s1.mem|
            && s1 == WriteReg(s.(mem := s1.mem), f.rn, Indexed(f.up, ReadReg(s, f.rn), offset))
            && (if f.byte then s1.mem[a] == ReadReg(s, f.rd) % 0x100 else WordAt(s1.mem, a, s.be) == ReadReg(s, f.rd))
  {
    hide Indexed, WordAt, ReadReg;
  }

  /** What a load that moves its base does. */
  lemma Loads(t: State, f: Form, offset: Word)
    requires f.load && f.writeback == f.pre && f.rd != f.rn && f.rd != PC && f.rn != PC
    requires AccessedAddress(t, f, offset) + (if f.byte then 0 else 3) < |t.mem|
    ensures var a, o := AccessedAddress(t, f, offset), Transfer(t, f, offset);
            && o.Done? && o.code == OK && o.s.mem == t.mem
            && ReadReg(o.s, f.rn) == Indexed(f.up, ReadReg(t, f.rn), offset)
            && ReadReg(o.s, f.rd) == if f.byte then t.mem[a] else WordAt(t.mem, a, t.be)
  {
    CellsIdentify(f.rd, CurrentBank(t), f.rn, CurrentBank(t));
    hide Indexed, WordAt, Cell, BankOf, ClearBit1;
  }

  /**
   A pre-indexed store is undone by the post-indexed load in the other direction, and a
   post-indexed store by the pre-indexed load: the load finds the stored value and restores
   the base.  In between anything may happen that keeps the bank, the base and those bytes.
   */
  lemma StoreThenLoad(s: State, st: Form, t: State, ld: Form, offset: Word)
    requires Dual(st, ld) && st.rn != PC && st.rd != PC && ld.rd != PC && ld.rd != ld.rn
    requires Transfer(s, st, offset).Done? && Transfer(s, st, offset).code == OK
    requires var s1 := Transfer(s, st, offset).s;
             && SameAccessed(t.mem, s1.mem, st.byte, AccessedAddress(s, st, offset))
             && t.be == s.be && CurrentBank(t) == CurrentBank(s)
             && ReadReg(t, st.rn) == ReadReg(s1, st.rn)
    ensures var o := Transfer(t, ld, offset);
            && o.Done? && o.code == OK
            && ReadReg(o.s, ld.rd) == (if st.byte then ReadReg(s, st.rd) % 0x100 else ReadReg(s, st.rd))
            && ReadReg(o.s, ld.rn) == ReadReg(s, st.rn)
            && o.s.mem == t.mem
  {
    var a := AccessedAddress(s, st, offset);
    var s1 := Transfer(s, st, offset).s;
    Stores(s, st, offset);
    IndexedBack(st.up, ReadReg(s, st.rn), offset);
    assert AccessedAddress(t, ld, offset) == a by { hide Indexed, Transfer; }
    if !st.byte { SameBytes(t.mem, s1.mem, a, s.be); }
    Loads(t, ld, offset);
    hide Transfer, Indexed, WordAt, Cell;
  }

  /** The same law for the two instructions with an unchanged scaled register offset. */
  lemma ScaledStoreThenLoad(s: State, st: Word, t: State, ld: Word)
    requires Dual(FormOf(st), FormOf(ld)) && st % 0x1000 == ld % 0x1000
    requires RnOf(st) != PC && RdOf(st) != PC && RdOf(ld) != PC && RdOf(ld) != RnOf(ld)
    requires LoadStoreRegister(s, st).Done? && LoadStoreRegister(s, st).code == OK
    requires var s1 := LoadStoreRegister(s, st).s;
             && SameAccessed(t.mem, s1.mem, Bit22(st), AccessedAddress(s, FormOf(st), ScaledOffset(s, st)))
             && t.be == s.be && CurrentBank(t) == CurrentBank(s)
             && ReadReg(t, RnOf(st)) == ReadReg(s1, RnOf(st))
             && ReadReg(t, RmOf(st)) == ReadReg(s, RmOf(st)) && FlagC(Cpsr(t)) == FlagC(Cpsr(s))
    ensures var o := LoadStoreRegister(t, ld);
            && o.Done? && o.code == OK
            && ReadReg(o.s, RdOf(ld)) == (if Bit22(st) then ReadReg(s, RdOf(st)) % 0x100 else ReadReg(s, RdOf(st)))
            && ReadReg(o.s, RnOf(ld)) == ReadReg(s, RnOf(st))
            && o.s.mem == t.mem
  {
    SameScaling(st, ld);
    assert ScaledOffset(t, ld) == ScaledOffset(s, st) by { hide BarrelShift, ReadReg; }
    hide ScaledOffset, Transfer, SameAccessed, AccessedAddress, ReadReg;
    StoreThenLoad(s, FormOf(st), t, FormOf(ld), ScaledOffset(s, st));
  }

  lemma SameScaling(i: Word, j: Word)
    requires i % 0x1000 == j % 0x1000
    ensures ShiftTypeOf(i) == ShiftTypeOf(j) && ShiftImmOf(i) == ShiftImmOf(j) && RmOf(i) == RmOf(j)
  {
    FieldsOfLowBits(i);
    FieldsOfLowBits(j);
    hide ShiftTypeOf, ShiftImmOf, RmOf;
  }

  lemma FieldsOfLowBits(i: Word)
    ensures var r := i % 0x1000;
            ShiftTypeOf(i) == r / 0x20 % 4 && ShiftImmOf(i) == r / 0x80 && RmOf(i) == r % 16
  {
    LowField(i, 0x80, 0x20);
    LowField(i, 0x20, 0x80);
    LowField(i, 0x10, 0x100);
    DivModUnique(0x80 * (i / 0x1000) + i % 0x1000 / 0x20, 4, 0x20 * (i / 0x1000) + i % 0x1000 / 0x20 / 4,
                 i % 0x1000 / 0x20 % 4);
    DivModUnique(0x20 * (i / 0x1000) + i % 0x1000 / 0x80, 0x20, i / 0x1000, i % 0x1000 / 0x80);
  }

  lemma LowField(i: Word, d: int, e: int)
    requires d > 0 && d * e == 0x1000
    ensures i / d == e * (i / 0x1000) + i % 0x1000 / d && i % d == i % 0x1000 % d
  {
    var q, r := i / 0x1000, i % 0x1000;
    assert e * q * d == q * 0x1000 by { Associate(q, e, d); }
    Distribute(e * q, r / d, d);
    QuotientRemainder(r, d);
    DivModUnique(i, d, e * q + r / d, r % d);
  }
}
