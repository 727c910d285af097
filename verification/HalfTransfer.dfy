/**
 arm_load_store.c:364-540: half words, double words and signed bytes (section A5.3 of DDI 0100).

 Unlike the word and byte forms, these write the base back before the access, and a failed
 load still writes its destination; `FailureKeeps` says exactly when a failure shows.
 */
module HalfTransfer {
  import opened Words
  import opened MemoryUnit
  import opened RegisterFile
  import opened ArmCore
  import opened Encoding
  import opened SingleTransfer

  /** The L, S and H bits as one number. */
  function KindOf(ins: Word): int {
    (if Bit20(ins) then 4 else 0) + (if Bit6(ins) then 2 else 0) + if Bit5(ins) then 1 else 0
  }

  function ExtraOffset(s: State, ins: Word): Word {
    if Bit22(ins) then RsOf(ins) * 16 + RmOf(ins) else ReadReg(s, RmOf(ins))
  }

  function ExtendByte(b: Byte): Word {
    if b >= 0x80 then 0xFFFF_FF00 + b else b
  }

  function ExtendHalf(h: Half): Word {
    if h >= 0x8000 then 0xFFFF_0000 + h else h
  }

  /** A double word: two words in an even register and the next, at a multiple of eight. */
  predicate DoubleAllowed(rd: GReg, a: Word) {
    rd % 2 == 0 && rd < 14 && a % 8 == 0
  }

  /** A word read, or what the C variable held before when the address is outside. */
  function ReadOr(s: State, a: Word, before: Word): Word
    requires WordDefined(s.mem, a)
  {
    if a < |s.mem| then WordAt(s.mem, a, s.be) else before
  }

  function LoadDouble(s: State, a: Word, rd: GReg): Outcome
    requires DoubleAllowed(rd, a)
  {
    if !WordDefined(s.mem, a) then Undefined
    else
      var low := ReadOr(s, a, 0);
      var t := WriteReg(s, rd, low);
      if a >= |s.mem| then Done(t, FAILED)
      else if !WordDefined(s.mem, Add(a, 4)) then Undefined
      else Done(WriteReg(t, rd + 1, ReadOr(s, Add(a, 4), low)), if Add(a, 4) < |s.mem| then OK else FAILED)
  }

  function StoreDouble(s: State, a: Word, rd: GReg): Outcome
    requires DoubleAllowed(rd, a)
  {
    match StoreWord(s, a, ReadReg(s, rd))
    case Undefined => Undefined
    case Done(t, e) => if e != OK then Done(t, e) else StoreWord(t, Add(a, 4), ReadReg(t, rd + 1))
  }

  function HalfOr0(s: State, a: Word): Half
    requires HalfDefined(s.mem, a)
  {
    if a < |s.mem| then HalfAt(s.mem, a, s.be) else 0
  }

  /** The access itself, once the address is known and the base written back. */
  function ExtraAccess(s: State, kind: int, a: Word, rd: GReg): Outcome {
    var code := if a < |s.mem| then OK else FAILED;
    if kind == 1 then StoreHalf(s, a, ReadReg(s, rd) % 0x1_0000)
    else if kind == 2 then if DoubleAllowed(rd, a) then LoadDouble(s, a, rd) else Done(s, UNDEFINED_INSTRUCTION)
    else if kind == 3 then if DoubleAllowed(rd, a) then StoreDouble(s, a, rd) else Done(s, UNDEFINED_INSTRUCTION)
    else if kind == 6 then Done(WriteReg(s, rd, if a < |s.mem| then ExtendByte(s.mem[a]) else 0), code)
    else if kind == 5 || kind == 7 then
      if !HalfDefined(s.mem, a) then Undefined
      else Done(WriteReg(s, rd, if kind == 5 then HalfOr0(s, a) else ExtendHalf(HalfOr0(s, a))), code)
    else Done(s, OK)
  }

  function LoadStoreExtra(s: State, ins: Word): Outcome {
    var rn := RnOf(ins);
    if !Bit24(ins) && Bit21(ins) then Done(s, UNDEFINED_INSTRUCTION)
    else
      var base := ReadReg(s, rn);
      var moved := Indexed(Bit23(ins), base, ExtraOffset(s, ins));
      var t := if Bit24(ins) && !Bit21(ins) then s else WriteReg(s, rn, moved);
      ExtraAccess(t, KindOf(ins), if Bit24(ins) then moved else base, RdOf(ins))
  }

  // ---------------------------------------------------------------- the C function

  method PerformDoubleLoad(p: Core, a: Word, rd: GReg) returns (err: int)
    requires p.Valid() && DoubleAllowed(rd, a) && LoadDouble(p.View(), a, rd).Done?
    modifies p.reg.data
    ensures LoadDouble(old(p.View()), a, rd) == Done(p.View(), err)
  {
    var value, word := 0, 0;
    err, word := p.ReadWord(a);
    if err == OK { value := word; }
    p.WriteRegister(rd, value);
    if err == OK {
      err, word := p.ReadWord(Add(a, 4));
      if err == OK { value := word; }
      p.WriteRegister(rd + 1, value);
    }
  }

  method PerformDoubleStore(p: Core, a: Word, rd: GReg) returns (err: int)
    requires p.Valid() && DoubleAllowed(rd, a) && StoreDouble(p.View(), a, rd).Done?
    modifies p.mem.data
    ensures StoreDouble(old(p.View()), a, rd) == Done(p.View(), err)
  {
    var v := p.ReadRegister(rd);
    err := p.WriteWord(a, v);
    if err == OK {
      v := p.ReadRegister(rd + 1);
      err := p.WriteWord(Add(a, 4), v);
    }
  }

  /** The switch at arm_load_store.c:473-537. */
  method PerformAccess(p: Core, kind: int, a: Word, rd: GReg) returns (err: int)
    requires p.Valid() && ExtraAccess(p.View(), kind, a, rd).Done?
    modifies p.reg.data, p.mem.data
    ensures ExtraAccess(old(p.View()), kind, a, rd) == Done(p.View(), err)
  {
    err := OK;
    if kind == 1 {
      var v := p.ReadRegister(rd);
      err := p.WriteHalf(a, v % 0x1_0000);
    } else if kind == 2 {
      if rd % 2 == 0 && rd != 14 && a % 8 == 0 {
        err := PerformDoubleLoad(p, a, rd);
      } else {
        err := UNDEFINED_INSTRUCTION;
      }
    } else if kind == 3 {
      if rd % 2 == 0 && rd != 14 && a % 8 == 0 {
        err := PerformDoubleStore(p, a, rd);
      } else {
        err := UNDEFINED_INSTRUCTION;
      }
    } else if kind == 5 || kind == 7 {
      var half := 0;
      var read;
      err, read := p.ReadHalf(a);
      if err == OK { half := read; }
      p.WriteRegister(rd, if kind == 5 then half else ExtendHalf(half));
    } else if kind == 6 {
      var byte := 0;
      var read;
      err, read := p.ReadByte(a);
      if err == OK { byte := read; }
      p.WriteRegister(rd, ExtendByte(byte));
    }
  }

  /** `arm_load_store_miscellaneous`. */
  method Perform(p: Core, ins: Word) returns (err: int)
    requires p.Valid() && LoadStoreExtra(p.View(), ins).Done?
    modifies p.reg.data, p.mem.data
    ensures LoadStoreExtra(old(p.View()), ins) == Done(p.View(), err)
  {
    hide ExtraAccess;
    var pre, up, imm, w := Bit24(ins), Bit23(ins), Bit22(ins), Bit21(ins);
    var rn, rd := RnOf(ins), RdOf(ins);
    if !pre && w { return UNDEFINED_INSTRUCTION; }
    var base := p.ReadRegister(rn);
    var offset;
    if imm {
      offset := RsOf(ins) * 16 + RmOf(ins);
    } else {
      offset := p.ReadRegister(RmOf(ins));
    }
    var address := base;
    var moved := if up then Add(base, offset) else Sub(base, offset);
    if pre {
      address := moved;
      if w { p.WriteRegister(rn, moved); }
    } else {
      p.WriteRegister(rn, moved);
    }
    err := PerformAccess(p, KindOf(ins), address, rd);
  }

  // ---------------------------------------------------------------- properties

  /** Sign extension keeps the signed value, for the byte and the half word. */
  lemma ExtensionKeepsValue(b: Byte, h: Half)
    ensures Signed(ExtendByte(b)) == if b >= 0x80 then b - 0x100 else b
    ensures Signed(ExtendHalf(h)) == if h >= 0x8000 then h - 0x1_0000 else h
  {
  }

  // ------------------------------------------------------------- failures

  /** The base register after an instruction that writes it back. */
  function NewBase(s: State, ins: Word): Word {
    Indexed(Bit23(ins), ReadReg(s, RnOf(ins)), ExtraOffset(s, ins))
  }

  /** The register holds this value already. */
  predicate Has(s: State, r: GReg, v: Word) {
    s.cells[Cell(r, CurrentBank(s))] == v
  }

  predicate BaseKept(s: State, ins: Word) {
    (Bit24(ins) && !Bit21(ins)) || Has(s, RnOf(ins), NewBase(s, ins))
  }

  /**
   A failure leaves no trace: what the instruction has written by then was there before.  A
   failed load has written 0 to its register, or the first word of two to both; a store that
   fails on its second word has written the first.
   */
  predicate LeavesNoTrace(s: State, ins: Word) {
    var kind, rd, rn, a := KindOf(ins), RdOf(ins), RnOf(ins), ExtraAddress(s, ins);
    if !Bit24(ins) && Bit21(ins) then true
    else if kind >= 5 || (kind == 2 && DoubleAllowed(rd, a) && a >= |s.mem|) then
      Has(s, rd, 0) && (BaseKept(s, ins) || rd == rn)
    else if kind == 2 && DoubleAllowed(rd, a) && a + 3 < |s.mem| then
      var low := WordAt(s.mem, a, s.be);
      Has(s, rd, low) && Has(s, rd + 1, low) && (BaseKept(s, ins) || rd == rn || rd + 1 == rn)
    else if kind == 3 && DoubleAllowed(rd, a) && a + 3 < |s.mem| then
      BaseKept(s, ins) && WordAt(s.mem, a, s.be) == ReadReg(s, rd)
    else BaseKept(s, ins)
  }

  /** One register written, two, and three. */
  lemma OneWrite(s: State, r: GReg, v: Word)
    ensures WriteReg(s, r, v) == s <==> Has(s, r, v)
    ensures CurrentBank(WriteReg(s, r, v)) == CurrentBank(s)
  {
    CellsIdentify(r, CurrentBank(s), CPSR, CurrentBank(s));
    assert WriteReg(s, r, v).cells[Cell(r, CurrentBank(s))] == v;
    assert WriteReg(s, r, v).cells[31] == s.cells[31];
    hide BankOf, Cell;
    if Has(s, r, v) { assert WriteReg(s, r, v).cells == s.cells; }
  }

  lemma TwoWrites(s: State, r: GReg, v: Word, r': GReg, v': Word)
    ensures WriteReg(WriteReg(s, r, v), r', v') == s <==> Has(s, r', v') && (r == r' || Has(s, r, v))
  {
    OneWrite(s, r, v);
    OneWrite(s, r', v');
    SameBankCells(s, r, r');
    var t := WriteReg(WriteReg(s, r, v), r', v');
    hide BankOf, Cell;
    var b := CurrentBank(s);
    assert t.cells == s.cells[Cell(r, b) := v][Cell(r', b) := v'];
    assert t.cells[Cell(r', b)] == v' && (r != r' ==> t.cells[Cell(r, b)] == v);
    if Has(s, r', v') && (r == r' || Has(s, r, v)) { assert t.cells == s.cells; }
  }

  lemma SameBankCells(s: State, r: GReg, r': GReg)
    ensures Cell(r, CurrentBank(s)) == Cell(r', CurrentBank(s)) <==> r == r'
  {
    CellsIdentify(r, CurrentBank(s), r', CurrentBank(s));
  }

  lemma ThreeWrites(s: State, r: GReg, v: Word, r1: GReg, v1: Word, r2: GReg, v2: Word)
    requires r1 != r2
    ensures WriteReg(WriteReg(WriteReg(s, r, v), r1, v1), r2, v2) == s <==>
            Has(s, r1, v1) && Has(s, r2, v2) && (r == r1 || r == r2 || Has(s, r, v))
  {
    OneWrite(s, r, v);
    OneWrite(WriteReg(s, r, v), r1, v1);
    SameBankCells(s, r, r1); SameBankCells(s, r, r2); SameBankCells(s, r1, r2);
    var t := WriteReg(WriteReg(WriteReg(s, r, v), r1, v1), r2, v2);
    hide BankOf, Cell;
    var b := CurrentBank(s);
    assert t.cells == s.cells[Cell(r, b) := v][Cell(r1, b) := v1][Cell(r2, b) := v2];
    assert t.cells[Cell(r2, b)] == v2 && t.cells[Cell(r1, b)] == v1 && (r != r1 && r != r2 ==> t.cells[Cell(r, b)] == v);
    if Has(s, r1, v1) && Has(s, r2, v2) && (r == r1 || r == r2 || Has(s, r, v)) { assert t.cells == s.cells; }
  }

  /** After the base, the access: which registers and words a failure has written. */
  lemma FailedAccess(s: State, t: State, writes: bool, rn: GReg, v: Word, kind: int, a: Word, rd: GReg)
    requires t == if writes then WriteReg(s, rn, v) else s
    requires ExtraAccess(t, kind, a, rd).Done? && ExtraAccess(t, kind, a, rd).code != OK
    ensures var kept := !writes || Has(s, rn, v);
            ExtraAccess(t, kind, a, rd).s == s <==>
            if kind >= 5 || (kind == 2 && DoubleAllowed(rd, a) && a >= |s.mem|) then
              Has(s, rd, 0) && (kept || rd == rn)
            else if kind == 2 && DoubleAllowed(rd, a) && a + 3 < |s.mem| then
              var low := WordAt(s.mem, a, s.be);
              Has(s, rd, low) && Has(s, rd + 1, low) && (kept || rd == rn || rd + 1 == rn)
            else if kind == 3 && DoubleAllowed(rd, a) && a + 3 < |s.mem| then
              kept && WordAt(s.mem, a, s.be) == ReadReg(s, rd)
            else kept
  {
    hide WriteReg, Has, WordAt, PutWord, HalfAt, ReadReg, BankOf, Add;
    OneWrite(s, rn, v);
    assert t.mem == s.mem && t.be == s.be by { WrittenMemory(s, rn, v); }
    OneWrite(s, rd, 0);
    TwoWrites(s, rn, v, rd, 0);
    if kind == 2 && DoubleAllowed(rd, a) && a + 3 < |s.mem| {
      var low := WordAt(s.mem, a, s.be);
      WrittenMemory(t, rd, low);
      TwoWrites(s, rd, low, rd + 1, low);
      ThreeWrites(s, rn, v, rd, low, rd + 1, low);
    } else if kind == 3 && DoubleAllowed(rd, a) && a + 3 < |s.mem| {
      PutSame(s.mem, a, ReadReg(t, rd), s.be);
    }
  }

  lemma WrittenMemory(s: State, r: GReg, v: Word)
    ensures WriteReg(s, r, v).mem == s.mem && WriteReg(s, r, v).be == s.be
  {
  }

  /** A failing instruction changes nothing if and only if it leaves no trace. */
  lemma FailureKeeps(s: State, ins: Word)
    requires LoadStoreExtra(s, ins).Done? && LoadStoreExtra(s, ins).code != OK
    ensures LoadStoreExtra(s, ins).s == s <==> LeavesNoTrace(s, ins)
  {
    hide ExtraAccess, WriteReg, WordAt, ReadReg, BankOf, KindOf, Has, Indexed, ExtraOffset, DoubleAllowed,
      Bit21, Bit23, Bit24, RdOf, RnOf;
    if Bit24(ins) || !Bit21(ins) {
      var writes := !(Bit24(ins) && !Bit21(ins));
      var t := if writes then WriteReg(s, RnOf(ins), NewBase(s, ins)) else s;
      FailedAccess(s, t, writes, RnOf(ins), NewBase(s, ins), KindOf(ins), ExtraAddress(s, ins), RdOf(ins));
    }
  }

  /** LDRH R0, [R1] outside memory clears R0. */
  lemma FailedLoadShows(s: State)
    requires ReadReg(s, 1) >= |s.mem| && ReadReg(s, 0) != 0
    ensures LoadStoreExtra(s, 0xE1D1_00B0) == Done(WriteReg(s, 0, 0), FAILED) && WriteReg(s, 0, 0) != s
  {
    hide BankOf, HalfAt;
    OneWrite(s, 0, 0);
    LoadHalfFields();
    NoOffset(ReadReg(s, 1));
    hide WriteReg, ReadReg, Has, Indexed, Cell, RnOf, RdOf, RsOf, RmOf, KindOf, Bit21, Bit22, Bit23, Bit24;
    assert s.cells[Cell(0, CurrentBank(s))] != 0;
  }

  lemma LoadHalfFields()
    ensures var ins := 0xE1D1_00B0;
            && KindOf(ins) == 5 && RnOf(ins) == 1 && RdOf(ins) == 0 && RsOf(ins) == 0 && RmOf(ins) == 0
            && Bit24(ins) && Bit23(ins) && Bit22(ins) && !Bit21(ins)
  {
  }

  lemma NoOffset(base: Word)
    ensures Indexed(true, base, 0) == base
  {
  }

  // ------------------------------------------------------------- round trips

  lemma StoresDouble(s: State, a: Word, rd: GReg)
    requires DoubleAllowed(rd, a) && a + 7 < |s.mem| <= 0x1_0000_0000
    ensures var o := StoreDouble(s, a, rd);
            && o.Done? && o.code == OK && |o.s.mem| == |s.mem|
            && WordAt(o.s.mem, a, s.be) == ReadReg(s, rd)
            && WordAt(o.s.mem, a + 4, s.be) == ReadReg(s, rd + 1)
            && forall x :: 0 <= x < |s.mem| && !(a <= x < a + 8) ==> o.s.mem[x] == s.mem[x]
  {
    var first := PutWord(s.mem, a, ReadReg(s, rd), s.be);
    assert Add(a, 4) == a + 4;
    ReadElsewhere(first, a + 4, ReadReg(s, rd + 1), s.be, a);
    hide WordAt, Cell, BankOf, PutWord, ClearBit1;
  }

  lemma LoadsDouble(t: State, a: Word, rd: GReg)
    requires DoubleAllowed(rd, a) && a + 7 < |t.mem| <= 0x1_0000_0000
    ensures var o := LoadDouble(t, a, rd);
            && o.Done? && o.code == OK && o.s.mem == t.mem
            && ReadReg(o.s, rd) == WordAt(t.mem, a, t.be) && ReadReg(o.s, rd + 1) == WordAt(t.mem, a + 4, t.be)
  {
    CellsIdentify(rd, CurrentBank(t), rd + 1, CurrentBank(t));
    assert Add(a, 4) == a + 4;
    hide WordAt, Cell, BankOf, Add, ClearBit1;
  }

  /** A double-word store and the load that walks its base back. */
  predicate DoubleDual(st: Word, ld: Word) {
    && KindOf(st) == 3 && KindOf(ld) == 2 && RnOf(st) == RnOf(ld)
    && Bit23(st) != Bit23(ld) && Bit24(st) != Bit24(ld) && Bit21(st) == Bit24(st) && Bit21(ld) == Bit24(ld)
  }

  /** The pair of registers does not contain the base. */
  predicate PairApart(ins: Word) {
    RdOf(ins) != RnOf(ins) && RdOf(ins) + 1 != RnOf(ins)
  }

  lemma StoresPair(s: State, ins: Word)
    requires KindOf(ins) == 3 && Bit21(ins) == Bit24(ins) && PairApart(ins) && |s.mem| <= 0x1_0000_0000
    requires LoadStoreExtra(s, ins).Done? && LoadStoreExtra(s, ins).code == OK
    ensures var a, o, rd := ExtraAddress(s, ins), LoadStoreExtra(s, ins).s, RdOf(ins);
            && DoubleAllowed(rd, a) && a + 7 < |s.mem| == |o.mem|
            && WordAt(o.mem, a, s.be) == ReadReg(s, rd) && WordAt(o.mem, a + 4, s.be) == ReadReg(s, rd + 1)
            && o == WriteReg(s, RnOf(ins), NewBase(s, ins)).(mem := o.mem)
  {
    hide Indexed, WordAt, PutWord, ExtraOffset, KindOf, BankOf, Bit23, Bit24, Bit21, RdOf, RnOf, ReadReg, WriteReg, Has,
      StoreDouble;
    var t, a, rd := WriteReg(s, RnOf(ins), NewBase(s, ins)), ExtraAddress(s, ins), RdOf(ins);
    WrittenMemory(s, RnOf(ins), NewBase(s, ins));
    assert LoadStoreExtra(s, ins) == ExtraAccess(t, 3, a, rd);
    DoubleFits(t, a, rd);
    StoresDouble(t, a, rd);
    ReadsOther(s, RnOf(ins), NewBase(s, ins), rd);
    ReadsOther(s, RnOf(ins), NewBase(s, ins), rd + 1);
    StoreDoubleState(t, a, rd);
  }

  /** A double word stored without error was inside memory. */
  lemma DoubleFits(t: State, a: Word, rd: GReg)
    requires DoubleAllowed(rd, a) && StoreDouble(t, a, rd).Done? && StoreDouble(t, a, rd).code == OK
    ensures a + 7 < |t.mem|
  {
    hide WordAt, PutWord, ReadReg;
    assert Add(a, 4) == a + 4 by { DivModUnique(a, 8, a / 8, 0); }
  }

  lemma StoreDoubleState(t: State, a: Word, rd: GReg)
    requires DoubleAllowed(rd, a) && StoreDouble(t, a, rd).Done?
    ensures StoreDouble(t, a, rd).s == t.(mem := StoreDouble(t, a, rd).s.mem)
  {
    hide WordAt, PutWord, ReadReg, Add;
  }

  /** Writing one register does not change what another one reads. */
  lemma ReadsOther(s: State, rn: GReg, v: Word, r: GReg)
    requires r != rn
    ensures ReadReg(WriteReg(s, rn, v), r) == ReadReg(s, r)
  {
    OneWrite(s, rn, v);
    SameBankCells(s, rn, r);
    hide BankOf, Cell, ClearBit1;
  }

  lemma LoadsPair(t: State, ins: Word)
    requires KindOf(ins) == 2 && Bit21(ins) == Bit24(ins) && PairApart(ins) && RnOf(ins) != PC
    requires DoubleAllowed(RdOf(ins), ExtraAddress(t, ins)) && ExtraAddress(t, ins) + 7 < |t.mem| <= 0x1_0000_0000
    ensures var a, o, rd := ExtraAddress(t, ins), LoadStoreExtra(t, ins), RdOf(ins);
            && o.Done? && o.code == OK && o.s.mem == t.mem
            && ReadReg(o.s, RnOf(ins)) == NewBase(t, ins)
            && ReadReg(o.s, rd) == WordAt(t.mem, a, t.be) && ReadReg(o.s, rd + 1) == WordAt(t.mem, a + 4, t.be)
  {
    hide Indexed, WordAt, ExtraOffset, KindOf, BankOf, Bit23, Bit24, Bit21, RdOf, RnOf, ReadReg, WriteReg, Has,
      LoadDouble;
    var u, a, rd := WriteReg(t, RnOf(ins), NewBase(t, ins)), ExtraAddress(t, ins), RdOf(ins);
    WrittenMemory(t, RnOf(ins), NewBase(t, ins));
    assert LoadStoreExtra(t, ins) == ExtraAccess(u, 2, a, rd);
    LoadsDouble(u, a, rd);
    LoadDoubleWrites(u, a, rd);
    var low, high := WordAt(u.mem, a, u.be), WordAt(u.mem, a + 4, u.be);
    ReadsOther(WriteReg(u, rd, low), rd + 1, high, RnOf(ins));
    ReadsOther(u, rd, low, RnOf(ins));
    ReadsOwn(t, RnOf(ins), NewBase(t, ins));
  }

  lemma ReadsOwn(s: State, r: GReg, v: Word)
    requires r != PC
    ensures ReadReg(WriteReg(s, r, v), r) == v
  {
    OneWrite(s, r, v);
    hide BankOf, Cell;
  }

  lemma LoadDoubleWrites(u: State, a: Word, rd: GReg)
    requires DoubleAllowed(rd, a) && a + 7 < |u.mem| <= 0x1_0000_0000
    ensures LoadDouble(u, a, rd) ==
            Done(WriteReg(WriteReg(u, rd, WordAt(u.mem, a, u.be)), rd + 1, WordAt(u.mem, a + 4, u.be)), OK)
  {
    assert Add(a, 4) == a + 4;
    WrittenMemory(u, rd, WordAt(u.mem, a, u.be));
    hide WordAt, WriteReg, Add;
  }

  /** The load finds the double word stored, in any pair without the base, and restores the base. */
  lemma PairStoreThenLoad(s: State, st: Word, t: State, ld: Word)
    requires DoubleDual(st, ld) && RnOf(st) != PC && PairApart(st) && PairApart(ld) && |s.mem| <= 0x1_0000_0000
    requires RdOf(ld) % 2 == 0 && RdOf(ld) < 14
    requires LoadStoreExtra(s, st).Done? && LoadStoreExtra(s, st).code == OK
    requires var s1, a := LoadStoreExtra(s, st).s, ExtraAddress(s, st);
             && t.be == s.be && CurrentBank(t) == CurrentBank(s) && |t.mem| == |s1.mem|
             && (forall x :: a <= x < a + 8 && x < |t.mem| ==> t.mem[x] == s1.mem[x])
             && ReadReg(t, RnOf(st)) == ReadReg(s1, RnOf(st)) && ExtraOffset(t, ld) == ExtraOffset(s, st)
    ensures var o := LoadStoreExtra(t, ld);
            && o.Done? && o.code == OK && o.s.mem == t.mem
            && ReadReg(o.s, RdOf(ld)) == ReadReg(s, RdOf(st)) && ReadReg(o.s, RdOf(ld) + 1) == ReadReg(s, RdOf(st) + 1)
            && ReadReg(o.s, RnOf(ld)) == ReadReg(s, RnOf(st))
  {
    hide LoadStoreExtra, Indexed, ExtraOffset, KindOf, BankOf, ReadReg, WriteReg, RnOf, RdOf, Bit21, Bit23, Bit24;
    var a, s1 := ExtraAddress(s, st), LoadStoreExtra(s, st).s;
    StoresPair(s, st);
    ReadsOwn(s, RnOf(st), NewBase(s, st));
    SameRead(s1, WriteReg(s, RnOf(st), NewBase(s, st)), RnOf(st));
    IndexedBack(Bit23(st), ReadReg(s, RnOf(st)), ExtraOffset(s, st));
    assert ExtraAddress(t, ld) == a;
    SameBytes(t.mem, s1.mem, a, s.be);
    SameBytes(t.mem, s1.mem, a + 4, s.be);
    hide WordAt;
    LoadsPair(t, ld);
  }

  lemma SameRead(s: State, t: State, r: GReg)
    requires s.cells == t.cells
    ensures ReadReg(s, r) == ReadReg(t, r)
  {
  }

  /** A half-word store and the load, signed or not, that walks its base back. */
  predicate HalfDual(st: Word, ld: Word) {
    && KindOf(st) == 1 && (KindOf(ld) == 5 || KindOf(ld) == 7) && RnOf(st) == RnOf(ld)
    && Bit23(st) != Bit23(ld) && Bit24(st) != Bit24(ld) && Bit21(st) == Bit24(st) && Bit21(ld) == Bit24(ld)
  }

  function ExtraAddress(s: State, ins: Word): Word {
    if Bit24(ins) then Indexed(Bit23(ins), ReadReg(s, RnOf(ins)), ExtraOffset(s, ins)) else ReadReg(s, RnOf(ins))
  }

  lemma StoresHalf(s: State, ins: Word)
    requires KindOf(ins) == 1 && Bit21(ins) == Bit24(ins) && RdOf(ins) != RnOf(ins) && RdOf(ins) != PC
    requires LoadStoreExtra(s, ins).Done? && LoadStoreExtra(s, ins).code == OK
    ensures var a, o := ExtraAddress(s, ins), LoadStoreExtra(s, ins).s;
            && a + 1 < |s.mem| == |o.mem|
            && HalfAt(o.mem, a, s.be) == ReadReg(s, RdOf(ins)) % 0x1_0000
            && o == WriteReg(s, RnOf(ins), Indexed(Bit23(ins), ReadReg(s, RnOf(ins)), ExtraOffset(s, ins))).(mem := o.mem)
  {
    CellsIdentify(RdOf(ins), CurrentBank(s), RnOf(ins), CurrentBank(s));
    hide Indexed, HalfAt, PutHalf, ExtraOffset, KindOf, BankOf, Cell, ClearBit1;
  }

  lemma LoadsHalf(t: State, ins: Word)
    requires (KindOf(ins) == 5 || KindOf(ins) == 7) && Bit21(ins) == Bit24(ins)
    requires RdOf(ins) != RnOf(ins) && RdOf(ins) != PC && RnOf(ins) != PC && ExtraAddress(t, ins) + 1 < |t.mem|
    ensures var a, o := ExtraAddress(t, ins), LoadStoreExtra(t, ins);
            && o.Done? && o.code == OK && o.s.mem == t.mem
            && ReadReg(o.s, RnOf(ins)) == Indexed(Bit23(ins), ReadReg(t, RnOf(ins)), ExtraOffset(t, ins))
            && ReadReg(o.s, RdOf(ins)) == (if KindOf(ins) == 5 then HalfAt(t.mem, a, t.be)
                                           else ExtendHalf(HalfAt(t.mem, a, t.be)))
  {
    CellsIdentify(RdOf(ins), CurrentBank(t), RnOf(ins), CurrentBank(t));
    hide Indexed, HalfAt, ExtraOffset, KindOf, BankOf, Cell, ClearBit1, ExtendHalf;
  }

  /** The load finds the half word stored, extended as it asks, and restores the base. */
  lemma HalfStoreThenLoad(s: State, st: Word, t: State, ld: Word)
    requires HalfDual(st, ld) && RnOf(st) != PC && RdOf(st) != PC && RdOf(st) != RnOf(st)
    requires RdOf(ld) != PC && RdOf(ld) != RnOf(ld)
    requires LoadStoreExtra(s, st).Done? && LoadStoreExtra(s, st).code == OK
    requires var s1, a := LoadStoreExtra(s, st).s, ExtraAddress(s, st);
             && t.be == s.be && CurrentBank(t) == CurrentBank(s) && |t.mem| == |s1.mem|
             && (forall x :: a <= x < a + 2 && x < |t.mem| ==> t.mem[x] == s1.mem[x])
             && ReadReg(t, RnOf(st)) == ReadReg(s1, RnOf(st)) && ExtraOffset(t, ld) == ExtraOffset(s, st)
    ensures var o, h := LoadStoreExtra(t, ld), ReadReg(s, RdOf(st)) % 0x1_0000;
            && o.Done? && o.code == OK && o.s.mem == t.mem
            && ReadReg(o.s, RdOf(ld)) == (if KindOf(ld) == 5 then h else ExtendHalf(h))
            && ReadReg(o.s, RnOf(ld)) == ReadReg(s, RnOf(st))
  {
    var a := ExtraAddress(s, st);
    StoresHalf(s, st);
    var s1 := LoadStoreExtra(s, st).s;
    IndexedBack(Bit23(st), ReadReg(s, RnOf(st)), ExtraOffset(s, st));
    assert HalfAt(t.mem, a, s.be) == HalfAt(s1.mem, a, s.be) by {
      assert t.mem[a] == s1.mem[a] && t.mem[a + 1] == s1.mem[a + 1];
    }
    hide LoadStoreExtra, Indexed, ExtraOffset, HalfAt, KindOf, ExtendHalf, BankOf, Cell;
    assert ExtraAddress(t, ld) == a;
    LoadsHalf(t, ld);
  }
}
