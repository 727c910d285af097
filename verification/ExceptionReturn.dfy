/**
 Returning from an exception with a load multiple that names PC and has the S bit, the
 `LDMFD SP!, {.., PC}^` of section A4.1.22 of DDI 0100.

 `ManualReturn` is the manual's instruction.  The code restores CPSR first and writes the base
 back in the mode it returns to; it reads at the address as it stands, goes on after a failed
 read, and clears two bits of PC also when it returns to Thumb state.
 */
module ExceptionReturn {
  import opened Words
  import opened MemoryUnit
  import opened RegisterFile
  import opened ArmCore
  import opened Encoding
  import opened BlockTransfer
  import opened BlockInverse
  import opened Instruction
  import opened Confinement
  import opened Frames
  import opened ManualBlock
  import opened BranchOther

  /** What the manual's return comes to. */
  datatype Manual = Aborts | Returns(s: State)

  /** The loaded PC: a return to Thumb state keeps bit 1. */
  function MaskedPc(w: Word, psr: Word): Word {
    if Thumb(psr) then w - w % 2 else w - w % 4
  }

  ghost function ManualReturn(s: State, ins: Word): Manual
    requires RestoresPsr(ins) && HasSpsr(CurrentBank(s))
  {
    var list, start := ins % 0x1_0000, StartAddress(s, ins);
    if !Accessible(|s.mem|, list, start) then Aborts
    else
      var t := s.(cells := LoadedBank(s, CurrentBank(s), list, start, 15));
      var u := SetCpsr(WrittenBack(t, ins, NewBase(s, ins)), Spsr(s));
      Returns(u.(cells := u.cells[30 := MaskedPc(WordOf(s, list, start, 15), Spsr(s))]))
  }

  /** A word moved by one to sixteen words is another word. */
  lemma MovedBase(rn: Word, n: nat)
    requires 1 <= n <= 16
    ensures Add(rn, 4 * n) != rn && Add(rn, -4 * n) != rn
  {
    QuotientRemainder(rn + 4 * n, 0x1_0000_0000);
    QuotientRemainder(rn - 4 * n, 0x1_0000_0000);
  }

  lemma {:induction false} CountsListed(list: nat, k: nat, i: nat)
    requires k < i && Listed(list, k)
    ensures Count(list, i) >= 1
  {
    if k < i - 1 { CountsListed(list, k, i - 1); }
  }

  lemma WritebackMoves(s: State, ins: Word)
    requires Listed(ListOf(ins), 15)
    ensures BlockOf(s, ins).writeback != ReadReg(s, RnOf(ins))
  {
    CountsListed(ListOf(ins), 15, 16);
    MovedBase(ReadReg(s, RnOf(ins)), Count(ListOf(ins), 16));
    hide Add, Count, ReadReg;
  }

  /** A cell of no listed register, nor CPSR, nor a base written back. */
  ghost predicate Untouched(c: int, b: Bank, ins: Word, base: int) {
    c != 31 && Spared(c, b, ListOf(ins), 16) && !(Bit21(ins) && c == base)
  }

  /** What the code's return leaves in each cell. */
  lemma CodeCells(s: State, ins: Word, junk: Word)
    requires RestoresPsr(ins) && HasSpsr(CurrentBank(s)) && !Listed(ListOf(ins), RnOf(ins)) && BlockDefined(s, ins)
    ensures var o, b, range := LoadStoreMultiple(s, ins, junk), CurrentBank(s), BlockOf(s, ins);
            var base := Cell(RnOf(ins), RestoredBank(s));
            && o.Done? && o.code == 0 && o.s == s.(cells := o.s.cells) && o.s.cells[31] == Spsr(s)
            && (forall k: GReg :: Listed(ListOf(ins), k) ==>
                  o.s.cells[Cell(k, b)] == Received(s, ListOf(ins), range.start, k, junk))
            && (Bit21(ins) ==> o.s.cells[base] == range.writeback)
            && (forall c :: 0 <= c < 37 && Untouched(c, b, ins, base) ==> o.s.cells[c] == s.cells[c])
  {
    hide Listed, RangeOf, Count, Received, WordAt, BankOf, Confined;
    var list, start, rn, b, b' := ListOf(ins), BlockOf(s, ins).start, RnOf(ins), CurrentBank(s), RestoredBank(s);
    SlotOfNone(start, list);
    assert Held(s.mem, s.be, list, start, 0, junk) == junk;
    LoadLayout(s, list, 0, start, junk);
    TransfersStay(s, true, list, 0, start, junk);
    hide TransferFrom, Slot, Held;
    var t := TransferFrom(s, true, list, 0, start, junk).s;
    SwitchStays(s, t, rn, BlockOf(s, ins).writeback);
    CpsrCell(b);
    CellsIdentify(rn, b', CPSR, b);
    forall k: GReg | Listed(list, k) ensures Cell(k, b) != Cell(rn, b') && Cell(k, b) != 31 {
      CellsIdentify(k, b, rn, b');
      CellsIdentify(k, b, CPSR, b);
    }
    hide Cell;
    assert Cell(CPSR, b) == 31;
  }

  /** What the manual's return leaves in each cell. */
  lemma ManualCells(s: State, ins: Word)
    requires RestoresPsr(ins) && HasSpsr(CurrentBank(s)) && !Listed(ListOf(ins), RnOf(ins))
    requires Accessible(|s.mem|, ListOf(ins), BlockOf(s, ins).start)
    ensures var o, b, range := ManualReturn(s, ins), CurrentBank(s), BlockOf(s, ins);
            var list, base := ListOf(ins), Cell(RnOf(ins), CurrentBank(s));
            && o.Returns? && o.s == s.(cells := o.s.cells) && o.s.cells[31] == Spsr(s)
            && o.s.cells[30] == MaskedPc(WordOf(s, list, range.start, 15), Spsr(s))
            && (forall k: GReg :: k < 15 && Listed(list, k) ==> o.s.cells[Cell(k, b)] == WordOf(s, list, range.start, k))
            && (Bit21(ins) ==> o.s.cells[base] == range.writeback)
            && (forall c :: 0 <= c < 37 && Untouched(c, b, ins, base) ==> o.s.cells[c] == s.cells[c])
  {
    hide Listed, BlockOf, LoadedBank, Accessible, MaskedPc, WordOf, BankOf, StartAddress, NewBase;
    BlockStarts(s, ins);
    var list, start, rn, b := ListOf(ins), BlockOf(s, ins).start, RnOf(ins), CurrentBank(s);
    LoadedBankIs(s, b, list, start, 15);
    CpsrCell(b);
    assert Cell(PC, b) == 30;
    CellsIdentify(rn, b, CPSR, b);
    CellsIdentify(rn, b, PC, b);
    forall k: GReg | Listed(list, k) ensures Cell(k, b) != Cell(rn, b) && Cell(k, b) != 31 && (k < 15 ==> Cell(k, b) != 30) {
      CellsIdentify(k, b, rn, b);
      CellsIdentify(k, b, CPSR, b);
      CellsIdentify(k, b, PC, b);
    }
    forall c | Spared(c, b, list, 16) ensures Spared(c, b, list, 15) && c != 30 { assert Listed(list, 15); }
    hide Cell;
  }

  /** The code's words of a block inside memory are the manual's. */
  ghost predicate SameLoads(s: State, ins: Word)
    requires BlockInside(s, ins) && RestoresPsr(ins) && HasSpsr(CurrentBank(s))
    requires Accessible(|s.mem|, ListOf(ins), BlockOf(s, ins).start)
  {
    var list, start := ListOf(ins), BlockOf(s, ins).start;
    && (forall k: GReg :: k < 15 && Listed(list, k) ==> Loaded(s, list, start, k) == WordOf(s, list, start, k))
    && Loaded(s, list, start, PC) == MaskedPc(WordOf(s, list, start, 15), Spsr(s))
  }

  /** The two results in terms of the cells: x of the code, y of the manual. */
  ghost predicate Results(s: State, ins: Word, x: Cells, y: Cells)
    requires BlockInside(s, ins) && RestoresPsr(ins) && HasSpsr(CurrentBank(s))
    requires Accessible(|s.mem|, ListOf(ins), BlockOf(s, ins).start)
  {
    var list, range, b := ListOf(ins), BlockOf(s, ins), CurrentBank(s);
    var rx, ry := Cell(RnOf(ins), RestoredBank(s)), Cell(RnOf(ins), CurrentBank(s));
    && x[31] == y[31]
    && (forall k: GReg :: Listed(list, k) ==> x[Cell(k, b)] == Loaded(s, list, range.start, k))
    && (forall k: GReg :: k < 15 && Listed(list, k) ==> y[Cell(k, b)] == WordOf(s, list, range.start, k))
    && y[30] == MaskedPc(WordOf(s, list, range.start, 15), Spsr(s))
    && (Bit21(ins) ==> x[rx] == range.writeback && y[ry] == range.writeback)
    && (forall c :: 0 <= c < 37 && Untouched(c, b, ins, rx) ==> x[c] == s.cells[c])
    && (forall c :: 0 <= c < 37 && Untouched(c, b, ins, ry) ==> y[c] == s.cells[c])
  }

  lemma SameResults(s: State, ins: Word, x: Cells, y: Cells)
    requires BlockInside(s, ins) && RestoresPsr(ins) && HasSpsr(CurrentBank(s)) && !Listed(ListOf(ins), RnOf(ins))
    requires Accessible(|s.mem|, ListOf(ins), BlockOf(s, ins).start)
    requires Results(s, ins, x, y)
    ensures x == y <==> SameLoads(s, ins) && (Bit21(ins) ==> Shared(RnOf(ins), RestoredBank(s), CurrentBank(s)))
  {
    hide Listed, BlockOf, Loaded, MaskedPc, WordOf, BankOf, ReadReg, Accessible, BlockInside;
    var list, rn, b, b' := ListOf(ins), RnOf(ins), CurrentBank(s), RestoredBank(s);
    var rx, ry := Cell(rn, b'), Cell(rn, b);
    CellsIdentify(rn, b', rn, b);
    CellsIdentify(rn, b, CPSR, b);
    CpsrCell(b);
    assert Cell(PC, b) == 30;
    forall k: GReg | Listed(list, k) ensures Cell(k, b) != ry { CellsIdentify(k, b, rn, b); }
    WritebackMoves(s, ins);
    BaseCell(s, ins);
    hide Cell, Shared;
    if x == y {
      assert Bit21(ins) && rx != ry ==> Untouched(ry, b, ins, rx);
      assert x[Cell(PC, b)] == y[30];
    } else {
      var c :| 0 <= c < 37 && x[c] != y[c];
      if !Spared(c, b, list, 16) {
        var k: GReg :| Listed(list, k) && Cell(k, b) == c;
      }
      assert !Bit21(ins) ==> (Untouched(c, b, ins, rx) <==> Untouched(c, b, ins, ry));
    }
  }

  /**
   The return is that of section A4.1.22 if and only if no word of its block is outside memory,
   the words at the addresses as they stand are those at the word boundaries below them, with
   PC masked alike, and it does not write its base back or both modes share the base register.
   (With the base in the list and written back the manual leaves the result open.)
   */
  lemma ReturnIsArchitectural(s: State, ins: Word, junk: Word)
    requires RestoresPsr(ins) && HasSpsr(CurrentBank(s)) && !Listed(ListOf(ins), RnOf(ins)) && BlockDefined(s, ins)
    ensures LoadStoreMultiple(s, ins, junk).Done?
    ensures BlockInside(s, ins) ==> Accessible(|s.mem|, ListOf(ins), BlockOf(s, ins).start)
    ensures Returns(LoadStoreMultiple(s, ins, junk).s) == ManualReturn(s, ins) <==>
            && BlockInside(s, ins) && SameLoads(s, ins)
            && (Bit21(ins) ==> Shared(RnOf(ins), RestoredBank(s), CurrentBank(s)))
  {
    hide Listed, BlockOf, LoadStoreMultiple, Received, Loaded, MaskedPc, WordOf, BankOf, Shared, Untouched, ReadReg,
      Accessible, SameLoads, Cell, StartAddress, NewBase;
    var list, start := ListOf(ins), BlockOf(s, ins).start;
    BlockStarts(s, ins);
    CodeCells(s, ins, junk);
    AccessibleIsInside(|s.mem|, list, start);
    if BlockInside(s, ins) {
      ManualCells(s, ins);
      forall k: GReg | Listed(list, k) ensures Received(s, list, start, k, junk) == Loaded(s, list, start, k) {
        ReceivedInside(s, list, start, k, junk);
      }
      var x, y := LoadStoreMultiple(s, ins, junk).s, ManualReturn(s, ins).s;
      assert Results(s, ins, x.cells, y.cells);
      SameResults(s, ins, x.cells, y.cells);
    }
  }

  /**
   From a word boundary: if and only if the block is inside memory, T is clear in the SPSR or
   bit 1 in the loaded PC, and it does not write back or both modes share the base register.
   */
  lemma AlignedReturn(s: State, ins: Word, junk: Word)
    requires RestoresPsr(ins) && HasSpsr(CurrentBank(s)) && !Listed(ListOf(ins), RnOf(ins)) && BlockDefined(s, ins)
    requires BlockOf(s, ins).start % 4 == 0
    ensures LoadStoreMultiple(s, ins, junk).Done?
    ensures Returns(LoadStoreMultiple(s, ins, junk).s) == ManualReturn(s, ins) <==>
            && BlockInside(s, ins)
            && (Thumb(Spsr(s)) ==> WordAt(s.mem, Slot(BlockOf(s, ins).start, ListOf(ins), 15), s.be) % 4 < 2)
            && (Bit21(ins) ==> Shared(RnOf(ins), RestoredBank(s), CurrentBank(s)))
  {
    hide Listed, BlockOf, LoadStoreMultiple, BankOf, Shared, ReadReg, Slot, WordAt, ManualReturn, Thumb, Cell;
    var list, start := ListOf(ins), BlockOf(s, ins).start;
    ReturnIsArchitectural(s, ins, junk);
    if BlockInside(s, ins) {
      forall k: GReg ensures Aligned(Slot(start, list, k)) == Slot(start, list, k) { AlignedSlot(start, list, k); }
      hide Aligned, Accessible;
      MaskAlike(WordAt(s.mem, Slot(start, list, 15), s.be), Spsr(s));
    }
  }

  lemma MaskAlike(w: Word, psr: Word)
    ensures w - w % 4 == MaskedPc(w, psr) <==> (Thumb(psr) ==> w % 4 < 2)
  {
    hide Thumb;
  }

  /** A base that is not listed beside PC is not PC: it reads as its cell. */
  lemma BaseCell(s: State, ins: Word)
    requires Listed(ListOf(ins), 15) && !Listed(ListOf(ins), RnOf(ins))
    ensures ReadReg(s, RnOf(ins)) == s.cells[Cell(RnOf(ins), CurrentBank(s))]
  {
    hide Listed;
  }

  // ---------------------------------------------------------------- an input that shows it

  /** `LDMFD SP!, {PC}^`. */
  const RETURN_PC: Word := 0xE8FD_8000

  lemma ReturnPcFields()
    ensures CondOf(RETURN_PC) == AL && ClassOf(RETURN_PC) == 4 && RnOf(RETURN_PC) == SP && ListOf(RETURN_PC) == 0x8000
    ensures Bit20(RETURN_PC) && Bit21(RETURN_PC) && Bit22(RETURN_PC) && Bit23(RETURN_PC) && !Bit24(RETURN_PC)
  {
  }

  /** The list of PC alone. */
  lemma OnlyPc(k: nat)
    ensures Listed(0x8000, k) <==> k == 15
    ensures Count(0x8000, 15) == 0 && Count(0x8000, 16) == 1
  {
    hide Listed, Pow2;
    FramePowers();
    OneListed(k);
    FrameList(0, 15, k);
    NoneCounted(15); NoneCounted(16);
    FrameCount(0, 15, 15); FrameCount(0, 15, 16);
  }

  lemma {:induction false} NoneCounted(i: nat)
    ensures Count(0, i) == 0
  {
    if i > 0 {
      NoneCounted(i - 1);
      OneListed(i - 1);
    }
  }

  /** Its block, in a mode whose stack pointer points at one word of memory. */
  lemma OneWord(t: State)
    requires t.cells[Cell(SP, CurrentBank(t))] + 3 < |t.mem| <= 0x1_0000_0000
    ensures BlockDefined(t, RETURN_PC)
    ensures BlockOf(t, RETURN_PC).writeback == Add(t.cells[Cell(SP, CurrentBank(t))], 4)
  {
    hide Listed, Count, RnOf, ListOf, Bit20, Bit21, Bit22, Bit23, Bit24, Add, BankOf, Cell;
    ReturnPcFields();
    OnlyPc(15);
    var rn := ReadReg(t, SP);
    assert RangeOf(false, true, rn, 1) == Range(rn, Add(rn, 0), Add(rn, 4));
    SlotOfPc(rn);
    forall k: nat | k < 16 && Listed(0x8000, k) ensures Slot(rn, 0x8000, k) == rn { OnlyPc(k); }
  }

  lemma SlotOfPc(rn: Word)
    ensures Slot(rn, 0x8000, 15) == rn
  {
    hide Count;
    OnlyPc(15);
  }

  /** Returning so from IRQ mode moves the stack pointer of the mode returned to. */
  lemma ReturnFromIrq(s: State, input: Input)
    requires ModeOf(s) == IRQ && BankOf(s.cells[Cell(SPSR, BANK_IRQ)] % 64) != BANK_IRQ
    requires At(s, RETURN_PC) && s.cells[Cell(SP, BANK_IRQ)] + 3 < |s.mem| <= 0x1_0000_0000
    requires s.cells[Cell(SP, BankOf(s.cells[Cell(SPSR, BANK_IRQ)] % 64))] != Add(s.cells[Cell(SP, BANK_IRQ)], 4)
    ensures Step(s, input).Done? && !Confined(BANK_IRQ, s, Step(s, input).s)
  {
    hide Step, Execute, Confined, WordAt, BlockDefined, BlockOf, Listed, ClassOf, CondOf, RnOf, ListOf, LoadStoreMultiple,
      Bit20, Bit21, Bit22, Bit23, Bit24, BankOf, Add, ManualReturn;
    var t := Fetched(s);
    assert CurrentBank(t) == CurrentBank(s) == BANK_IRQ by { IrqBank(s); }
    assert Spsr(t) == s.cells[Cell(SPSR, BANK_IRQ)];
    ReturnPcFields();
    OnlyPc(15); OnlyPc(13);
    OneWord(t);
    ReturnIsArchitectural(t, RETURN_PC, input.junk);
    StepMultiple(s, RETURN_PC, input);
    assert WritesElsewhere(t, RETURN_PC);
    assert Passes(AL, Cpsr(s));
    StepConfined(s, input);
  }

  lemma IrqBank(s: State)
    requires ModeOf(s) == IRQ
    ensures CurrentBank(s) == BANK_IRQ == CurrentBank(Fetched(s))
  {
  }

  /** In IRQ mode at address 0 with R13_irq = 4, called from user mode with R13 = 0. */
  function Example(): State {
    State(seq(37, _ => 0)[31 := 0x92][Cell(SPSR, BANK_IRQ) := 0x10][Cell(SP, BANK_IRQ) := 4],
          [0x00, 0x80, 0xFD, 0xE8, 0, 0, 0, 0], 0, false)
  }

  lemma ExampleEscapes(input: Input)
    ensures Step(Example(), input).Done? && !Confined(BANK_IRQ, Example(), Step(Example(), input).s)
  {
    hide Step, Confined;
    var s := Example();
    assert WordAt(s.mem, 0, false) == RETURN_PC;
    ReturnFromIrq(s, input);
  }

  // ---------------------------------------------------------------- the other conditions

  /** `LDMIA R0, {PC}^`. */
  const RETURN_R0: Word := 0xE8D0_8000

  lemma ReturnR0Fields()
    ensures RestoresPsr(RETURN_R0) && RnOf(RETURN_R0) == 0 && ListOf(RETURN_R0) == 0x8000 && !Listed(0x8000, 0)
    ensures !Bit21(RETURN_R0) && Bit23(RETURN_R0) && !Bit24(RETURN_R0)
  {
    OnlyPc(15); OnlyPc(0);
    assert ListOf(RETURN_R0) == 0x8000;
    hide Listed, Count;
  }

  /** Its block is the word at R0. */
  lemma ReturnR0(s: State)
    requires s.cells[31] == 0x92
    ensures CurrentBank(s) == BANK_IRQ && Spsr(s) == s.cells[Cell(SPSR, BANK_IRQ)]
    ensures BlockOf(s, RETURN_R0).start == s.cells[0]
    ensures forall k: nat :: k < 16 && Listed(0x8000, k) ==> Slot(s.cells[0], 0x8000, k) == s.cells[0] && k == 15
  {
    assert CurrentBank(s) == BANK_IRQ;
    assert ReadReg(s, 0) == s.cells[0];
    hide Listed, Count, RnOf, ListOf, Bit20, Bit21, Bit22, Bit23, Bit24, Add, BankOf, Cell, ReadReg, ClassOf;
    ReturnR0Fields();
    OnlyPc(15);
    assert RangeOf(false, true, s.cells[0], 1).start == s.cells[0];
    forall k: nat | k < 16 && Listed(0x8000, k) ensures Slot(s.cells[0], 0x8000, k) == s.cells[0] && k == 15 {
      OnlyPc(k);
      SlotOfPc(s.cells[0]);
    }
  }

  /** In IRQ mode, with R0 outside memory; not at a word boundary; or with an SPSR that has T set. */
  predicate FailedRead(s: State) {
    s.cells[31] == 0x92 && |s.mem| <= s.cells[0]
  }

  predicate UnalignedRead(s: State) {
    && s.cells[31] == 0x92 && s.cells[0] == 5 && 8 < |s.mem| <= 0x1_0000_0000
    && WordAt(s.mem, 5, s.be) / 4 != WordAt(s.mem, 4, s.be) / 4
  }

  predicate ToThumb(s: State) {
    && s.cells[31] == 0x92 && Thumb(s.cells[Cell(SPSR, BANK_IRQ)])
    && s.cells[0] % 4 == 0 && s.cells[0] + 3 < |s.mem| <= 0x1_0000_0000 && WordAt(s.mem, s.cells[0], s.be) % 4 >= 2
  }

  /** There the code jumps to whatever `data` held and reports nothing; the manual aborts. */
  lemma FailedReturn(s: State, junk: Word)
    requires FailedRead(s) && |s.mem| <= 0x1_0000_0000
    ensures RestoresPsr(RETURN_R0) && HasSpsr(CurrentBank(s))
    ensures var o := LoadStoreMultiple(s, RETURN_R0, junk);
            o.Done? && o.code == 0 && Pc(o.s) == junk - junk % 4 && ManualReturn(s, RETURN_R0) == Aborts
  {
    hide Listed, LoadStoreMultiple, RnOf, ListOf, RestoresPsr, BankOf, Cell, Bit20, Bit21, Bit22, BlockOf, Aligned,
      Untouched, Received, Slot, Spsr, StartAddress, NewBase, ManualReturn;
    ReturnR0Fields();
    ReturnR0(s);
    OnlyPc(15);
    CodeCells(s, RETURN_R0, junk);
    HeldByNone(s, s.cells[0], junk);
    IrqPc();
    AbortsOutside(s);
  }

  lemma AbortsOutside(s: State)
    requires FailedRead(s) && RestoresPsr(RETURN_R0) && HasSpsr(CurrentBank(s))
    ensures ManualReturn(s, RETURN_R0) == Aborts
  {
    hide Listed, RnOf, RestoresPsr, BankOf, Cell, Bit21, BlockOf, Slot, Spsr, StartAddress, NewBase, Count;
    assert RETURN_R0 % 0x1_0000 == 0x8000;
    BlockStarts(s, RETURN_R0);
    ReturnR0(s);
    OnlyPc(15);
    assert !Accessible(|s.mem|, 0x8000, s.cells[0]);
  }

  lemma IrqPc()
    ensures Cell(PC, BANK_IRQ) == 30
  {
  }

  /** With the only slot outside memory, PC receives what was held before. */
  lemma HeldByNone(s: State, start: Word, junk: Word)
    requires start + 3 >= |s.mem|
    ensures Received(s, 0x8000, start, PC, junk) == junk - junk % 4
  {
    hide Listed;
    SlotOfPc(start);
    hide Slot;
    HeldBelow(s, start, 15, junk);
  }

  lemma {:induction false} HeldBelow(s: State, start: Word, k: nat, junk: Word)
    requires k <= 15
    ensures Held(s.mem, s.be, 0x8000, start, k, junk) == junk
  {
    hide Listed, Slot;
    if k > 0 {
      OnlyPc(k - 1);
      HeldBelow(s, start, k - 1, junk);
    }
  }

  /** There the code takes the word at the address itself, the manual the one below. */
  lemma UnalignedReturn(s: State, junk: Word)
    requires UnalignedRead(s)
    ensures RestoresPsr(RETURN_R0) && HasSpsr(CurrentBank(s))
    ensures var o := LoadStoreMultiple(s, RETURN_R0, junk);
            o.Done? && Returns(o.s) != ManualReturn(s, RETURN_R0)
  {
    hide Listed, LoadStoreMultiple, RnOf, ListOf, RestoresPsr, BankOf, Cell, Bit20, Bit21, Bit22, BlockOf, WordAt, Slot,
      Spsr, ManualReturn, Thumb;
    ReturnR0Fields();
    ReturnR0(s);
    OnlyPc(15);
    ReturnIsArchitectural(s, RETURN_R0, junk);
    assert Aligned(5) == 4;
    OtherQuotient(WordAt(s.mem, 5, s.be), WordAt(s.mem, 4, s.be), Spsr(s));
  }

  lemma OtherQuotient(w: Word, w': Word, psr: Word)
    requires w / 4 != w' / 4
    ensures w - w % 4 != MaskedPc(w', psr)
  {
    hide Thumb;
  }

  /** There the manual keeps bit 1 of the loaded PC, and the code clears it. */
  lemma ThumbReturn(s: State, junk: Word)
    requires ToThumb(s)
    ensures RestoresPsr(RETURN_R0) && HasSpsr(CurrentBank(s))
    ensures var o := LoadStoreMultiple(s, RETURN_R0, junk);
            o.Done? && Returns(o.s) != ManualReturn(s, RETURN_R0)
  {
    hide Listed, LoadStoreMultiple, RnOf, ListOf, RestoresPsr, BankOf, Cell, Bit20, Bit21, Bit22, BlockOf, WordAt, Slot,
      Spsr, ManualReturn, Thumb;
    ReturnR0Fields();
    ReturnR0(s);
    OnlyPc(15);
    AlignedReturn(s, RETURN_R0, junk);
  }

  /** In IRQ mode with this R0 and SPSR_irq. */
  function Returning(r0: Word, psr: Word, mem: Bytes): State {
    State(seq(37, _ => 0)[31 := 0x92][Cell(SPSR, BANK_IRQ) := psr][0 := r0], mem, 0, false)
  }

  /** Such states. */
  lemma ReturnExamples()
    ensures FailedRead(Returning(0x1000, 0x10, []))
    ensures UnalignedRead(Returning(5, 0x10, [0, 0, 0, 0, 0x10, 0, 0, 0, 0x20]))
    ensures ToThumb(Returning(4, 0x30, [0, 0, 0, 0, 0x12, 0, 0, 0]))
  {
  }
}
