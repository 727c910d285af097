/**
 Load and store multiple with the S bit and without PC in a load's list.  Sections A4.1.21 and
 A4.1.98 of DDI 0100 transfer the registers of user mode; the code, those of the current mode.
 */
module UserRegisters {
  import opened Words
  import opened MemoryUnit
  import opened RegisterFile
  import opened ArmCore
  import opened Encoding
  import opened BlockTransfer
  import opened BlockInverse
  import opened ManualBlock

  /** What the manual's instruction comes to. */
  datatype Manual = Aborts | Becomes(s: State)

  /** `LDM{..} Rn, {..}^` without PC and `STM{..} Rn, {..}^`; the manual allows no write back. */
  predicate IsUserLoad(ins: Word) {
    Bit20(ins) && Bit22(ins) && !Bit21(ins) && !Listed(ListOf(ins), 15)
  }

  predicate IsUserStore(ins: Word) {
    !Bit20(ins) && Bit22(ins) && !Bit21(ins)
  }

  // ---------------------------------------------------------------- load

  ghost function ManualUserLoad(s: State, ins: Word): Manual {
    var list, start := ins % 0x1_0000, StartAddress(s, ins);
    if !Accessible(|s.mem|, list, start) then Aborts
    else Becomes(s.(cells := LoadedBank(s, BANK_USR, list, start, 16)))
  }

  /** Loading register k in bank b instead of the user bank makes no difference. */
  ghost predicate SameTarget(s: State, ins: Word, k: GReg)
    requires BlockInside(s, ins) && Listed(ListOf(ins), k)
    requires Accessible(|s.mem|, ListOf(ins), BlockOf(s, ins).start)
  {
    var list, start, b := ListOf(ins), BlockOf(s, ins).start, CurrentBank(s);
    if Shared(k, b, BANK_USR) then WordAt(s.mem, Slot(start, list, k), s.be) == WordOf(s, list, start, k)
    else s.cells[Cell(k, b)] == WordAt(s.mem, Slot(start, list, k), s.be)
         && s.cells[Cell(k, BANK_USR)] == WordOf(s, list, start, k)
  }

  /**
   The load is the manual's if and only if its block is inside memory and each register listed
   is shared with user mode and gets the same word, or both it and the user's held already
   what is loaded.
   */
  lemma UserLoadIsArchitectural(s: State, ins: Word, junk: Word)
    requires IsUserLoad(ins) && BlockDefined(s, ins)
    ensures LoadStoreMultiple(s, ins, junk).Done?
    ensures BlockInside(s, ins) ==> Accessible(|s.mem|, ListOf(ins), BlockOf(s, ins).start)
    ensures Becomes(LoadStoreMultiple(s, ins, junk).s) == ManualUserLoad(s, ins) <==>
            BlockInside(s, ins) && forall k: GReg :: Listed(ListOf(ins), k) ==> SameTarget(s, ins, k)
  {
    hide Listed, BlockOf, LoadStoreMultiple, WordAt, Slot, BankOf, Cell, Shared, Accessible, WordOf, LoadedBank, Received,
      SameTarget;
    LoadMultiple(s, ins, junk);
    BlockStarts(s, ins);
    var list, start := ListOf(ins), BlockOf(s, ins).start;
    AccessibleIsInside(|s.mem|, list, start);
    if BlockInside(s, ins) {
      LoadedBankIs(s, BANK_USR, list, start, 16);
      var x, y := LoadStoreMultiple(s, ins, junk).s, ManualUserLoad(s, ins).s;
      assert Loads(s, ins, x.cells, y.cells) by { LoadedNotPc(s, ins); }
      SameLoads(s, ins, x.cells, y.cells);
    }
  }

  lemma LoadedNotPc(s: State, ins: Word)
    requires IsUserLoad(ins) && BlockInside(s, ins)
    ensures forall k: GReg :: Listed(ListOf(ins), k) ==>
              Slot(BlockOf(s, ins).start, ListOf(ins), k) + 3 < |s.mem|
              && Loaded(s, ListOf(ins), BlockOf(s, ins).start, k)
                 == WordAt(s.mem, Slot(BlockOf(s, ins).start, ListOf(ins), k), s.be)
  {
    hide Listed, BlockOf, Slot, WordAt;
  }

  /** The two results in terms of the cells: x of the code, y of the manual. */
  ghost predicate Loads(s: State, ins: Word, x: Cells, y: Cells)
    requires BlockInside(s, ins) && Accessible(|s.mem|, ListOf(ins), BlockOf(s, ins).start)
  {
    var list, start, b := ListOf(ins), BlockOf(s, ins).start, CurrentBank(s);
    && (forall k: GReg :: Listed(list, k) ==>
          x[Cell(k, b)] == WordAt(s.mem, Slot(start, list, k), s.be) && y[Cell(k, BANK_USR)] == WordOf(s, list, start, k))
    && (forall c :: 0 <= c < 37 && Spared(c, b, list, 16) ==> x[c] == s.cells[c])
    && (forall c :: 0 <= c < 37 && Spared(c, BANK_USR, list, 16) ==> y[c] == s.cells[c])
  }

  /** A register of one bank is another bank's register only under the same name. */
  lemma OwnCells(k: GReg, b: Bank, list: nat)
    requires !Shared(k, b, BANK_USR)
    ensures Spared(Cell(k, b), BANK_USR, list, 16) && Spared(Cell(k, BANK_USR), b, list, 16)
  {
    hide Listed, Shared;
    forall j: GReg ensures Cell(j, BANK_USR) != Cell(k, b) && Cell(j, b) != Cell(k, BANK_USR) {
      CellsIdentify(k, b, j, BANK_USR);
      CellsIdentify(j, b, k, BANK_USR);
    }
    hide Cell;
  }

  /** What the two results say of register k. */
  lemma TargetCells(s: State, ins: Word, x: Cells, y: Cells, k: GReg)
    requires BlockInside(s, ins) && Accessible(|s.mem|, ListOf(ins), BlockOf(s, ins).start)
    requires Loads(s, ins, x, y) && Listed(ListOf(ins), k)
    ensures var b := CurrentBank(s);
            SameTarget(s, ins, k) <==> x[Cell(k, b)] == y[Cell(k, b)] && x[Cell(k, BANK_USR)] == y[Cell(k, BANK_USR)]
  {
    hide Listed, BlockOf, WordAt, Slot, BankOf, Cell, Shared, Accessible, WordOf, BlockInside, Spared;
    var b := CurrentBank(s);
    CellsIdentify(k, b, k, BANK_USR);
    if !Shared(k, b, BANK_USR) { OwnCells(k, b, ListOf(ins)); }
  }

  lemma SameLoads(s: State, ins: Word, x: Cells, y: Cells)
    requires BlockInside(s, ins) && Accessible(|s.mem|, ListOf(ins), BlockOf(s, ins).start)
    requires Loads(s, ins, x, y)
    ensures x == y <==> forall k: GReg :: Listed(ListOf(ins), k) ==> SameTarget(s, ins, k)
  {
    hide Listed, BlockOf, WordAt, Slot, BankOf, Cell, Accessible, WordOf, BlockInside, SameTarget;
    var list, b := ListOf(ins), CurrentBank(s);
    if x == y {
      forall k: GReg | Listed(list, k) ensures SameTarget(s, ins, k) { TargetCells(s, ins, x, y, k); }
    } else {
      var c :| 0 <= c < 37 && x[c] != y[c];
      if !Spared(c, b, list, 16) {
        var k: GReg :| Listed(list, k) && Cell(k, b) == c;
        TargetCells(s, ins, x, y, k);
      } else if !Spared(c, BANK_USR, list, 16) {
        var k: GReg :| Listed(list, k) && Cell(k, BANK_USR) == c;
        TargetCells(s, ins, x, y, k);
      }
    }
  }

  // ---------------------------------------------------------------- store

  /** A register as user mode reads it. */
  function UserReg(s: State, k: GReg): Word {
    if k == PC then ReadReg(s, PC) else s.cells[Cell(k, BANK_USR)]
  }

  /** Memory with the words of the registers below n stored. */
  ghost function StoredWords(s: State, list: nat, start: Word, n: nat): (m: Bytes)
    requires Accessible(|s.mem|, list, start) && n <= 16
    ensures |m| == |s.mem|
  {
    if n == 0 then s.mem
    else
      var m := StoredWords(s, list, start, n - 1);
      if Listed(list, n - 1) then PutWord(m, Aligned(Slot(start, list, n - 1)), UserReg(s, n - 1), s.be) else m
  }

  ghost function ManualUserStore(s: State, ins: Word): Manual {
    var list, start := ins % 0x1_0000, StartAddress(s, ins);
    if !Accessible(|s.mem|, list, start) then Aborts
    else Becomes(s.(mem := StoredWords(s, list, start, 16)))
  }

  lemma {:induction false} StoredWordsAre(s: State, list: nat, start: Word, n: nat)
    requires Accessible(|s.mem|, list, start) && n <= 16 && start % 4 == 0 && |s.mem| <= 0x1_0000_0000
    requires SlotsInside(|s.mem|, list, 0, start)
    ensures var m := StoredWords(s, list, start, n);
            && (forall k: GReg :: k < n && Listed(list, k) ==> WordAt(m, Slot(start, list, k), s.be) == UserReg(s, k))
            && (forall x :: 0 <= x < |s.mem| && Outside(list, 0, start, x) ==> m[x] == s.mem[x])
  {
    hide Slot, Accessible, WordAt, PutWord, UserReg, Listed, Aligned;
    if n > 0 {
      StoredWordsAre(s, list, start, n - 1);
      if Listed(list, n - 1) {
        var a, m := Slot(start, list, n - 1), StoredWords(s, list, start, n - 1);
        AlignedSlot(start, list, n - 1);
        var m' := PutWord(m, a, UserReg(s, n - 1), s.be);
        forall k: GReg | k < n - 1 && Listed(list, k)
          ensures WordAt(m', Slot(start, list, k), s.be) == WordAt(m, Slot(start, list, k), s.be)
        {
          SlotsDisjoint(start, list, k, n - 1);
          ReadElsewhere(m, a, UserReg(s, n - 1), s.be, Slot(start, list, k));
        }
      }
    }
  }

  /**
   From a word boundary, the store is the manual's if and only if its block is inside memory and
   each register listed holds the same in the current mode as in user mode.
   */
  lemma UserStoreIsArchitectural(s: State, ins: Word, junk: Word)
    requires IsUserStore(ins) && BlockDefined(s, ins) && BlockOf(s, ins).start % 4 == 0
    ensures LoadStoreMultiple(s, ins, junk).Done?
    ensures Becomes(LoadStoreMultiple(s, ins, junk).s) == ManualUserStore(s, ins) <==>
            BlockInside(s, ins) && forall k: GReg :: Listed(ListOf(ins), k) ==> ReadReg(s, k) == UserReg(s, k)
  {
    hide Listed, BlockOf, LoadStoreMultiple, WordAt, Slot, Accessible, StoredWords, ReadReg, UserReg, Outside;
    StoreMultiple(s, ins, junk);
    BlockStarts(s, ins);
    var list, start := ListOf(ins), BlockOf(s, ins).start;
    AccessibleIsInside(|s.mem|, list, start);
    if BlockInside(s, ins) {
      StoredWordsAre(s, list, start, 16);
      var x, y := LoadStoreMultiple(s, ins, junk).s.mem, StoredWords(s, list, start, 16);
      if forall k: GReg :: Listed(list, k) ==> ReadReg(s, k) == UserReg(s, k) {
        SameBlock(s, list, start, x, y);
      }
    }
  }

  /** Two memories with the same words in the slots and the same bytes elsewhere. */
  lemma SameBlock(s: State, list: nat, start: Word, x: Bytes, y: Bytes)
    requires |x| == |y| == |s.mem| && SlotsInside(|s.mem|, list, 0, start)
    requires forall k: GReg :: Listed(list, k) ==>
               WordAt(x, Slot(start, list, k), s.be) == WordAt(y, Slot(start, list, k), s.be)
    requires forall i :: 0 <= i < |x| && Outside(list, 0, start, i) ==> x[i] == y[i]
    ensures x == y
  {
    hide Slot, Listed, WordAt;
    forall i | 0 <= i < |x| ensures x[i] == y[i] {
      if !Outside(list, 0, start, i) {
        var k: nat :| k < 16 && Listed(list, k) && Slot(start, list, k) <= i < Slot(start, list, k) + 4;
        BytesOfWord(x, y, Slot(start, list, k), s.be);
      }
    }
  }

  /** A register reads alike when user mode shares it, and otherwise exactly when the two cells agree. */
  lemma ReadsAlike(s: State, k: GReg)
    ensures ReadReg(s, k) == UserReg(s, k) <==>
            Shared(k, CurrentBank(s), BANK_USR) || s.cells[Cell(k, CurrentBank(s))] == s.cells[Cell(k, BANK_USR)]
  {
    CellsIdentify(k, CurrentBank(s), k, BANK_USR);
    hide BankOf;
  }
}
