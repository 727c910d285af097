/**
 The transfers of a load or store multiple as section A5.4 of DDI 0100 has them: each word at
 its slot with bits 1-0 of the address ignored, and an abort when one is not in memory.
 */
module ManualBlock {
  import opened Words
  import opened MemoryUnit
  import opened RegisterFile
  import opened ArmCore
  import opened Encoding
  import opened BlockTransfer
  import opened BlockInverse

  /**
   The first address of the block and the base written back, for the four addressing modes: up
   from the base or, with P, from the word above it; or below it, ending at the base or, with P,
   at the word below it.
   */
  function StartAddress(s: State, ins: Word): Word {
    var rn, n: int := ReadReg(s, ins / 0x1_0000 % 16), Count(ins % 0x1_0000, 16);
    (if Bit23(ins) then (if Bit24(ins) then rn + 4 else rn)
     else if Bit24(ins) then rn - 4 * n else rn - 4 * n + 4) % 0x1_0000_0000
  }

  function NewBase(s: State, ins: Word): Word {
    var rn, n: int := ReadReg(s, ins / 0x1_0000 % 16), Count(ins % 0x1_0000, 16);
    (if Bit23(ins) then rn + 4 * n else rn - 4 * n) % 0x1_0000_0000
  }

  /** The code's addresses are these. */
  lemma BlockStarts(s: State, ins: Word)
    ensures BlockOf(s, ins).start == StartAddress(s, ins) && BlockOf(s, ins).writeback == NewBase(s, ins)
  {
    hide ReadReg, Bit23, Bit24, Count;
    var rn := ReadReg(s, RnOf(ins));
    assert (rn + 0) % 0x1_0000_0000 == rn;
  }

  function Aligned(a: Word): (r: Word)
    ensures r % 4 == 0 && r <= a <= r + 3
  {
    DivModUnique(a - a % 4, 4, a / 4, 0);
    a - a % 4
  }

  /** No word of the block aborts. */
  ghost predicate Accessible(size: nat, list: nat, start: Word) {
    forall k: nat :: k < 16 && Listed(list, k) ==> Aligned(Slot(start, list, k)) + 3 < size
  }

  /** Where the code stays defined, it reads outside memory exactly when the manual aborts. */
  lemma AccessibleIsInside(size: nat, list: nat, start: Word)
    requires SlotsDefined(size, list, 0, start)
    ensures Accessible(size, list, start) <==> SlotsInside(size, list, 0, start)
  {
    hide Slot, Aligned, Listed;
    if SlotsInside(size, list, 0, start) {
      assert Accessible(size, list, start);
    } else {
      var k: nat :| k < 16 && Listed(list, k) && Slot(start, list, k) + 3 >= size;
      assert Aligned(Slot(start, list, k)) + 3 >= size;
    }
  }

  /** The word of register k. */
  ghost function WordOf(s: State, list: nat, start: Word, k: GReg): Word
    requires Accessible(|s.mem|, list, start) && Listed(list, k)
  {
    WordAt(s.mem, Aligned(Slot(start, list, k)), s.be)
  }

  /** The registers below n of a bank, loaded. */
  ghost function LoadedBank(s: State, b: Bank, list: nat, start: Word, n: nat): Cells
    requires Accessible(|s.mem|, list, start) && n <= 16
  {
    if n == 0 then s.cells
    else
      var c := LoadedBank(s, b, list, start, n - 1);
      if Listed(list, n - 1) then c[Cell(n - 1, b) := WordOf(s, list, start, n - 1)] else c
  }

  /** A cell is that of no listed register below n. */
  ghost predicate Spared(c: int, b: Bank, list: nat, n: nat) {
    forall k: GReg :: k < n && Listed(list, k) ==> Cell(k, b) != c
  }

  lemma {:induction false} LoadedBankIs(s: State, b: Bank, list: nat, start: Word, n: nat)
    requires Accessible(|s.mem|, list, start) && n <= 16
    ensures var c := LoadedBank(s, b, list, start, n);
            && (forall k: GReg :: k < n && Listed(list, k) ==> c[Cell(k, b)] == WordOf(s, list, start, k))
            && (forall i :: 0 <= i < 37 && Spared(i, b, list, n) ==> c[i] == s.cells[i])
  {
    hide Accessible, WordOf;
    if n > 0 {
      LoadedBankIs(s, b, list, start, n - 1);
      forall k: GReg | k < n - 1 ensures Cell(k, b) != Cell(n - 1, b) {
        CellsIdentify(k, b, n - 1, b);
      }
      hide Cell;
      forall i | Spared(i, b, list, n) ensures Spared(i, b, list, n - 1) && (Listed(list, n - 1) ==> Cell(n - 1, b) != i) {
      }
    }
  }

  /** From a word boundary, the slots are at word boundaries. */
  lemma AlignedSlot(start: Word, list: nat, k: nat)
    requires start % 4 == 0
    ensures Aligned(Slot(start, list, k)) == Slot(start, list, k)
  {
    var x := start + 4 * Count(list, k);
    hide Count;
    QuotientRemainder(x, 0x1_0000_0000);
    QuotientRemainder(start, 4);
    DivModUnique(Wrap(x), 4, start / 4 + Count(list, k) - x / 0x1_0000_0000 * 0x4000_0000, 0);
  }
}
