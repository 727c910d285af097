/**
 A store multiple and the load multiple that takes it back.

 `StoreMultiple` and `LoadMultiple` carry the layout over to the whole instruction;
 `StoreThenLoad` is the inverse law for all four addressing modes.
 */
module BlockInverse {
  import opened Words
  import opened MemoryUnit
  import opened RegisterFile
  import opened ArmCore
  import opened Encoding
  import opened BlockTransfer

  /** The block an instruction transfers in a state. */
  function BlockOf(s: State, ins: Word): Range {
    RangeOf(Bit24(ins), Bit23(ins), ReadReg(s, RnOf(ins)), Count(ListOf(ins), 16))
  }

  /** The whole block is inside memory. */
  ghost predicate BlockInside(s: State, ins: Word) {
    |s.mem| <= 0x1_0000_0000 && SlotsInside(|s.mem|, ListOf(ins), 0, BlockOf(s, ins).start)
  }

  function WrittenBack(s: State, ins: Word, base: Word): State {
    if Bit21(ins) then WriteReg(s, RnOf(ins), base) else s
  }

  predicate IsStore(ins: Word) {
    !Bit20(ins)
  }

  /** A load that does not ask for the SPSR. */
  predicate IsPlainLoad(ins: Word) {
    Bit20(ins) && !(Bit22(ins) && Listed(ListOf(ins), 15))
  }

  /** No word of the block straddles the end of memory. */
  ghost predicate BlockDefined(s: State, ins: Word) {
    |s.mem| <= 0x1_0000_0000 && SlotsDefined(|s.mem|, ListOf(ins), 0, BlockOf(s, ins).start)
  }

  /** What a store multiple does: each listed register in its slot, no other byte, the base. */
  lemma StoreMultiple(s: State, ins: Word, junk: Word)
    requires IsStore(ins) && BlockDefined(s, ins)
    ensures var o := LoadStoreMultiple(s, ins, junk);
            var list, start := ListOf(ins), BlockOf(s, ins).start;
            && o.Done? && o.code == 0
            && |o.s.mem| == |s.mem|
            && o.s == WrittenBack(s.(mem := o.s.mem), ins, BlockOf(s, ins).writeback)
            && (forall k: GReg :: Listed(list, k) && Slot(start, list, k) < |s.mem| ==>
                  Slot(start, list, k) + 3 < |s.mem| && WordAt(o.s.mem, Slot(start, list, k), s.be) == ReadReg(s, k))
            && (forall x :: 0 <= x < |s.mem| && Outside(list, 0, start, x) ==> o.s.mem[x] == s.mem[x])
  {
    var list, start := ListOf(ins), BlockOf(s, ins).start;
    StoreLayout(s, list, 0, start, junk);
    SlotOfNone(start, list);
    hide Slot, TransferFrom, Outside, WordAt, RangeOf, Listed;
    var r := TransferFrom(s, false, list, 0, start, junk);
    var o := LoadStoreMultiple(s, ins, junk);
    assert o.s.mem == r.s.mem;
  }

  /**
   What a load multiple does: each listed register but the base from its slot.  No failure is
   reported; a register whose slot is outside memory receives what `Received` says.
   */
  lemma LoadMultiple(s: State, ins: Word, junk: Word)
    requires IsPlainLoad(ins) && BlockDefined(s, ins)
    ensures var o := LoadStoreMultiple(s, ins, junk);
            var list, start, b := ListOf(ins), BlockOf(s, ins).start, CurrentBank(s);
            && o.Done? && o.code == 0
            && o.s == s.(cells := o.s.cells)
            && (forall k: GReg :: Listed(list, k) && !(Bit21(ins) && k == RnOf(ins)) ==>
                  o.s.cells[Cell(k, b)] == if Slot(start, list, k) + 3 < |s.mem| then Loaded(s, list, start, k)
                                           else Received(s, list, start, k, junk))
            && (Bit21(ins) ==> o.s.cells[Cell(RnOf(ins), b)] == BlockOf(s, ins).writeback)
            && (forall c | 0 <= c < 37 && !(Bit21(ins) && c == Cell(RnOf(ins), b)) ::
                  (forall k: GReg :: Listed(list, k) ==> Cell(k, b) != c) ==> o.s.cells[c] == s.cells[c])
  {
    var list, start, b := ListOf(ins), BlockOf(s, ins).start, CurrentBank(s);
    LoadLayout(s, list, 0, start, junk);
    SlotOfNone(start, list);
    hide Slot, TransferFrom, WordAt, RangeOf, Listed, Loaded, Received;
    forall k: GReg | Listed(list, k) && Slot(start, list, k) + 3 < |s.mem|
      ensures Received(s, list, start, k, junk) == Loaded(s, list, start, k)
    {
      ReceivedInside(s, list, start, k, junk);
    }
    var r := TransferFrom(s, true, list, 0, start, junk);
    assert r.s.cells[31] == s.cells[31];
    forall k: GReg | k != RnOf(ins) ensures Cell(k, b) != Cell(RnOf(ins), b) {
      CellsIdentify(k, b, RnOf(ins), b);
    }
  }

  lemma SlotOfNone(start: Word, list: nat)
    ensures Slot(start, list, 0) == start
  {
  }

  /** `ld` loads what `st` stores: same base and list, P and U flipped, both write back. */
  predicate Undoes(st: Word, ld: Word) {
    && IsStore(st) && Bit20(ld) && Bit21(st) && Bit21(ld)
    && ListOf(st) == ListOf(ld) && RnOf(st) == RnOf(ld)
    && Bit24(st) != Bit24(ld) && Bit23(st) != Bit23(ld)
  }

  /** Two memories agree on the words of a block. */
  ghost predicate SameWords(m: Bytes, m': Bytes, be: bool, list: nat, start: Word) {
    && |m| == |m'|
    && forall k: GReg :: Listed(list, k) && Slot(start, list, k) + 3 < |m| ==>
         WordAt(m, Slot(start, list, k), be) == WordAt(m', Slot(start, list, k), be)
  }

  lemma SameRange(p: bool, u: bool, rn: Word, n: nat)
    ensures var r := RangeOf(p, u, rn, n);
            var r' := RangeOf(!p, !u, r.writeback, n);
            r'.start == r.start && r'.writeback == rn
  {
    if u {
      AddAdd(rn, 4 * n, -4 * n); AddAdd(rn, 4 * n, 4 - 4 * n);
    } else {
      AddAdd(rn, -4 * n, 4 * n); AddAdd(rn, -4 * n, 4);
    }
    AddZero(rn);
    hide Add;
  }

  lemma AddZero(rn: Word)
    ensures Add(rn, 0) == rn
  {
  }

  /**
   The inverse law.  Between the two instructions anything may happen that keeps the bank,
   the base register and the words of the block; the load then restores every listed
   register and the base, and the pair changes no memory outside the block.
   */
  lemma StoreThenLoad(s: State, st: Word, t: State, ld: Word, junk: Word, junk': Word)
    requires Undoes(st, ld) && BlockInside(s, st)
    requires RnOf(st) != PC && !Listed(ListOf(st), 15) && !Listed(ListOf(st), RnOf(st))
    requires var s1 := LoadStoreMultiple(s, st, junk);
             && s1.Done?
             && CurrentBank(t) == CurrentBank(s) && t.be == s.be
             && ReadReg(t, RnOf(st)) == ReadReg(s1.s, RnOf(st))
             && SameWords(t.mem, s1.s.mem, s.be, ListOf(st), BlockOf(s, st).start)
    ensures var o := LoadStoreMultiple(t, ld, junk');
            && o.Done? && o.code == 0
            && (forall k: GReg :: Listed(ListOf(st), k) ==> ReadReg(o.s, k) == ReadReg(s, k))
            && ReadReg(o.s, RnOf(st)) == ReadReg(s, RnOf(st))
            && o.s.mem == t.mem
    ensures var s1 := LoadStoreMultiple(s, st, junk).s;
            |s1.mem| == |s.mem| &&
            forall x :: 0 <= x < |s.mem| && Outside(ListOf(st), 0, BlockOf(s, st).start, x) ==> s1.mem[x] == s.mem[x]
  {
    StoreMultiple(s, st, junk);
    SameRange(Bit24(st), Bit23(st), ReadReg(s, RnOf(st)), Count(ListOf(st), 16));
    assert BlockOf(t, ld).start == BlockOf(s, st).start;
    LoadMultiple(t, ld, junk');
    hide LoadStoreMultiple, RangeOf, Slot, Outside, WordAt, Listed;
  }

  /** With nothing in between, the pair of instructions changes no register at all. */
  lemma StoreLoadIsIdentity(s: State, st: Word, ld: Word, junk: Word, junk': Word)
    requires Undoes(st, ld) && BlockInside(s, st)
    requires RnOf(st) != PC && !Listed(ListOf(st), 15) && !Listed(ListOf(st), RnOf(st))
    ensures var s1 := LoadStoreMultiple(s, st, junk);
            && s1.Done?
            && LoadStoreMultiple(s1.s, ld, junk') == Done(s.(mem := s1.s.mem), 0)
  {
    StoreMultiple(s, st, junk);
    var s1 := LoadStoreMultiple(s, st, junk).s;
    var b := CurrentBank(s);
    CellsIdentify(RnOf(st), b, CPSR, b);
    assert CurrentBank(s1) == b && s1.be == s.be && s1.cycles == s.cycles;
    StoreThenLoad(s, st, s1, ld, junk, junk');
    SameRange(Bit24(st), Bit23(st), ReadReg(s, RnOf(st)), Count(ListOf(st), 16));
    LoadMultiple(s1, ld, junk');
    hide LoadStoreMultiple, Slot, RangeOf, Outside, WordAt, Listed, BankOf, Cell, Loaded, Undoes;
    var o := LoadStoreMultiple(s1, ld, junk').s;
    forall c | 0 <= c < 37 ensures o.cells[c] == s.cells[c] {
      if k: GReg :| Cell(k, b) == c && (Listed(ListOf(st), k) || k == RnOf(st)) {
        assert ReadReg(o, k) == ReadReg(s, k);
      }
    }
  }
}
