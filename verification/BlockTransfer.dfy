/**
 arm_load_store.c:542-624: load and store multiple, and what they do to memory.

 `LoadStoreMultiple` is the effect of the instruction on a state, `Perform` the method with
 the loops of the C code.  `Slot` is the layout section A5.4 of DDI 0100 prescribes, and
 `StoreLayout` and `LoadLayout` prove that the running address of the loop follows it.
 */
module BlockTransfer {
  import opened Words
  import opened Bitwise
  import opened MemoryUnit
  import opened RegisterFile
  import opened ArmCore
  import opened Encoding

  /** Bit i of a register list. */
  predicate Listed(list: nat, i: nat)
    decreases i
  {
    if i == 0 then list % 2 == 1 else Listed(list / 2, i - 1)
  }

  /** How many registers below i are listed. */
  function Count(list: nat, i: nat): (n: nat)
    ensures n <= i
  {
    if i == 0 then 0 else Count(list, i - 1) + (if Listed(list, i - 1) then 1 else 0)
  }

  function ListOf(ins: Word): (list: nat) ensures list < 0x1_0000 { ins % 0x1_0000 }

  /** First address, last address and written-back base of the four addressing modes. */
  datatype Range = Range(start: Word, end: Word, writeback: Word)

  function RangeOf(p: bool, u: bool, rn: Word, n: nat): Range {
    if !p && u then Range(rn, Add(rn, 4 * n - 4), Add(rn, 4 * n))
    else if p && u then Range(Add(rn, 4), Add(rn, 4 * n), Add(rn, 4 * n))
    else if !p then Range(Add(rn, 4 - 4 * n), rn, Add(rn, -4 * n))
    else Range(Add(rn, -4 * n), Add(rn, -4), Add(rn, -4 * n))
  }

  datatype Progress = Moved(s: State, address: Word, data: Word) | Stuck

  /**
   The transfers from register i on.  A failed read is not reported: the register gets what
   the C variable `data` last held.
   */
  function TransferFrom(s: State, load: bool, list: nat, i: nat, address: Word, data: Word): Progress
    requires i <= 16
    decreases 16 - i
  {
    if i == 16 then Moved(s, address, data)
    else if !Listed(list, i) then TransferFrom(s, load, list, i + 1, address, data)
    else if load then
      if !WordDefined(s.mem, address) then Stuck
      else
        var d := if address < |s.mem| then WordAt(s.mem, address, s.be) else data;
        var d' := if i == 15 then d - d % 4 else d;
        TransferFrom(WriteReg(s, i, d'), load, list, i + 1, Add(address, 4), d')
    else
      match StoreWord(s, address, ReadReg(s, i))
      case Undefined => Stuck
      case Done(t, _) => TransferFrom(t, load, list, i + 1, Add(address, 4), data)
  }

  function LoadStoreMultiple(s: State, ins: Word, junk: Word): Outcome {
    var list := ListOf(ins);
    var range := RangeOf(Bit24(ins), Bit23(ins), ReadReg(s, RnOf(ins)), Count(list, 16));
    match TransferFrom(s, Bit20(ins), list, 0, range.start, junk)
    case Stuck => Undefined
    case Moved(t, _, _) =>
      var restores := Bit20(ins) && Bit22(ins) && Listed(list, 15);
      if restores && !HasSpsr(CurrentBank(t)) then Undefined
      else
        var t' := if restores then SetCpsr(t, Spsr(t)) else t;
        Done(if Bit21(ins) then WriteReg(t', RnOf(ins), range.writeback) else t', 0)
  }

  lemma CountStep(list: nat, i: nat)
    ensures Count(list, i + 1) == Count(list, i) + if Listed(list, i) then 1 else 0
  {
  }

  lemma MaskLow2(d: Word)
    ensures And(d, 0xFFFF_FFFC) == d - d % 4
  {
    AndHighMask(d, 2, 32);
    WholeWord(d);
    assert Pow2(2) == 4;
    assert Low(d, 2) == d % 4;
    hide AndBits, Pow2, Low;
  }

  lemma SkipUnlisted(s: State, load: bool, list: nat, i: nat, address: Word, data: Word)
    requires i < 16 && !Listed(list, i)
    ensures TransferFrom(s, load, list, i, address, data) == TransferFrom(s, load, list, i + 1, address, data)
  {
  }

  lemma AllTransferred(s: State, load: bool, list: nat, address: Word, data: Word)
    ensures TransferFrom(s, load, list, 16, address, data) == Moved(s, address, data)
  {
  }

  /** One turn of the loop at arm_load_store.c:589-613, for a listed register. */
  method TransferOne(p: Core, load: bool, ghost list: nat, i: GReg, address: Word, data: Word)
    returns (data': Word)
    requires p.Valid() && Listed(list, i)
    requires TransferFrom(p.View(), load, list, i, address, data).Moved?
    modifies p.reg.data, p.mem.data
    ensures TransferFrom(p.View(), load, list, i + 1, Add(address, 4), data')
         == TransferFrom(old(p.View()), load, list, i, address, data)
  {
    hide WordAt, PutWord, And, Cell, BankOf, ClearBit1;
    data' := data;
    if load {
      var err, word := p.ReadWord(address);
      if err == OK { data' := word; }
      if i == 15 {
        MaskLow2(data');
        data' := And(data', 0xFFFF_FFFC);
      }
      p.WriteRegister(i, data');
    } else {
      var value := p.ReadRegister(i);
      var _ := p.WriteWord(address, value);
    }
  }

  /** `arm_load_store_multiple`. */
  method Perform(p: Core, ins: Word, junk: Word) returns (code: int)
    requires p.Valid() && LoadStoreMultiple(p.View(), ins, junk).Done?
    modifies p.reg.data, p.mem.data
    ensures LoadStoreMultiple(old(p.View()), ins, junk) == Done(p.View(), code)
  {
    hide TransferFrom, Add, Listed, Count;
    ghost var s := p.View();
    var list, rn := ListOf(ins), RnOf(ins);
    var base := p.ReadRegister(rn);
    var n := 0;
    for i := 0 to 16
      invariant n == Count(list, i)
      invariant p.View() == s
    {
      CountStep(list, i);
      if Listed(list, i) { n := n + 1; }
    }
    var range := RangeOf(Bit24(ins), Bit23(ins), base, n);
    var address, data := range.start, junk;
    for i := 0 to 16
      invariant TransferFrom(p.View(), Bit20(ins), list, i, address, data)
             == TransferFrom(s, Bit20(ins), list, 0, range.start, junk)
    {
      if Listed(list, i) {
        data := TransferOne(p, Bit20(ins), list, i, address, data);
        address := Add(address, 4);
      } else {
        SkipUnlisted(p.View(), Bit20(ins), list, i, address, data);
      }
    }
    AllTransferred(p.View(), Bit20(ins), list, address, data);
    if Bit20(ins) && Bit22(ins) && Listed(list, 15) {
      var spsr := p.ReadSpsr();
      p.WriteCpsr(spsr);
    }
    if Bit21(ins) {
      p.WriteRegister(rn, range.writeback);
    }
    code := 0;
  }

  // ---------------------------------------------------------------- layout

  /** Where register i goes: one word per listed register below it, from the start up. */
  function Slot(start: Word, list: nat, i: nat): Word {
    Add(start, 4 * Count(list, i))
  }

  lemma {:induction false} CountMonotone(list: nat, i: nat, j: nat)
    requires i <= j
    ensures Count(list, i) <= Count(list, j) <= Count(list, i) + j - i
    decreases j
  {
    if i < j { CountMonotone(list, i, j - 1); }
  }

  /** Two listed registers never share a byte of memory, and the lower one comes first. */
  lemma SlotsDisjoint(start: Word, list: nat, i: nat, j: nat)
    requires i < j < 16 && Listed(list, i) && Listed(list, j)
    requires Slot(start, list, i) <= 0xFFFF_FFFC && Slot(start, list, j) <= 0xFFFF_FFFC
    ensures Slot(start, list, i) + 4 <= Slot(start, list, j) || Slot(start, list, j) + 4 <= Slot(start, list, i)
    ensures Count(list, i) < Count(list, j)
  {
    CountStep(list, i);
    CountMonotone(list, i + 1, j);
    CountMonotone(list, i, j);
    WrapApart(start, 4 * Count(list, i), 4 * Count(list, j));
  }

  /** Every listed register from i on has its whole word inside memory. */
  ghost predicate SlotsInside(size: nat, list: nat, i: nat, start: Word) {
    forall k: nat :: i <= k < 16 && Listed(list, k) ==> Slot(start, list, k) + 3 < size
  }

  /** Every listed register from i on has its word inside memory or its first byte outside. */
  ghost predicate SlotsDefined(size: nat, list: nat, i: nat, start: Word) {
    forall k: nat :: i <= k < 16 && Listed(list, k) ==>
      Slot(start, list, k) >= size || Slot(start, list, k) + 3 < size
  }

  /** Byte x belongs to no slot of a register from i on. */
  ghost predicate Outside(list: nat, i: nat, start: Word, x: int) {
    forall k: nat :: i <= k < 16 && Listed(list, k) ==> x < Slot(start, list, k) || Slot(start, list, k) + 4 <= x
  }

  lemma OutsideTheOthers(size: nat, list: nat, i: nat, start: Word, x: int)
    requires i < 16 && Listed(list, i) && SlotsDefined(size, list, i, start) && size <= 0x1_0000_0000
    requires Slot(start, list, i) <= x < Slot(start, list, i) + 4 && x < size
    ensures Outside(list, i + 1, start, x)
  {
    hide Slot;
    forall k: nat | i + 1 <= k < 16 && Listed(list, k)
      ensures x < Slot(start, list, k) || Slot(start, list, k) + 4 <= x
    {
      if Slot(start, list, k) < size { SlotsDisjoint(start, list, i, k); }
    }
  }

  lemma NextSlot(start: Word, list: nat, i: nat)
    ensures Slot(start, list, i + 1) == if Listed(list, i) then Add(Slot(start, list, i), 4) else Slot(start, list, i)
  {
    CountStep(list, i);
    AddAdd(start, 4 * Count(list, i), 4);
    hide Add;
  }

  /** The C program stays defined exactly when no word of the block straddles the end of memory. */
  lemma {:induction false} DefinedWhen(s: State, load: bool, list: nat, i: nat, start: Word, data: Word)
    requires i <= 16
    ensures TransferFrom(s, load, list, i, Slot(start, list, i), data).Moved? <==>
            SlotsDefined(|s.mem|, list, i, start)
    decreases 16 - i
  {
    hide Slot, Add, WordAt, PutWord, Cell, ReadReg;
    if i < 16 {
      NextSlot(start, list, i);
      var a := Slot(start, list, i);
      if !Listed(list, i) {
        DefinedWhen(s, load, list, i + 1, start, data);
      } else if load {
        if WordDefined(s.mem, a) {
          var d := if a < |s.mem| then WordAt(s.mem, a, s.be) else data;
          var d' := if i == 15 then d - d % 4 else d;
          DefinedWhen(WriteReg(s, i, d'), load, list, i + 1, start, d');
        }
      } else {
        var o := StoreWord(s, a, ReadReg(s, i));
        if o.Done? { DefinedWhen(o.s, load, list, i + 1, start, data); }
      }
    }
  }

  /** Storing from register i on writes each word whose slot is in memory, and nothing else. */
  lemma {:induction false} StoreLayout(s: State, list: nat, i: nat, start: Word, data: Word)
    requires i <= 16 && |s.mem| <= 0x1_0000_0000 && SlotsDefined(|s.mem|, list, i, start)
    ensures var r := TransferFrom(s, false, list, i, Slot(start, list, i), data);
            && r.Moved? && r.address == Slot(start, list, 16)
            && r.s == s.(mem := r.s.mem) && |r.s.mem| == |s.mem|
            && (forall k: GReg :: i <= k && Listed(list, k) && Slot(start, list, k) < |s.mem| ==>
                  Slot(start, list, k) + 3 < |s.mem|
                  && WordAt(r.s.mem, Slot(start, list, k), s.be) == ReadReg(s, k))
            && (forall x :: 0 <= x < |s.mem| && Outside(list, i, start, x) ==> r.s.mem[x] == s.mem[x])
    decreases 16 - i
  {
    hide Slot, Add;
    if i < 16 {
      NextSlot(start, list, i);
      var a := Slot(start, list, i);
      if Listed(list, i) && a < |s.mem| {
        var t := s.(mem := PutWord(s.mem, a, ReadReg(s, i), s.be));
        StoreLayout(t, list, i + 1, start, data);
        var r := TransferFrom(t, false, list, i + 1, Slot(start, list, i + 1), data);
        OutsideTheOthers(|s.mem|, list, i, start, a);
        OutsideTheOthers(|s.mem|, list, i, start, a + 1);
        OutsideTheOthers(|s.mem|, list, i, start, a + 2);
        OutsideTheOthers(|s.mem|, list, i, start, a + 3);
        assert WordAt(r.s.mem, a, s.be) == WordAt(t.mem, a, s.be);
      } else {
        StoreLayout(s, list, i + 1, start, data);
      }
    }
  }

  /** What register k receives from its slot; a loaded PC has its low two bits cleared. */
  function Loaded(s: State, list: nat, start: Word, k: GReg): Word
    requires Slot(start, list, k) + 3 < |s.mem|
  {
    var w := WordAt(s.mem, Slot(start, list, k), s.be);
    if k == PC then w - w % 4 else w
  }

  /**
   What the C variable `data` holds once the registers below k are loaded: the word of the
   last of them whose slot is in memory, and at first whatever it held before.
   */
  function Held(m: Bytes, be: bool, list: nat, start: Word, k: nat, before: Word): Word {
    if k == 0 then before
    else if Listed(list, k - 1) && Slot(start, list, k - 1) + 3 < |m| then WordAt(m, Slot(start, list, k - 1), be)
    else Held(m, be, list, start, k - 1, before)
  }

  /** What register k receives, from its slot or, when that is outside memory, from `data`. */
  function Received(s: State, list: nat, start: Word, k: GReg, before: Word): Word {
    var w := Held(s.mem, s.be, list, start, k + 1, before);
    if k == PC then w - w % 4 else w
  }

  lemma ReceivedInside(s: State, list: nat, start: Word, k: GReg, before: Word)
    requires Listed(list, k) && Slot(start, list, k) + 3 < |s.mem|
    ensures Received(s, list, start, k, before) == Loaded(s, list, start, k)
  {
  }

  /** Loading from register i on fills each listed register and no other cell. */
  lemma {:induction false} LoadLayout(s: State, list: nat, i: nat, start: Word, before: Word)
    requires i <= 16 && SlotsDefined(|s.mem|, list, i, start)
    ensures var r := TransferFrom(s, true, list, i, Slot(start, list, i), Held(s.mem, s.be, list, start, i, before));
            && r.Moved? && r.address == Slot(start, list, 16)
            && r.s == s.(cells := r.s.cells)
            && (forall k: GReg :: i <= k && Listed(list, k) ==>
                  r.s.cells[Cell(k, CurrentBank(s))] == Received(s, list, start, k, before))
            && (forall c :: 0 <= c < 37 && (forall k: GReg :: i <= k && Listed(list, k) ==> Cell(k, CurrentBank(s)) != c)
                  ==> r.s.cells[c] == s.cells[c])
    decreases 16 - i
  {
    hide Slot, Add, WordAt, BankOf;
    if i < 16 {
      NextSlot(start, list, i);
      if Listed(list, i) {
        var t := WriteReg(s, i, Received(s, list, start, i, before));
        if i < 15 {
          LoadLayout(t, list, i + 1, start, before);
        } else {
          AllTransferred(t, true, list, Slot(start, list, 16), Received(s, list, start, i, before));
        }
        forall k: GReg | i + 1 <= k ensures Cell(k, CurrentBank(s)) != Cell(i, CurrentBank(s)) {
          CellsIdentify(i, CurrentBank(s), k, CurrentBank(s));
        }
        CellsIdentify(i, CurrentBank(s), CPSR, CurrentBank(s));
      } else {
        LoadLayout(s, list, i + 1, start, before);
      }
    }
  }

  /** For a nonempty list the address past the last slot is four past the C code's `end_address`. */
  lemma RunsToTheEnd(p: bool, u: bool, rn: Word, list: nat)
    ensures var r := RangeOf(p, u, rn, Count(list, 16));
            Slot(r.start, list, 16) == Add(r.end, 4)
  {
    var n: int := Count(list, 16);
    if !p && u { AddAdd(rn, 4 * n - 4, 4); }
    else if p && u { AddAdd(rn, 4 * n, 4); AddAdd(rn, 4, 4 * n); }
    else if !p { AddAdd(rn, 4 - 4 * n, 4 * n); }
    else { AddAdd(rn, -4 * n, 4 * n); AddAdd(rn, -4, 4); }
    hide Add, Count;
  }
}
