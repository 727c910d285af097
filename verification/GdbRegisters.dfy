/**
 The register commands of gdb_protocol.c: `g` dumps the registers, `G` writes them.

 A dump is sixteen words for R0-R15 as the current mode sees them, twenty-five absent floating
 point words, and CPSR.
 */
module GdbRegisters {
  import opened Words
  import opened MemoryUnit
  import opened RegisterFile
  import opened ArmCore
  import opened HexText
  import opened Packets

  const DUMP_SIZE: int := 336

  /** `registers_read` and `registers_write` in the current mode: PC is not adjusted. */
  function Raw(s: State, r: GReg): Word {
    s.cells[Cell(r, CurrentBank(s))]
  }

  function Dumped(s: State, n: nat): (t: Bytes)
    requires n <= 16
    ensures |t| == 8 * n && NulFree(t)
  {
    if n == 0 then [] else Dumped(s, n - 1) + HexWord(Raw(s, n - 1))
  }

  function Absent(): Bytes {
    seq(200, _ => 120)
  }

  function Dump(s: State): (t: Bytes)
    ensures |t| == DUMP_SIZE && NulFree(t)
  {
    Dumped(s, 16) + Absent() + HexWord(Cpsr(s))
  }

  /** The eight digits of field k, and the fields `G` reads. */
  function Field(data: Bytes, k: nat): Bytes
    requires 8 * k + 8 <= |data|
  {
    data[8 * k..8 * k + 8]
  }

  predicate Readable(data: Bytes) {
    && |data| >= DUMP_SIZE && AllDigits(Field(data, 41))
    && forall k :: 0 <= k < 16 ==> AllDigits(Field(data, k))
  }

  function WrittenUpTo(s: State, data: Bytes, n: nat): State
    requires Readable(data) && n <= 16
  {
    if n == 0 then s else WriteReg(WrittenUpTo(s, data, n - 1), n - 1, ParseWord(Field(data, n - 1)))
  }

  /** The registers are written in the mode the processor is in before CPSR is. */
  function Load(s: State, data: Bytes): State
    requires Readable(data)
  {
    SetCpsr(WrittenUpTo(s, data, 16), ParseWord(Field(data, 41)))
  }

  // ---------------------------------------------------------------- the C functions

  /** `read_general_registers`, gdb_protocol.c:270. */
  method ReadGeneralRegisters(p: Core, link: Link)
    requires p.Valid() && link.packet.Length == MAX_PACKET_SIZE
    requires (link.packet as object) != p.reg.data && link.packet != p.mem.data
      && (link as object) != p && (link.packet as object) != p.reg.ptrs
    modifies link, link.packet
    ensures link.len == DUMP_SIZE + 4 && link.packet[..link.len] == Frame(Dump(p.View()))
  {
    ghost var s := p.View();
    hide HexWord, Frame;
    var position := 1;
    for i := 0 to 16
      invariant position == 1 + 8 * i && p.Valid() && p.View() == s
      invariant link.packet[1..position] == Dumped(s, i)
    {
      var m := p.reg.GetMode();
      var v := p.reg.Read(i, m);
      Print(link.packet, position, HexWord(v));
      position := position + 8;
    }
    Print(link.packet, position, Absent());
    var cpsr := p.ReadCpsr();
    Print(link.packet, position + 200, HexWord(cpsr));
    link.SendBuffer(Dump(s));
  }

  /** `write_general_registers`, gdb_protocol.c:375. */
  method WriteGeneralRegisters(p: Core, link: Link, data: Bytes)
    requires p.Valid() && link.packet.Length == MAX_PACKET_SIZE && Readable(data)
    requires (link.packet as object) != p.reg.data && link.packet != p.mem.data
      && (link as object) != p && (link.packet as object) != p.reg.ptrs
    modifies p.reg.data, link, link.packet
    ensures p.View() == Load(old(p.View()), data)
    ensures link.len == 6 && link.packet[..link.len] == Frame(OK_TEXT)
  {
    ghost var s := p.View();
    for i := 0 to 16
      invariant p.Valid() && p.View() == WrittenUpTo(s, data, i)
    {
      p.WriteRegister(i, ParseWord(Field(data, i)));
    }
    p.WriteCpsr(ParseWord(Field(data, 41)));
    ghost var t := p.View();
    link.SendData(OK_TEXT);
    assert p.View() == t;
  }

  // ---------------------------------------------------------------- properties

  lemma {:induction false} DumpedField(s: State, n: nat, k: nat)
    requires k < n <= 16
    ensures Dumped(s, n)[8 * k..8 * k + 8] == HexWord(Raw(s, k))
  {
    if k < n - 1 {
      DumpedField(s, n - 1, k);
      assert Dumped(s, n)[8 * k..8 * k + 8] == Dumped(s, n - 1)[8 * k..8 * k + 8];
    }
  }

  /** Eight digits for each of R0 to R15 in turn, 200 times `x`, and the eight digits of CPSR. */
  lemma DumpIs(s: State, r: GReg)
    ensures Dump(s)[8 * r..8 * r + 8] == HexWord(s.cells[Cell(r, CurrentBank(s))])
    ensures Dump(s)[328..] == HexWord(s.cells[31])
    ensures forall k :: 128 <= k < 328 ==> Dump(s)[k] == 'x' as int
  {
    DumpedField(s, 16, r);
    assert Dump(s)[8 * r..8 * r + 8] == Dumped(s, 16)[8 * r..8 * r + 8];
    hide HexWord, Cell, BankOf;
  }

  /** Every field of a dump reads back as the register it shows. */
  lemma DumpReadable(s: State)
    ensures Readable(Dump(s)) && ParseWord(Field(Dump(s), 41)) == Cpsr(s)
    ensures forall r: GReg :: ParseWord(Field(Dump(s), r)) == Raw(s, r)
  {
    var t := Dump(s);
    assert Field(t, 41) == HexWord(Cpsr(s));
    HexWordParses(Cpsr(s));
    hide HexWord, ParseWord;
    forall r: GReg ensures AllDigits(Field(t, r)) && ParseWord(Field(t, r)) == Raw(s, r) {
      DumpedField(s, 16, r);
      assert Field(t, r) == Dumped(s, 16)[8 * r..8 * r + 8];
      HexWordParses(Raw(s, r));
    }
  }

  /** What the writes leave in each cell. */
  lemma {:induction false} WrittenCells(s: State, data: Bytes, n: nat)
    requires Readable(data) && n <= 16
    ensures var t, b := WrittenUpTo(s, data, n), CurrentBank(s);
            && t == s.(cells := t.cells) && Cpsr(t) == Cpsr(s)
            && (forall r: GReg :: r < n ==> t.cells[Cell(r, b)] == ParseWord(Field(data, r)))
            && (forall c | 0 <= c < 37 :: (forall r: GReg :: r < n ==> Cell(r, b) != c) ==> t.cells[c] == s.cells[c])
  {
    if n > 0 {
      WrittenCells(s, data, n - 1);
      var b := CurrentBank(s);
      forall r: GReg | r < n - 1 ensures Cell(r, b) != Cell(n - 1, b) {
        CellsIdentify(r, b, n - 1, b);
      }
      hide BankOf, ParseWord;
    }
  }

  /** Loading one's own dump changes nothing, in any mode. */
  lemma DumpThenLoad(s: State)
    ensures Readable(Dump(s)) && Load(s, Dump(s)) == s
  {
    DumpReadable(s);
    WrittenCells(s, Dump(s), 16);
    hide Dump, ParseWord, Readable, WrittenUpTo, BankOf, Cell;
    var t := Load(s, Dump(s));
    forall c | 0 <= c < 37 ensures t.cells[c] == s.cells[c] {
      if r: GReg :| Cell(r, CurrentBank(s)) == c {
        assert t.cells[c] == Raw(s, r);
      }
    }
    assert t.cells == s.cells;
  }

  /**
   A dump after a load.  CPSR shows what was written.  Register r shows what was written
   exactly when the old and the new bank share it, or its cell in the new bank happened to
   hold that value: otherwise the dump shows the new bank's register, untouched.
   */
  lemma LoadThenDump(s: State, data: Bytes, r: GReg)
    requires Readable(data)
    ensures var v, b, b' := Load(s, data), CurrentBank(s), CurrentBank(Load(s, data));
            && Cpsr(v) == ParseWord(Field(data, 41)) && b' == BankOf(Cpsr(v) % 64)
            && Raw(v, r) == (if Shared(r, b, b') then ParseWord(Field(data, r)) else s.cells[Cell(r, b')])
            && Field(Dump(v), r) == HexWord(Raw(v, r)) && Field(Dump(v), 41) == HexWord(Cpsr(v))
  {
    WrittenCells(s, data, 16);
    var v, b := Load(s, data), CurrentBank(s);
    var b' := CurrentBank(v);
    DumpedField(v, 16, r);
    assert Field(Dump(v), r) == Dumped(v, 16)[8 * r..8 * r + 8];
    assert Field(Dump(v), 41) == HexWord(Cpsr(v));
    hide ParseWord, HexWord, BankOf, WrittenUpTo, Readable, Cell, Shared, Dump;
    CellsIdentify(r, b', r, b);
    SharedIsSymmetric(r, b, b');
    forall r': GReg ensures Cell(r', b) == Cell(r, b') <==> r' == r && Shared(r, b, b') {
      CellsIdentify(r', b, r, b');
    }
    forall r': GReg ensures Cell(r', b) != 31 { CellsIdentify(r', b, CPSR, b); }
    CellsIdentify(r, b', CPSR, b');
    CpsrCell(b);
    CpsrCell(b');
  }

  lemma SharedIsSymmetric(r: Reg, b: Bank, b': Bank)
    ensures Shared(r, b, b') == Shared(r, b', b)
  {
  }
}
