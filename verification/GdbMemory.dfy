/**
 The memory commands of gdb_protocol.c: `X` writes escaped binary data, `m` reads hexadecimal.

 The address and the size of a command, which the C code scans from its text, are parameters.
 */
module GdbMemory {
  import opened Words
  import opened Bitwise
  import opened MemoryUnit
  import opened HexText
  import opened Packets

  const ESCAPE: Byte := 0x7d
  const E02_TEXT: Bytes := [69, 48, 50]
  const E0E_TEXT: Bytes := [69, 48, 69]

  /** Exclusive or with 0x20. */
  function Flip(b: Byte): Byte {
    if b / 0x20 % 2 == 1 then b - 0x20 else b + 0x20
  }

  lemma FlipIsXor(b: Byte)
    ensures XorBits(b, 0x20) == Flip(b)
  {
    hide XorBits;
    var b1 := b / 2;
    var b2 := b1 / 2;
    var b3 := b2 / 2;
    var b4 := b3 / 2;
    var b5 := b4 / 2;
    XorDouble(b, 16); XorDouble(b1, 8); XorDouble(b2, 4); XorDouble(b3, 2); XorDouble(b4, 1);
    XorOne(b5);
    DivDiv(b, 2, 2); DivDiv(b, 4, 2); DivDiv(b, 8, 2); DivDiv(b, 16, 2);
    assert b5 == b / 0x20;
  }

  lemma FlipTwice(b: Byte)
    ensures Flip(Flip(b)) == b
  {
    var q, r := b / 0x20, b % 0x20;
    DivModUnique(Flip(b), 0x20, if q % 2 == 1 then q - 1 else q + 1, r);
  }

  lemma XorDouble(x: nat, h: nat)
    requires h > 0
    ensures XorBits(x, 2 * h) == x % 2 + 2 * XorBits(x / 2, h)
  {
    hide XorBits;
    XorHalves(x, 2 * h);
    DivModUnique(2 * h, 2, h, 0);
    QuotientRemainder(XorBits(x, 2 * h), 2);
  }

  lemma XorOne(x: nat)
    ensures XorBits(x, 1) == if x % 2 == 1 then x - 1 else x + 1
  {
    assert XorBits(x / 2, 0) == x / 2;
  }

  /** The replies, and the byte that announces an escaped one. */
  lemma Replies()
    ensures OK_TEXT == Ascii("OK") && E02_TEXT == Ascii("E02") && E0E_TEXT == Ascii("E0E")
    ensures ESCAPE == '}' as int
  {
  }

  // ---------------------------------------------------------------- escaping

  /** enc is some escaping of bytes: any byte may be escaped, and the escape byte must be. */
  ghost predicate Escapes(enc: Bytes, bytes: Bytes)
    decreases |bytes|
  {
    if bytes == [] then enc == []
    else
      || (enc != [] && enc[0] == bytes[0] != ESCAPE && Escapes(enc[1..], bytes[1..]))
      || (|enc| >= 2 && enc[0] == ESCAPE && enc[1] == Flip(bytes[0]) && Escapes(enc[2..], bytes[1..]))
  }

  /** The content goes on with a byte, plain or escaped: that byte, and what follows it. */
  predicate HasNext(content: Bytes) {
    content != [] && (content[0] == ESCAPE ==> |content| >= 2)
  }

  function Next(content: Bytes): Byte
    requires HasNext(content)
  {
    if content[0] == ESCAPE then Flip(content[1]) else content[0]
  }

  function Rest(content: Bytes): Bytes
    requires HasNext(content)
  {
    if content[0] == ESCAPE then content[2..] else content[1..]
  }

  /** The content is long enough for n bytes to be taken from it. */
  predicate Enough(content: Bytes, n: nat) {
    n == 0 || (HasNext(content) && Enough(Rest(content), n - 1))
  }

  function Unescape(content: Bytes, n: nat): (bytes: Bytes)
    requires Enough(content, n)
    ensures |bytes| == n
  {
    if n == 0 then [] else [Next(content)] + Unescape(Rest(content), n - 1)
  }

  /** Every escaping of a byte string is undone. */
  lemma {:induction false} UnescapeInverts(enc: Bytes, bytes: Bytes)
    requires Escapes(enc, bytes)
    ensures Enough(enc, |bytes|) && Unescape(enc, |bytes|) == bytes
    decreases |bytes|
  {
    if bytes != [] {
      FlipTwice(bytes[0]);
      if enc[0] == ESCAPE {
        UnescapeInverts(enc[2..], bytes[1..]);
      } else {
        UnescapeInverts(enc[1..], bytes[1..]);
      }
      hide Flip;
    }
  }

  // ---------------------------------------------------------------- writing

  datatype Written = Written(mem: Bytes, ok: bool)

  /** Bytes stored one after the other until one is outside memory. */
  function WriteBytes(m: Bytes, a: Word, bytes: Bytes): Written
    decreases |bytes|
  {
    if bytes == [] then Written(m, true)
    else if a >= |m| then Written(m, false)
    else WriteBytes(m[a := bytes[0]], Add(a, 1), bytes[1..])
  }

  /** The content does not end before the byte that cannot be written, or the last one. */
  predicate LastsUntil(size: nat, a: Word, content: Bytes, n: nat)
    decreases n
  {
    n == 0 || (HasNext(content) && (a < size ==> LastsUntil(size, Add(a, 1), Rest(content), n - 1)))
  }

  /** Bytes unescaped and stored one after the other. */
  function WriteEscaped(m: Bytes, a: Word, content: Bytes, n: nat): Written
    requires LastsUntil(|m|, a, content, n)
    decreases n
  {
    if n == 0 then Written(m, true)
    else if a >= |m| then Written(m, false)
    else WriteEscaped(m[a := Next(content)], Add(a, 1), Rest(content), n - 1)
  }

  /** Unescaping on the way is unescaping first, when there is enough to unescape. */
  lemma {:induction false} EscapedIsBytes(m: Bytes, a: Word, content: Bytes, n: nat)
    requires Enough(content, n)
    ensures LastsUntil(|m|, a, content, n)
    ensures WriteEscaped(m, a, content, n) == WriteBytes(m, a, Unescape(content, n))
    decreases n
  {
    hide Add, HasNext, Next, Rest;
    if n > 0 {
      assert Unescape(content, n)[1..] == Unescape(Rest(content), n - 1);
      EscapedIsBytes(m, Add(a, 1), Rest(content), n - 1);
      if a < |m| { EscapedIsBytes(m[a := Next(content)], Add(a, 1), Rest(content), n - 1); }
    }
  }

  function WriteReply(m: Bytes, a: Word, content: Bytes, n: nat): Bytes
    requires a < |m| ==> LastsUntil(|m|, a, content, n)
  {
    if a < |m| && WriteEscaped(m, a, content, n).ok then OK_TEXT else E02_TEXT
  }

  /**
   `write_memory_binary`, gdb_protocol.c:419, after its `sscanf`.  The content is what the
   buffer holds from the colon on; reading past its end is undefined in C.
   */
  method WriteMemoryBinary(mem: Memory, link: Link, address: Word, size: nat, content: Bytes)
    requires address < |mem.Contents()| ==> LastsUntil(|mem.Contents()|, address, content, size)
    requires link.packet.Length == MAX_PACKET_SIZE && link.packet != mem.data
    modifies mem.data, link, link.packet
    ensures mem.Contents() == if address < |old(mem.Contents())|
                              then WriteEscaped(old(mem.Contents()), address, content, size).mem
                              else old(mem.Contents())
    ensures 0 <= link.len <= MAX_PACKET_SIZE
    ensures link.packet[..link.len] == Frame(WriteReply(old(mem.Contents()), address, content, size))
  {
    hide Add, Next, Rest, HasNext, Frame;
    ghost var m := mem.Contents();
    var at, rest, left := address, content, size;
    var ok := address < mem.data.Length;
    while left > 0 && ok
      invariant |mem.Contents()| == |m| && (address >= |m| ==> !ok && mem.Contents() == m)
      invariant ok ==> LastsUntil(|m|, at, rest, left)
      invariant ok ==> WriteEscaped(mem.Contents(), at, rest, left) == WriteEscaped(m, address, content, size)
      invariant !ok && address < |m| ==> WriteEscaped(m, address, content, size) == Written(mem.Contents(), false)
      decreases left
    {
      var value;
      value, rest := TakeByte(rest);
      var err := mem.WriteByte(at, value);
      ok := err == OK;
      at := Add(at, 1);
      left := left - 1;
    }
    ghost var m' := mem.Contents();
    link.SendData(if ok then OK_TEXT else E02_TEXT);
    assert mem.Contents() == m';
  }

  /** One byte of the content, as gdb_protocol.c:433-441 takes it. */
  method TakeByte(content: Bytes) returns (value: Byte, rest: Bytes)
    requires HasNext(content)
    ensures value == Next(content) && rest == Rest(content)
  {
    if content[0] == ESCAPE {
      value, rest := Flip(content[1]), content[2..];
    } else {
      value, rest := content[0], content[1..];
    }
  }

  /** Inside memory the bytes land where they should and nowhere else; past its end the rest is dropped. */
  lemma {:induction false} WrittenWhere(m: Bytes, a: Word, bytes: Bytes)
    requires a <= |m| < 0x1_0000_0000
    ensures var n := if |bytes| <= |m| - a then |bytes| else |m| - a;
            WriteBytes(m, a, bytes) == Written(m[..a] + bytes[..n] + m[a + n..], n == |bytes|)
    decreases |bytes|
  {
    var n := if |bytes| <= |m| - a then |bytes| else |m| - a;
    if bytes == [] || a == |m| {
      assert m == m[..a] + bytes[..n] + m[a + n..];
    } else {
      var m' := m[a := bytes[0]];
      assert Add(a, 1) == a + 1;
      WrittenWhere(m', a + 1, bytes[1..]);
      var tail := bytes[1..];
      assert m'[..a + 1] + tail[..n - 1] + m'[a + n..] == m[..a] + bytes[..n] + m[a + n..];
    }
  }

  // ---------------------------------------------------------------- reading

  /** Hexadecimal text of the bytes from an address on, as far as memory reaches. */
  function ReadText(m: Bytes, a: Word, size: nat): (t: Bytes)
    ensures NulFree(t) && |t| <= 2 * size
    decreases size
  {
    if size == 0 || a >= |m| then [] else HexByte(m[a]) + ReadText(m, Add(a, 1), size - 1)
  }

  function ReadReply(m: Bytes, a: Word, size: nat): (t: Bytes)
    ensures NulFree(t)
  {
    if a < |m| then ReadText(m, a, size) else E0E_TEXT
  }

  function HexAll(bytes: Bytes): Bytes {
    if bytes == [] then [] else HexByte(bytes[0]) + HexAll(bytes[1..])
  }

  /** Two digits for each byte, in order. */
  lemma {:induction false} HexAllAt(bytes: Bytes, k: nat)
    requires k < |bytes|
    ensures |HexAll(bytes)| == 2 * |bytes| && HexAll(bytes)[2 * k..2 * k + 2] == HexByte(bytes[k])
  {
    if |bytes| > 1 { HexAllAt(bytes[1..], if k > 0 then k - 1 else 0); }
    hide HexByte;
  }

  lemma Together(a: Bytes, b: Bytes, c: Bytes)
    ensures a + b + c == a + (b + c)
  {
  }

  /** `read_memory`, gdb_protocol.c:300, after its `sscanf`; the reply has to fit the packet. */
  method ReadMemory(mem: Memory, link: Link, address: Word, size: nat)
    requires link.packet.Length == MAX_PACKET_SIZE && link.packet != mem.data
    requires |ReadReply(mem.Contents(), address, size)| + 5 <= MAX_PACKET_SIZE
    modifies link, link.packet
    ensures 0 <= link.len <= MAX_PACKET_SIZE
    ensures link.packet[..link.len] == Frame(ReadReply(mem.Contents(), address, size))
  {
    hide Frame, ReadText;
    ghost var reply := ReadReply(mem.Contents(), address, size);
    if address < mem.data.Length {
      PrintBytes(mem, link.packet, address, size);
      link.SendBuffer(reply);
    } else {
      link.SendData(E0E_TEXT);
    }
  }

  /** The loop of gdb_protocol.c:310-314: two digits for each byte until one is outside memory. */
  method PrintBytes(mem: Memory, packet: array<Byte>, address: Word, size: nat)
    requires packet.Length == MAX_PACKET_SIZE && packet != mem.data
    requires |ReadText(mem.Contents(), address, size)| + 5 <= MAX_PACKET_SIZE
    modifies packet
    ensures var text := ReadText(mem.Contents(), address, size);
            packet[1..1 + |text|] == text && packet[1 + |text|] == 0
  {
    hide HexByte, Add, ReadText;
    ghost var m := mem.Contents();
    ghost var text: Bytes := [];
    var at: Word, left: nat, position := address, size, 1;
    packet[1] := 0;
    assert text + ReadText(m, at, left) == ReadText(m, at, left);
    while left > 0
      invariant position == 1 + |text| && position + |ReadText(m, at, left)| + 4 <= MAX_PACKET_SIZE
      invariant packet[1..position] == text && packet[position] == 0
      invariant mem.Contents() == m && text + ReadText(m, at, left) == ReadText(m, address, size)
    {
      NextText(text, m, at, left);
      var err, value := mem.ReadByte(at);
      if err != OK { break; }
      var digits := HexByte(value);
      Print(packet, position, digits);
      text := text + digits;
      position := position + 2;
      at := Add(at, 1);
      left := left - 1;
    }
    NextText(text, m, at, left);
  }

  /** What is left of the text: nothing, or the next byte and what is left after it. */
  lemma NextText(before: Bytes, m: Bytes, a: Word, size: nat)
    ensures size == 0 || a >= |m| ==> before + ReadText(m, a, size) == before
    ensures size > 0 && a < |m| ==>
              && before + ReadText(m, a, size) == before + HexByte(m[a]) + ReadText(m, Add(a, 1), size - 1)
              && |ReadText(m, a, size)| == 2 + |ReadText(m, Add(a, 1), size - 1)|
  {
    hide Add;
    if size > 0 && a < |m| {
      Together(before, HexByte(m[a]), ReadText(m, Add(a, 1), size - 1));
    }
  }

  /** Which reply is given when. */
  lemma RepliesWhen(m: Bytes, a: Word, content: Bytes, n: nat)
    requires a < |m| ==> LastsUntil(|m|, a, content, n)
    ensures a >= |m| ==> WriteReply(m, a, content, n) == Ascii("E02") && ReadReply(m, a, n) == Ascii("E0E")
    ensures a < |m| ==>
              && WriteReply(m, a, content, n) == (if WriteEscaped(m, a, content, n).ok then Ascii("OK") else Ascii("E02"))
              && ReadReply(m, a, n) == ReadText(m, a, n)
  {
    hide WriteEscaped, ReadText, LastsUntil;
    Replies();
  }

  /** The text read is that of the bytes of the range that are inside memory. */
  lemma {:induction false} ReadTextIs(m: Bytes, a: Word, size: nat)
    requires a <= |m| < 0x1_0000_0000
    ensures ReadText(m, a, size) == HexAll(m[a..if size <= |m| - a then a + size else |m|])
    decreases size
  {
    if size > 0 && a < |m| {
      assert Add(a, 1) == a + 1;
      ReadTextIs(m, a + 1, size - 1);
      var end := if size <= |m| - a then a + size else |m|;
      assert m[a..end][1..] == m[a + 1..end];
    }
  }

  /**
   Binary write, then hexadecimal read: for every byte string inside memory and every
   escaping of it, the write changes exactly that range to those bytes and answers OK, and
   the read of the range answers their text.
   */
  lemma WriteThenRead(m: Bytes, a: Word, bytes: Bytes, enc: Bytes)
    requires a + |bytes| <= |m| < 0x1_0000_0000 && a < |m| && Escapes(enc, bytes)
    ensures Enough(enc, |bytes|)
    ensures LastsUntil(|m|, a, enc, |bytes|)
    ensures var m' := WriteEscaped(m, a, enc, |bytes|).mem;
            && m' == m[..a] + bytes + m[a + |bytes|..]
            && WriteReply(m, a, enc, |bytes|) == OK_TEXT
            && ReadReply(m', a, |bytes|) == HexAll(bytes)
  {
    UnescapeInverts(enc, bytes);
    EscapedIsBytes(m, a, enc, |bytes|);
    WrittenWhere(m, a, bytes);
    assert bytes[..|bytes|] == bytes;
    var m' := m[..a] + bytes + m[a + |bytes|..];
    ReadTextIs(m', a, |bytes|);
    assert m'[a..a + |bytes|] == bytes;
  }
}
