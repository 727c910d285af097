/**
 Packets: gdb_protocol.c:132-150 frames a reply, scanner.l cuts the incoming bytes into
 packets, gdb_protocol.c:554-591 takes a packet apart.

 The framing is that of the Overview section of the GDB Remote Serial Protocol appendix:
 `$`, the payload, `#`, and the payload's checksum modulo 256 in two hexadecimal digits.
 */
module Packets {
  import opened Words
  import opened MemoryUnit
  import opened HexText

  const MAX_PACKET_SIZE: int := 4096

  const DOLLAR: Byte := 36
  const HASH: Byte := 35
  const OK_TEXT: Bytes := [79, 75]

  /** Addition in an `unsigned char`. */
  function Sum(a: int, b: int): Byte {
    (a + b) % 0x100
  }

  function Checksum(p: Bytes): Byte {
    if p == [] then 0 else Sum(Checksum(p[..|p| - 1]), p[|p| - 1])
  }

  lemma SumLaws(a: Byte, b: Byte, c: Byte)
    ensures Sum(Sum(a, b), c) == Sum(a, Sum(b, c)) && Sum(a, b) == Sum(b, a) && Sum(a, 0) == a == Sum(0, a)
    ensures Sum(a, b) == Sum(a, c) ==> b == c
  {
    SumOnce(a + b, c);
    SumOnce(b + c, a);
    SumDiffers(a, b, c);
  }

  lemma SumOnce(x: nat, c: Byte)
    ensures Sum(x % 0x100, c) == (x + c) % 0x100
  {
    QuotientRemainder(x, 0x100);
    var y := x % 0x100 + c;
    QuotientRemainder(y, 0x100);
    DivModUnique(x + c, 0x100, x / 0x100 + y / 0x100, y % 0x100);
  }

  lemma SumDiffers(a: Byte, b: Byte, c: Byte)
    ensures Sum(a, b) == Sum(a, c) ==> b == c
  {
    QuotientRemainder(a + b, 0x100);
    QuotientRemainder(a + c, 0x100);
  }

  function Frame(p: Bytes): Bytes {
    [DOLLAR] + p + [HASH] + HexByte(Checksum(p))
  }

  predicate NulFree(p: Bytes) {
    forall k :: 0 <= k < |p| ==> p[k] != 0
  }

  /** No byte that delimits packets: `[^$#]*`. */
  predicate Plain(p: Bytes) {
    forall k :: 0 <= k < |p| ==> p[k] != DOLLAR && p[k] != HASH
  }

  /** The pattern of scanner.l:67, `"$"[^$#]*"#"{HEX}{HEX}`. */
  predicate WellShaped(t: Bytes) {
    |t| >= 4 && t[0] == DOLLAR && Plain(PayloadOf(t)) && t[|t| - 3] == HASH && AllDigits(t[|t| - 2..])
  }

  function PayloadOf(t: Bytes): Bytes
    requires |t| >= 4
  {
    t[1..|t| - 3]
  }

  /** The letters of gdb_protocol.c:531-546. */
  predicate HasHandler(c: Byte) {
    c in [99, 67, 107, 113, 103, 109, 112, 63, 72, 115, 83, 71, 88, 80, 122, 90]
  }

  /** A packet is refused, answered with an empty reply, or handed to a handler. */
  datatype Verdict = Retransmit | Unsupported | Handled(command: Byte, data: Bytes)

  function Analyse(t: Bytes): Verdict
    requires WellShaped(t)
  {
    var p := PayloadOf(t);
    if Checksum(p) != Parse(t[|t| - 2..]) then Retransmit
    else if p == [] || !HasHandler(p[0]) then Unsupported
    else Handled(p[0], p[1..])
  }

  // ---------------------------------------------------------------- properties

  function Total(p: Bytes): nat {
    if p == [] then 0 else p[0] + Total(p[1..])
  }

  /** The checksum is the sum of the bytes modulo 256. */
  lemma {:induction false} ChecksumIsSum(p: Bytes)
    ensures Checksum(p) == Total(p) % 0x100
  {
    hide Sum;
    if p != [] {
      ChecksumIsSum(p[1..]);
      assert p == [p[0]] + p[1..];
      ChecksumAppend([p[0]], p[1..]);
      ChecksumOne(p[0]);
      SumLaws(p[0], Total(p[1..]) % 0x100, 0);
      SumOnce(Total(p[1..]), p[0]);
    }
  }

  /** A frame: `$`, the payload, `#`, and the two digits of the sum of its bytes. */
  lemma FrameIs(p: Bytes)
    ensures Frame(p) == Ascii("$") + p + Ascii("#") + HexByte(Total(p) % 0x100)
  {
    ChecksumIsSum(p);
    assert Ascii("$") == [36] && Ascii("#") == [35];
  }

  /** The letters that have a handler. */
  lemma HandlerLetters(c: Byte)
    ensures HasHandler(c) <==> c in Ascii("cCkqgmp?HsSGXPzZ")
  {
    assert Ascii("cCkqgmp?HsSGXPzZ") == [99, 67, 107, 113, 103, 109, 112, 63, 72, 115, 83, 71, 88, 80, 122, 90];
  }

  lemma {:induction false} ChecksumAppend(p: Bytes, q: Bytes)
    ensures Checksum(p + q) == Sum(Checksum(p), Checksum(q))
  {
    hide Sum;
    SumLaws(Checksum(p), 0, 0);
    if q == [] {
      assert p + q == p;
    } else {
      var n := |q| - 1;
      assert (p + q)[..|p + q| - 1] == p + q[..n] && (p + q)[|p + q| - 1] == q[n];
      ChecksumAppend(p, q[..n]);
      SumLaws(Checksum(p), Checksum(q[..n]), q[n]);
    }
  }

  /** A packet with this payload and these two digits after the `#`. */
  function Packet(q: Bytes, digits: Bytes): Bytes {
    [DOLLAR] + q + [HASH] + digits
  }

  /** A packet is refused exactly when its digits are not the checksum of its payload. */
  lemma RefusedWhen(q: Bytes, digits: Bytes)
    requires Plain(q) && |digits| == 2 && AllDigits(digits)
    ensures var t := Packet(q, digits);
            WellShaped(t) && PayloadOf(t) == q && (Analyse(t) == Retransmit <==> Checksum(q) != Parse(digits))
  {
    var t := Packet(q, digits);
    assert t[|t| - 2..] == digits;
    assert PayloadOf(t) == q;
  }

  lemma ChecksumOne(b: Byte)
    ensures Checksum([b]) == b
  {
    assert [b][..0] == [];
  }

  lemma ChecksumParts(a: Bytes, b: Byte, c: Bytes)
    ensures Checksum(a + [b] + c) == Sum(Checksum(a), Sum(b, Checksum(c)))
  {
    ChecksumAppend(a + [b], c);
    ChecksumAppend(a, [b]);
    ChecksumOne(b);
    SumLaws(Checksum(a), b, Checksum(c));
    hide Checksum, Sum;
  }

  /** Exchanging two payload bytes goes unnoticed, as with any sum. */
  lemma ExchangeUnnoticed(p: Bytes, x: Byte, m: Bytes, y: Byte, q: Bytes)
    requires Plain(p + [x] + (m + [y] + q))
    ensures var s := p + [x] + (m + [y] + q);
            var t := Packet(p + [y] + (m + [x] + q), HexByte(Checksum(s)));
            WellShaped(t) && Analyse(t) != Retransmit
  {
    var s := p + [x] + (m + [y] + q);
    var t := p + [y] + (m + [x] + q);
    ChecksumParts(p, x, m + [y] + q);
    ChecksumParts(m, y, q);
    ChecksumParts(p, y, m + [x] + q);
    ChecksumParts(m, x, q);
    Rearranged(x, Checksum(m), y, Checksum(q));
    PlainParts(p, x, m + [y] + q); PlainParts(m, y, q);
    PlainParts(m, x, q); PlainParts(p, y, m + [x] + q);
    hide Plain;
    HexByteParses(Checksum(s));
    RefusedWhen(t, HexByte(Checksum(s)));
    hide Checksum, Sum, Analyse, WellShaped;
  }

  lemma PlainParts(a: Bytes, b: Byte, c: Bytes)
    ensures Plain(a + [b] + c) <==> Plain(a) && Plain(c) && b != DOLLAR && b != HASH
  {
    var t := a + [b] + c;
    if Plain(t) {
      assert forall k :: 0 <= k < |a| ==> a[k] == t[k];
      assert b == t[|a|];
      forall k | 0 <= k < |c| ensures c[k] != DOLLAR && c[k] != HASH { assert c[k] == t[|a| + 1 + k]; }
    }
  }

  lemma Rearranged(x: Byte, m: Byte, y: Byte, q: Byte)
    ensures Sum(x, Sum(m, Sum(y, q))) == Sum(y, Sum(m, Sum(x, q)))
  {
    SumLaws(y, q, 0); SumLaws(x, q, 0);
    SumLaws(m, y, q); SumLaws(m, x, q);
    SumLaws(x, Sum(m, y), q); SumLaws(y, Sum(m, x), q);
    SumLaws(x, m, y); SumLaws(y, m, x);
    SumLaws(Sum(x, m), y, 0); SumLaws(Sum(y, m), x, 0);
    SumLaws(y, x, m); SumLaws(y, Sum(x, m), 0); SumLaws(x, m, 0); SumLaws(m, x, 0);
    hide Sum;
  }

  // ---------------------------------------------------------------- the buffers

  /** What `snprintf` and `strcpy` do: the text and a NUL after it, from a position on. */
  method Print(packet: array<Byte>, position: nat, text: Bytes)
    requires 1 <= position && position + |text| < packet.Length
    modifies packet
    ensures packet[1..position + |text|] == old(packet[1..position]) + text
    ensures packet[position + |text|] == 0
  {
    for k := 0 to |text|
      invariant packet[1..position + k] == old(packet[1..position]) + text[..k]
    {
      packet[position + k] := text[k];
      assert packet[1..position + k + 1] == packet[1..position + k] + [text[k]];
      assert text[..k + 1] == text[..k] + [text[k]];
    }
    packet[position + |text|] := 0;
    assert text[..|text|] == text;
  }

  class Link {
    const packet: array<Byte>
    var len: int

    constructor ()
      ensures packet.Length == MAX_PACKET_SIZE && fresh(packet)
    {
      packet := new Byte[MAX_PACKET_SIZE](_ => 0);
      len := 0;
    }

    /** `gdb_send_buffer`, for the NUL-terminated payload that the buffer holds from 1 on. */
    method SendBuffer(ghost payload: Bytes)
      requires NulFree(payload) && |payload| + 5 <= packet.Length
      requires packet[1..1 + |payload|] == payload && packet[1 + |payload|] == 0
      modifies this, packet
      ensures len == |payload| + 4 && packet[..len] == Frame(payload) && packet[len] == 0
    {
      ghost var n := |payload|;
      var check := 0;
      assert forall k :: 1 <= k <= n ==> packet[k] == packet[1..1 + n][k - 1];
      packet[0] := DOLLAR;
      var i := 1;
      assert payload[..0] == [];
      while packet[i] != 0
        invariant 1 <= i <= n + 1
        invariant forall k :: 1 <= k <= n ==> packet[k] == payload[k - 1]
        invariant packet[1 + n] == 0 && packet[0] == DOLLAR
        invariant check == Checksum(payload[..i - 1])
        decreases n - i
      {
        assert payload[..i][..i - 1] == payload[..i - 1];
        check := Sum(check, packet[i]);
        i := i + 1;
      }
      assert i == n + 1;
      assert payload[..n] == payload;
      assert packet[..i] == [DOLLAR] + payload;
      packet[i] := HASH;
      packet[i + 1] := Digit(check / 16);
      packet[i + 2] := Digit(check % 16);
      packet[i + 3] := 0;
      TwoDigits(check);
      assert packet[..i] == [DOLLAR] + payload;
      len := i + 3;
      assert packet[..len] == packet[..i] + [HASH] + HexByte(check);
    }

    /** `gdb_send_data`. */
    method SendData(data: Bytes)
      requires NulFree(data) && |data| + 5 <= packet.Length
      modifies this, packet
      ensures len == |data| + 4 && packet[..len] == Frame(data)
    {
      Print(packet, 1, data);
      SendBuffer(data);
    }
  }

  /**
   `gdb_packet_analysis`, up to the call of the handler.  The text is the scanner's, with a
   NUL after it.  When the checksum is right the `#` is overwritten with a NUL.
   */
  method PacketAnalysis(packet: array<Byte>, length: nat) returns (v: Verdict)
    requires length < packet.Length && WellShaped(packet[..length]) && packet[length] == 0
    modifies packet
    ensures v == Analyse(old(packet[..length]))
    ensures packet[..] == if v == Retransmit then old(packet[..]) else old(packet[..])[length - 3 := 0]
  {
    ghost var t := packet[..length];
    ghost var p := PayloadOf(t);
    var check := 0;
    var i := 1;
    while i < length - 3
      invariant 1 <= i <= length - 3
      invariant check == Checksum(p[..i - 1])
    {
      assert p[..i][..i - 1] == p[..i - 1] && p[i - 1] == t[i] == packet[i];
      check := Sum(check, packet[i]);
      i := i + 1;
    }
    assert p[..i - 1] == p;
    assert t[length - 2..] == [packet[i + 1], packet[i + 2]];
    assert packet[i + 1] == t[length - 2..][0] && packet[i + 2] == t[length - 2..][1];
    var given := Value(packet[i + 1]) * 16 + Value(packet[i + 2]);
    ParseTwo(packet[i + 1], packet[i + 2]);
    if check != given {
      return Retransmit;
    }
    packet[i] := 0;
    var index := packet[1];
    assert p != [] ==> index == p[0];
    if HasHandler(index) {
      assert p != [];
      v := Handled(index, packet[2..i]);
      assert packet[2..i] == p[1..];
    } else {
      v := Unsupported;
    }
  }

  lemma ParseTwo(a: Byte, b: Byte)
    requires IsDigit(a) && IsDigit(b)
    ensures AllDigits([a, b]) && Parse([a, b]) == Value(a) * 16 + Value(b)
  {
    assert [a][..0] == [];
    assert Parse([a]) == Value(a);
    assert [a, b][..1] == [a];
  }
}
