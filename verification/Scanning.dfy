/**
 scanner.l: how the bytes from gdb are cut into packets, and what becomes of a corrupted one.
 */
module Scanning {
  import opened Words
  import opened MemoryUnit
  import opened HexText
  import opened Packets

  /** How many bytes free of `$` and `#` the text begins with. */
  function Run(t: Bytes): (n: nat)
    ensures n <= |t| && Plain(t[..n])
    ensures n < |t| ==> t[n] == DOLLAR || t[n] == HASH
  {
    if t == [] || t[0] == DOLLAR || t[0] == HASH then 0 else 1 + Run(t[1..])
  }

  /** The length of the packet the text begins with, or 0. */
  function PacketLength(t: Bytes): (n: nat)
    ensures n <= |t| && (n > 0 ==> WellShaped(t[..n]))
  {
    if t == [] || t[0] != DOLLAR then 0
    else
      var n := 1 + Run(t[1..]);
      if n + 2 < |t| && t[n] == HASH && IsDigit(t[n + 1]) && IsDigit(t[n + 2]) then
        PacketIs(t, n - 1);
        n + 3
      else 0
  }

  lemma PacketIs(t: Bytes, n: nat)
    requires n + 3 < |t| && t[0] == DOLLAR && t[n + 1] == HASH && IsDigit(t[n + 2]) && IsDigit(t[n + 3])
    requires Plain(t[1..][..n])
    ensures WellShaped(t[..n + 4])
  {
    var u := t[..n + 4];
    assert PayloadOf(u) == t[1..][..n];
    assert u[n + 2..] == [t[n + 2], t[n + 3]];
  }

  /**
   The packets handed to `gdb_packet_analysis`.  Every other byte is an acknowledgement, a
   request for retransmission or an error, and is passed over alone.
   */
  function Scan(t: Bytes): (packets: seq<Bytes>)
    ensures forall k :: 0 <= k < |packets| ==> WellShaped(packets[k])
    decreases |t|
  {
    if t == [] then []
    else
      var n := PacketLength(t);
      if n > 0 then [t[..n]] + Scan(t[n..]) else Scan(t[1..])
  }

  /** Some packet of the text has the right checksum: its command is carried out, or answered. */
  ghost predicate Heard(t: Bytes) {
    exists k :: 0 <= k < |Scan(t)| && Analyse(Scan(t)[k]) != Retransmit
  }

  // ---------------------------------------------------------------- scanning

  lemma {:induction false} RunOver(p: Bytes, t: Bytes)
    requires Plain(p) && (t == [] || t[0] == DOLLAR || t[0] == HASH)
    ensures Run(p + t) == |p|
  {
    if p != [] {
      assert (p + t)[1..] == p[1..] + t;
      RunOver(p[1..], t);
    } else {
      assert p + t == t;
    }
  }

  /** A packet at the front is cut off, whatever follows. */
  lemma ScanPacket(t: Bytes, rest: Bytes)
    requires WellShaped(t)
    ensures Scan(t + rest) == [t] + Scan(rest)
  {
    var p := PayloadOf(t);
    var u := t[|t| - 3..] + rest;
    assert (t + rest)[1..] == p + u;
    RunOver(p, u);
    var n := 1 + |p|;
    assert t[|t| - 2..][0] == t[|t| - 2] && t[|t| - 2..][1] == t[|t| - 1];
    assert PacketLength(t + rest) == |t|;
    assert (t + rest)[..|t|] == t && (t + rest)[|t|..] == rest;
  }

  /** Bytes without a `$` are passed over. */
  lemma {:induction false} ScanNoise(noise: Bytes, rest: Bytes)
    requires forall k :: 0 <= k < |noise| ==> noise[k] != DOLLAR
    ensures Scan(noise + rest) == Scan(rest)
    decreases |noise|
  {
    if noise != [] {
      assert (noise + rest)[1..] == noise[1..] + rest;
      ScanNoise(noise[1..], rest);
    } else {
      assert noise + rest == rest;
    }
  }

  lemma NothingToScan(noise: Bytes)
    requires forall k :: 0 <= k < |noise| ==> noise[k] != DOLLAR
    ensures Scan(noise) == []
  {
    ScanNoise(noise, []);
    assert noise + [] == noise;
  }

  /** A frame reaches the analysis as it is if and only if its payload is free of `$` and `#`. */
  lemma FramedIsScanned(p: Bytes, rest: Bytes)
    ensures Scan(Frame(p) + rest) == [Frame(p)] + Scan(rest) <==> Plain(p)
  {
    FrameShape(p);
    if Plain(p) { ScanPacket(Frame(p), rest); }
    assert Plain(p) || forall k :: 0 <= k < |Scan(Frame(p) + rest)| ==> Scan(Frame(p) + rest)[k] != Frame(p);
    assert ([Frame(p)] + Scan(rest))[0] == Frame(p);
  }

  lemma FrameShape(p: Bytes)
    ensures PayloadOf(Frame(p)) == p && (WellShaped(Frame(p)) <==> Plain(p))
  {
    HexByteParses(Checksum(p));
    var t := Frame(p);
    assert t[|t| - 2..] == HexByte(Checksum(p));
    assert PayloadOf(t) == p;
  }

  /** A framed payload is accepted, and reaches its handler intact. */
  lemma FramedIsAccepted(p: Bytes)
    requires Plain(p)
    ensures Scan(Frame(p)) == [Frame(p)] && WellShaped(Frame(p))
    ensures Analyse(Frame(p)) == if p == [] || !HasHandler(p[0]) then Unsupported else Handled(p[0], p[1..])
  {
    HexByteParses(Checksum(p));
    RefusedWhen(p, HexByte(Checksum(p)));
    FramedIsScanned(p, []);
    assert Frame(p) + [] == Frame(p);
  }

  // ---------------------------------------------------------------- one byte changed

  /** What follows byte i of the payload in its frame. */
  function After(p: Bytes, i: nat): (t: Bytes)
    requires i < |p|
    ensures |t| >= 3
  {
    p[i + 1..] + [HASH] + HexByte(Checksum(p))
  }

  /** The text of a frame around its byte i. */
  lemma FrameAround(p: Bytes, i: nat, b: Byte)
    requires i < |p|
    ensures Frame(p)[1 + i := b] == [DOLLAR] + (p[..i] + ([b] + After(p, i)))
  {
    assert p == p[..i] + [p[i]] + p[i + 1..];
  }

  lemma PlainPieces(p: Bytes, i: nat)
    requires i < |p| && Plain(p)
    ensures Plain(p[..i]) && Plain(p[i + 1..])
    ensures forall k :: 0 <= k < |After(p, i)| ==> After(p, i)[k] != DOLLAR
  {
    HexByteParses(Checksum(p));
    var h := HexByte(Checksum(p));
    assert IsDigit(h[0]) && IsDigit(h[1]);
  }

  /** The one packet of a text is heard unless it is refused. */
  lemma HeardAlone(t: Bytes, u: Bytes)
    requires WellShaped(u) && Scan(t) == [u]
    ensures Heard(t) <==> Analyse(u) != Retransmit
  {
    assert Scan(t)[0] == u;
    hide Scan, Analyse;
  }

  /** An ordinary byte for another: the packet keeps its shape and its checksum is wrong. */
  lemma OrdinaryByte(p: Bytes, i: nat, b: Byte)
    requires i < |p| && b != p[i] && b != DOLLAR && b != HASH && Plain(p)
    ensures !Heard(Frame(p)[1 + i := b])
  {
    var q, digits := p[i := b], HexByte(Checksum(p));
    var t := Packet(q, digits);
    assert Frame(p)[1 + i := b] == t;
    var before, after := p[..i], p[i + 1..];
    assert p == before + [p[i]] + after && q == before + [b] + after;
    ChecksumParts(before, p[i], after);
    ChecksumParts(before, b, after);
    assert Plain(q);
    HexByteParses(Checksum(p));
    RefusedWhen(q, digits);
    ScanPacket(t, []);
    assert t + [] == t;
    hide Checksum, Sum, Analyse, WellShaped, Plain, Scan;
    HeardAlone(t, t);
    SumLaws(Checksum(before), Sum(p[i], Checksum(after)), Sum(b, Checksum(after)));
    SumLaws(p[i], Checksum(after), b);
    SumLaws(b, Checksum(after), p[i]);
    SumLaws(Checksum(after), p[i], b);
  }

  /** A `$` in the payload: the scanner starts over there. */
  lemma ScanDollar(a: Bytes, u: Bytes)
    requires Plain(a) && u != [] && u[0] == DOLLAR
    ensures Scan([DOLLAR] + (a + u)) == Scan(u)
  {
    hide Plain, WellShaped;
    var t := [DOLLAR] + (a + u);
    assert t[1..] == a + u;
    RunOver(a, u);
    assert t[1 + |a|] == DOLLAR;
    assert PacketLength(t) == 0 by { hide Run; }
    assert Scan(t) == Scan(a + u);
    hide Scan;
    NoDollar(a);
    ScanNoise(a, u);
  }

  lemma NoDollar(a: Bytes)
    requires Plain(a)
    ensures forall k :: 0 <= k < |a| ==> a[k] != DOLLAR
  {
  }

  /** A `#` in the payload: the packet ends there, if two digits follow. */
  lemma ScanHash(a: Bytes, after: Bytes)
    requires Plain(a) && |after| >= 2 && forall k :: 0 <= k < |after| ==> after[k] != DOLLAR
    ensures Scan([DOLLAR] + (a + ([HASH] + after))) ==
            if AllDigits(after[..2]) then [Packet(a, after[..2])] else []
  {
    hide Plain, WellShaped, Scan, Packet, AllDigits, Analyse, PacketLength;
    if AllDigits(after[..2]) {
      RefusedWhen(a, after[..2]);
      Regrouped(a, after);
      ScanPacket(Packet(a, after[..2]), after[2..]);
      NothingToScan(after[2..]);
    } else {
      NoPacket(a, after);
      ScanOne([DOLLAR] + (a + ([HASH] + after)));
      NoDollar(a);
      NothingToScan(a + ([HASH] + after));
      assert ([DOLLAR] + (a + ([HASH] + after)))[1..] == a + ([HASH] + after);
    }
  }

  lemma Regrouped(a: Bytes, after: Bytes)
    requires |after| >= 2
    ensures [DOLLAR] + (a + ([HASH] + after)) == Packet(a, after[..2]) + after[2..]
  {
    assert after == after[..2] + after[2..];
  }

  lemma NoPacket(a: Bytes, after: Bytes)
    requires Plain(a) && |after| >= 2 && !AllDigits(after[..2])
    ensures PacketLength([DOLLAR] + (a + ([HASH] + after))) == 0
  {
    hide Plain, WellShaped;
    var u := [HASH] + after;
    var t := [DOLLAR] + (a + u);
    assert t[1..] == a + u;
    RunOver(a, u);
    hide Run;
    assert t[2 + |a|] == after[0] == after[..2][0] && t[3 + |a|] == after[1] == after[..2][1];
  }

  lemma ScanOne(t: Bytes)
    requires t != [] && PacketLength(t) == 0
    ensures Scan(t) == Scan(t[1..])
  {
    hide PacketLength;
  }

  /** A `$` for a byte: what follows it is taken for the packet. */
  lemma DollarByte(p: Bytes, i: nat)
    requires i < |p| && Plain(p)
    ensures Heard(Frame(p)[1 + i := DOLLAR]) <==> Checksum(p[..i + 1]) == 0
  {
    hide Heard, Scan, Analyse, Checksum, Sum, Plain, WellShaped, AllDigits, HexByte;
    var digits, tail := HexByte(Checksum(p)), p[i + 1..];
    var u := Packet(tail, digits);
    FrameAround(p, i, DOLLAR);
    PlainPieces(p, i);
    HexByteParses(Checksum(p));
    RefusedWhen(tail, digits);
    assert [DOLLAR] + After(p, i) == u;
    ScanDollar(p[..i], u);
    ScanPacket(u, []);
    assert u + [] == u && Scan([]) == [] by { NothingToScan([]); }
    HeardAlone(Frame(p)[1 + i := DOLLAR], u);
    assert p == p[..i + 1] + tail;
    ChecksumAppend(p[..i + 1], tail);
    SumLaws(Checksum(tail), Checksum(p[..i + 1]), 0);
  }

  /** A `#` for a byte: what precedes it is taken for the packet, if two digits follow. */
  lemma HashByte(p: Bytes, i: nat)
    requires i < |p| && Plain(p)
    ensures var digits := After(p, i)[..2];
            Heard(Frame(p)[1 + i := HASH]) <==> AllDigits(digits) && Parse(digits) == Checksum(p[..i])
  {
    hide Scan, Analyse, Checksum, Sum, Plain, WellShaped, After, AllDigits, Packet;
    var t, digits := Frame(p)[1 + i := HASH], After(p, i)[..2];
    FrameAround(p, i, HASH);
    PlainPieces(p, i);
    ScanHash(p[..i], After(p, i));
    if AllDigits(digits) {
      RefusedWhen(p[..i], digits);
      HeardAlone(t, Packet(p[..i], digits));
    }
  }

  /**
   One payload byte changed.  For an ordinary byte the packet is always refused, so no handler
   runs.  For a `$` it is refused unless the bytes up to there sum to 0; for a `#` unless the
   two bytes that follow happen to be the checksum of the bytes before.
   */
  lemma OneByteChanged(p: Bytes, i: nat, b: Byte)
    requires i < |p| && b != p[i] && Plain(p)
    ensures Heard(Frame(p)[1 + i := b]) <==>
            if b == DOLLAR then Checksum(p[..i + 1]) == 0
            else if b == HASH then AllDigits(After(p, i)[..2]) && Parse(After(p, i)[..2]) == Checksum(p[..i])
            else false
  {
    if b == DOLLAR { DollarByte(p, i); }
    else if b == HASH { HashByte(p, i); }
    else { OrdinaryByte(p, i, b); }
  }

  /** `g?67` with its `?` changed to `#`: the stub reads the packet `$g#67` and dumps the registers. */
  lemma CutPacketRuns()
    ensures var p: Bytes := [103, 63, 54, 55];
            var u: Bytes := [36, 103, 35, 54, 55];
            Scan(Frame(p)[2 := HASH]) == [u] && Analyse(u) == Handled(103, [])
  {
    hide Scan, Checksum, Sum, Frame, HexByte;
    var p: Bytes := [103, 63, 54, 55];
    var u := Packet([103], [54, 55]);
    FrameAround(p, 1, HASH);
    PlainPieces(p, 1);
    assert After(p, 1)[..2] == [54, 55];
    assert p[..1] == [103];
    ScanHash(p[..1], After(p, 1));
    ParseTwo(54, 55);
    ChecksumOne(103);
    RefusedWhen([103], [54, 55]);
    assert u == [36, 103, 35, 54, 55];
    assert PayloadOf(u)[0] == 103 && PayloadOf(u)[1..] == [];
  }
}
