/**
 The hexadecimal text of gdb_protocol.c: what `snprintf("%02x")` and `"%08x"` write and the
 matching `sscanf` reads, on bytes of ASCII.
 */
module HexText {
  import opened Words
  import opened MemoryUnit

  /** Lower-case digit. */
  function Digit(d: int): (b: Byte)
    requires 0 <= d < 16
    ensures b != 0
  {
    if d < 10 then 48 + d else 87 + d
  }

  predicate IsDigit(b: Byte) {
    48 <= b <= 57 || 97 <= b <= 102 || 65 <= b <= 70
  }

  /** Either case is read. */
  function Value(b: Byte): (d: int)
    requires IsDigit(b)
    ensures 0 <= d < 16
  {
    if b <= 57 then b - 48 else if b >= 97 then b - 87 else b - 55
  }

  /** The bytes of a text. */
  function Ascii(s: string): Bytes
    requires forall i :: 0 <= i < |s| ==> s[i] < 128 as char
  {
    seq(|s|, i requires 0 <= i < |s| => s[i] as int)
  }

  /** The digits written, and those read. */
  lemma DigitsAre(d: int)
    requires 0 <= d < 16
    ensures Digit(d) == Ascii("0123456789abcdef")[d] && Digit(d) == "0123456789abcdef"[d] as int
    ensures IsDigit("0123456789ABCDEF"[d] as int) && Value("0123456789ABCDEF"[d] as int) == d
  {
  }

  lemma DigitValue(d: int)
    requires 0 <= d < 16
    ensures IsDigit(Digit(d)) && Value(Digit(d)) == d
  {
  }

  /** The n low digits of v, most significant first. */
  function Hex(v: nat, n: nat): (s: Bytes)
    ensures |s| == n
    ensures forall k :: 0 <= k < n ==> s[k] != 0
  {
    if n == 0 then [] else Hex(v / 16, n - 1) + [Digit(v % 16)]
  }

  predicate AllDigits(s: Bytes) {
    forall k :: 0 <= k < |s| ==> IsDigit(s[k])
  }

  function Parse(s: Bytes): (v: nat)
    requires AllDigits(s)
  {
    if s == [] then 0 else Parse(s[..|s| - 1]) * 16 + Value(s[|s| - 1])
  }

  function Power16(n: nat): (p: nat) ensures p > 0 {
    if n == 0 then 1 else 16 * Power16(n - 1)
  }

  lemma {:induction false} ParseHex(v: nat, n: nat)
    requires v < Power16(n)
    ensures AllDigits(Hex(v, n)) && Parse(Hex(v, n)) == v
  {
    if n > 0 {
      ParseHex(v / 16, n - 1);
      DigitValue(v % 16);
      var s := Hex(v, n);
      assert s[..n - 1] == Hex(v / 16, n - 1);
      assert s[n - 1] == Digit(v % 16);
    }
  }

  lemma {:induction false} ParseBound(s: Bytes)
    requires AllDigits(s)
    ensures Parse(s) < Power16(|s|)
  {
    if s != [] { ParseBound(s[..|s| - 1]); }
  }

  /** Two and eight digits: a byte and a word. */
  lemma Sizes()
    ensures Power16(2) == 0x100 && Power16(8) == 0x1_0000_0000
  {
  }

  function HexByte(v: Byte): (s: Bytes)
    ensures |s| == 2 && s[0] != 0 && s[1] != 0
  {
    Hex(v, 2)
  }

  function HexWord(v: Word): (s: Bytes)
    ensures |s| == 8 && forall k :: 0 <= k < 8 ==> s[k] != 0
  {
    Hex(v, 8)
  }

  function ParseWord(s: Bytes): Word
    requires |s| == 8 && AllDigits(s)
  {
    ParseBound(s); Sizes();
    Parse(s)
  }

  /** Two digits, the high one first. */
  lemma TwoDigits(v: Byte)
    ensures HexByte(v) == [Digit(v / 16), Digit(v % 16)]
  {
    var h := v / 16;
    assert Hex(h, 1) == Hex(h / 16, 0) + [Digit(h % 16)];
    assert h % 16 == h;
  }

  /** Eight digits: two for each byte, the high one first. */
  lemma EightDigits(v: Word)
    ensures HexWord(v) == HexByte(v / 0x100_0000) + HexByte(v / 0x1_0000 % 0x100) + HexByte(v / 0x100 % 0x100) + HexByte(v % 0x100)
  {
    HexParts(v, 6);
    HexParts(v / 0x100, 4);
    HexParts(v / 0x1_0000, 2);
    DivDiv(v, 0x100, 0x100);
    DivDiv(v, 0x1_0000, 0x100);
    assert Hex(v / 0x1_0000, 4) == Hex(v / 0x100_0000, 2) + Hex(v / 0x1_0000 % 0x100, 2);
    hide Hex;
  }

  /** The last two digits are those of the low byte. */
  lemma HexParts(v: nat, n: nat)
    ensures Hex(v, n + 2) == Hex(v / 0x100, n) + Hex(v % 0x100, 2)
  {
    DivDiv(v, 16, 16);
    var low := v % 0x100;
    DivModUnique(low, 16, v / 16 % 16, v % 16);
    assert Hex(v, n + 2) == Hex(v / 16, n + 1) + [Digit(v % 16)];
    assert Hex(v / 16, n + 1) == Hex(v / 16 / 16, n) + [Digit(v / 16 % 16)];
    assert Hex(low, 2) == Hex(low / 16, 1) + [Digit(low % 16)];
    assert Hex(low / 16, 1) == Hex(low / 16 / 16, 0) + [Digit(low / 16 % 16)];
  }

  lemma HexByteParses(v: Byte)
    ensures AllDigits(HexByte(v)) && Parse(HexByte(v)) == v
  {
    Sizes();
    ParseHex(v, 2);
  }

  lemma HexWordParses(v: Word)
    ensures AllDigits(HexWord(v)) && ParseWord(HexWord(v)) == v
  {
    Sizes();
    ParseHex(v, 8);
  }
}
