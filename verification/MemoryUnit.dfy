/**
 memory.c: a byte array with accesses of one, two and four bytes in either endianness.

 The functions say what an access means on the sequence of bytes; the class performs it on
 an array.  The C code checks only the first byte of a half or a word against the size, so
 an access whose first byte alone is inside reads or writes past the array.  That is
 undefined in C: it is the case that `HalfDefined` and `WordDefined` exclude, and the only
 one the methods ask their callers to exclude.
 */
module MemoryUnit {
  import opened Words

  type Bytes = seq<Byte>

  const OK: int := 0
  const FAILED: int := -1

  predicate HalfDefined(m: Bytes, a: Word) {
    a < |m| ==> a + 1 < |m|
  }

  predicate WordDefined(m: Bytes, a: Word) {
    a < |m| ==> a + 3 < |m|
  }

  /** Byte k of a word, least significant first. */
  function ByteOf(v: Word, k: nat): Byte
    requires k < 4
  {
    if k == 0 then v % 0x100 else if k == 1 then v / 0x100 % 0x100
    else if k == 2 then v / 0x1_0000 % 0x100 else v / 0x100_0000
  }

  function Join(b3: Byte, b2: Byte, b1: Byte, b0: Byte): Word {
    b3 * 0x100_0000 + b2 * 0x1_0000 + b1 * 0x100 + b0
  }

  function JoinHalf(b1: Byte, b0: Byte): Half {
    b1 * 0x100 + b0
  }

  function WordAt(m: Bytes, a: int, be: bool): Word
    requires 0 <= a && a + 3 < |m|
  {
    if be then Join(m[a], m[a + 1], m[a + 2], m[a + 3])
    else Join(m[a + 3], m[a + 2], m[a + 1], m[a])
  }

  function HalfAt(m: Bytes, a: int, be: bool): Half
    requires 0 <= a && a + 1 < |m|
  {
    if be then JoinHalf(m[a], m[a + 1]) else JoinHalf(m[a + 1], m[a])
  }

  /** Big-endian, the byte at the address is the most significant; little-endian, the least. */
  lemma Endianness(m: Bytes, a: int)
    requires 0 <= a && a + 3 < |m|
    ensures var x: int, y: int, z: int, w: int := m[a], m[a + 1], m[a + 2], m[a + 3];
            && WordAt(m, a, true) == 0x100_0000 * x + 0x1_0000 * y + 0x100 * z + w
            && WordAt(m, a, false) == x + 0x100 * y + 0x1_0000 * z + 0x100_0000 * w
            && HalfAt(m, a, true) == 0x100 * x + y && HalfAt(m, a, false) == x + 0x100 * y
  {
  }

  function PutWord(m: Bytes, a: int, v: Word, be: bool): (r: Bytes)
    requires 0 <= a && a + 3 < |m|
    ensures |r| == |m|
    ensures WordAt(r, a, be) == v
    ensures forall k :: 0 <= k < |m| && !(a <= k < a + 4) ==> r[k] == m[k]
  {
    BytesJoin(v);
    if be then m[a := ByteOf(v, 3)][a + 1 := ByteOf(v, 2)][a + 2 := ByteOf(v, 1)][a + 3 := ByteOf(v, 0)]
    else m[a := ByteOf(v, 0)][a + 1 := ByteOf(v, 1)][a + 2 := ByteOf(v, 2)][a + 3 := ByteOf(v, 3)]
  }

  function PutHalf(m: Bytes, a: int, v: Half, be: bool): (r: Bytes)
    requires 0 <= a && a + 1 < |m|
    ensures |r| == |m|
    ensures HalfAt(r, a, be) == v
    ensures forall k :: 0 <= k < |m| && !(a <= k < a + 2) ==> r[k] == m[k]
  {
    if be then m[a := v / 0x100][a + 1 := v % 0x100] else m[a := v % 0x100][a + 1 := v / 0x100]
  }

  /** The byte-reversed word: what reading in the other endianness gives. */
  function Reverse(v: Word): Word {
    Join(ByteOf(v, 0), ByteOf(v, 1), ByteOf(v, 2), ByteOf(v, 3))
  }

  lemma ReverseTwice(v: Word)
    ensures Reverse(Reverse(v)) == v
  {
    BytesJoin(v);
    JoinBytes(ByteOf(v, 0), ByteOf(v, 1), ByteOf(v, 2), ByteOf(v, 3));
  }

  lemma BytesJoin(v: Word)
    ensures Join(ByteOf(v, 3), ByteOf(v, 2), ByteOf(v, 1), ByteOf(v, 0)) == v
  {
    QuotientRemainder(v, 0x100);
    QuotientRemainder(v / 0x100, 0x100);
    QuotientRemainder(v / 0x1_0000, 0x100);
    DivDiv(v, 0x100, 0x100);
    DivDiv(v, 0x1_0000, 0x100);
  }

  lemma JoinBytes(b3: Byte, b2: Byte, b1: Byte, b0: Byte)
    ensures var w := Join(b3, b2, b1, b0);
            ByteOf(w, 3) == b3 && ByteOf(w, 2) == b2 && ByteOf(w, 1) == b1 && ByteOf(w, 0) == b0
  {
    var w := Join(b3, b2, b1, b0);
    DivModUnique(w, 0x100_0000, b3, b2 * 0x1_0000 + b1 * 0x100 + b0);
    DivModUnique(w, 0x1_0000, b3 * 0x100 + b2, b1 * 0x100 + b0);
    DivModUnique(w, 0x100, b3 * 0x1_0000 + b2 * 0x100 + b1, b0);
  }

  /** A word written in one endianness and read in the other comes back byte-reversed. */
  lemma OtherEndianness(m: Bytes, a: int, v: Word, be: bool)
    requires 0 <= a && a + 3 < |m|
    ensures WordAt(PutWord(m, a, v, be), a, !be) == Reverse(v)
  {
    var r := PutWord(m, a, v, be);
    JoinBytes(ByteOf(v, 3), ByteOf(v, 2), ByteOf(v, 1), ByteOf(v, 0));
    assert r[a] == ByteOf(v, if be then 3 else 0);
  }

  /** A write changes nothing exactly when the word is there already. */
  lemma PutSame(m: Bytes, a: int, v: Word, be: bool)
    requires 0 <= a && a + 3 < |m|
    ensures PutWord(m, a, v, be) == m <==> WordAt(m, a, be) == v
  {
    if be { JoinBytes(m[a], m[a + 1], m[a + 2], m[a + 3]); } else { JoinBytes(m[a + 3], m[a + 2], m[a + 1], m[a]); }
    hide Join;
  }

  /** A word disjoint from a write is unchanged by it. */
  lemma ReadElsewhere(m: Bytes, a: int, v: Word, be: bool, b: int)
    requires 0 <= a && a + 3 < |m| && 0 <= b && b + 3 < |m|
    requires b + 4 <= a || a + 4 <= b
    ensures WordAt(PutWord(m, a, v, be), b, be) == WordAt(m, b, be)
  {
  }

  /** A word depends on its own bytes only. */
  lemma SameBytes(m: Bytes, m': Bytes, a: int, be: bool)
    requires |m| == |m'| && 0 <= a && a + 3 < |m| && forall x :: a <= x < a + 4 ==> m[x] == m'[x]
    ensures WordAt(m, a, be) == WordAt(m', a, be)
  {
    assert m[a] == m'[a] && m[a + 1] == m'[a + 1] && m[a + 2] == m'[a + 2] && m[a + 3] == m'[a + 3];
  }

  /** And a word determines its bytes. */
  lemma BytesOfWord(m: Bytes, m': Bytes, a: int, be: bool)
    requires |m| == |m'| && 0 <= a && a + 3 < |m| && WordAt(m, a, be) == WordAt(m', a, be)
    ensures forall x :: a <= x < a + 4 ==> m[x] == m'[x]
  {
    if be {
      JoinBytes(m[a], m[a + 1], m[a + 2], m[a + 3]); JoinBytes(m'[a], m'[a + 1], m'[a + 2], m'[a + 3]);
    } else {
      JoinBytes(m[a + 3], m[a + 2], m[a + 1], m[a]); JoinBytes(m'[a + 3], m'[a + 2], m'[a + 1], m'[a]);
    }
    hide Join, ByteOf;
  }

  class Memory {
    const data: array<Byte>

    /** memory.c:33, `memory_create`. */
    constructor (size: nat)
      requires size <= 0x1_0000_0000
      ensures data.Length == size && fresh(data)
    {
      data := new Byte[size];
    }

    ghost function Contents(): (m: Bytes)
      reads data
      ensures |m| == data.Length
    {
      data[..]
    }

    method ReadByte(address: Word) returns (err: int, value: Byte)
      ensures err == if address < data.Length then OK else FAILED
      ensures err == OK ==> value == data[address]
    {
      value := 0;
      if address >= data.Length { return FAILED, value; }
      return OK, data[address];
    }

    method ReadHalf(address: Word, be: bool) returns (err: int, value: Half)
      requires HalfDefined(Contents(), address)
      ensures err == if address < data.Length then OK else FAILED
      ensures err == OK ==> value == HalfAt(Contents(), address, be)
    {
      value := 0;
      if address >= data.Length { return FAILED, value; }
      if be {
        value := JoinHalf(data[address], data[address + 1]);
      } else {
        value := JoinHalf(data[address + 1], data[address]);
      }
      return OK, value;
    }

    method ReadWord(address: Word, be: bool) returns (err: int, value: Word)
      requires WordDefined(Contents(), address)
      ensures err == if address < data.Length then OK else FAILED
      ensures err == OK ==> value == WordAt(Contents(), address, be)
    {
      value := 0;
      if address >= data.Length { return FAILED, value; }
      if be {
        value := Join(data[address], data[address + 1], data[address + 2], data[address + 3]);
      } else {
        value := Join(data[address + 3], data[address + 2], data[address + 1], data[address]);
      }
      return OK, value;
    }

    method WriteByte(address: Word, value: Byte) returns (err: int)
      modifies data
      ensures err == if address < data.Length then OK else FAILED
      ensures Contents() == if err == OK then old(Contents())[address := value] else old(Contents())
    {
      if address >= data.Length { return FAILED; }
      data[address] := value;
      return OK;
    }

    method WriteHalf(address: Word, value: Half, be: bool) returns (err: int)
      requires HalfDefined(Contents(), address)
      modifies data
      ensures err == if address < data.Length then OK else FAILED
      ensures Contents() == if err == OK then PutHalf(old(Contents()), address, value, be) else old(Contents())
    {
      if address >= data.Length { return FAILED; }
      if be {
        data[address] := value / 0x100;
        data[address + 1] := value % 0x100;
      } else {
        data[address + 1] := value / 0x100;
        data[address] := value % 0x100;
      }
      assert Contents() == PutHalf(old(Contents()), address, value, be);
      return OK;
    }

    method WriteWord(address: Word, value: Word, be: bool) returns (err: int)
      requires WordDefined(Contents(), address)
      modifies data
      ensures err == if address < data.Length then OK else FAILED
      ensures Contents() == if err == OK then PutWord(old(Contents()), address, value, be) else old(Contents())
    {
      if address >= data.Length { return FAILED; }
      if be {
        data[address] := ByteOf(value, 3);
        data[address + 1] := ByteOf(value, 2);
        data[address + 2] := ByteOf(value, 1);
        data[address + 3] := ByteOf(value, 0);
      } else {
        data[address + 3] := ByteOf(value, 3);
        data[address + 2] := ByteOf(value, 2);
        data[address + 1] := ByteOf(value, 1);
        data[address] := ByteOf(value, 0);
      }
      assert Contents() == PutWord(old(Contents()), address, value, be);
      return OK;
    }
  }
}
