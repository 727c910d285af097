/**
 The unsigned C integers of the simulator, and the C operators on them.

 A `uint32_t` is an integer below 2^32.  Shifts and arithmetic follow the C rules for
 unsigned operands; `And`, `Or` and `Xor` are defined bit by bit.
 */
module Words {

  type Word = x: int | 0 <= x < 0x1_0000_0000
  type Byte = x: int | 0 <= x < 0x100
  type Half = x: int | 0 <= x < 0x1_0000

  /** Reduction modulo 2^32: what storing a result in a `uint32_t` does. */
  function Wrap(x: int): Word {
    x % 0x1_0000_0000
  }

  function Add(a: int, b: int): Word {
    Wrap(a + b)
  }

  function Sub(a: int, b: int): Word {
    Wrap(a - b)
  }

  function Mul(a: Word, b: Word): Word {
    Wrap(a * b)
  }

  /** The two's complement reading of a word. */
  function Signed(w: Word): int {
    if w < 0x8000_0000 then w else w - 0x1_0000_0000
  }

  function Pow2(n: nat): (p: nat)
    ensures p > 0
  {
    if n == 0 then 1 else 2 * Pow2(n - 1)
  }

  /** `get_bit`: bit i of x. */
  function Bit(x: nat, i: nat): nat {
    x / Pow2(i) % 2
  }

  /** `get_bit` at the positions of the program status register flags N, Z, C and V. */
  function FlagN(psr: Word): (b: Word)
    ensures b < 2
  {
    psr / 0x8000_0000
  }

  function FlagZ(psr: Word): (b: Word)
    ensures b < 2
  {
    psr / 0x4000_0000 % 2
  }

  function FlagC(psr: Word): (b: Word)
    ensures b < 2
  {
    psr / 0x2000_0000 % 2
  }

  function FlagV(psr: Word): (b: Word)
    ensures b < 2
  {
    psr / 0x1000_0000 % 2
  }

  lemma FlagsAreBits(x: Word)
    ensures FlagN(x) == Bit(x, 31) && FlagZ(x) == Bit(x, 30)
    ensures FlagC(x) == Bit(x, 29) && FlagV(x) == Bit(x, 28)
  {
    Pow2Word();
    assert Pow2(31) == 8 * Pow2(28);
  }

  function Shl(x: Word, k: nat): Word {
    x * Pow2(k) % 0x1_0000_0000
  }

  function Shr(x: Word, k: nat): Word {
    DivBound(x, Pow2(k));
    x / Pow2(k)
  }

  function Not(x: Word): Word {
    0xFFFF_FFFF - x
  }

  function AndBits(x: nat, y: nat): (r: nat)
    ensures r <= x && r <= y
    decreases x
  {
    if x == 0 || y == 0 then 0 else x % 2 * (y % 2) + 2 * AndBits(x / 2, y / 2)
  }

  function OrBits(x: nat, y: nat): nat
    decreases x
  {
    if x == 0 then y else if y == 0 then x
    else (if x % 2 + y % 2 > 0 then 1 else 0) + 2 * OrBits(x / 2, y / 2)
  }

  function XorBits(x: nat, y: nat): nat
    decreases x
  {
    if x == 0 then y else if y == 0 then x
    else (x + y) % 2 + 2 * XorBits(x / 2, y / 2)
  }

  function And(x: Word, y: Word): Word {
    AndBits(x, y)
  }

  function Or(x: Word, y: Word): Word {
    Pow2Word(); OrBound(x, y, 32);
    OrBits(x, y)
  }

  function Xor(x: Word, y: Word): Word {
    Pow2Word(); XorBound(x, y, 32);
    XorBits(x, y)
  }

  /** `asr` of util.c, which avoids C's shift of a negative number. */
  function Asr(value: Word, shift: nat): Word
    requires shift <= 32
  {
    Or(Shr(value, shift), if Bit(value, 31) == 1 then Shl(0xFFFF_FFFF, 32 - shift) else 0)
  }

  /** `ror` of util.c; the rotation by 0, which C leaves undefined there, is the identity. */
  function Ror(value: Word, rotation: nat): Word
    requires rotation < 32
  {
    if rotation == 0 then value else Or(Shr(value, rotation), Shl(value, 32 - rotation))
  }

  /** The macro `get_bits` of util.h, as written there. */
  function GetBits(x: Word, h: nat, l: nat): Word
    requires l <= h < 32 && h - l < 31
  {
    And(Shr(x, l), Not(Shl(Shr(0xFFFF_FFFF, h - l + 1), h - l + 1)))
  }

  /** The macros `set_bit` and `clr_bit` of util.h. */
  function SetBit(x: Word, i: nat): Word {
    Or(x, Shl(1, i))
  }

  function ClrBit(x: Word, i: nat): Word {
    And(x, Not(Shl(1, i)))
  }

  // ---------------------------------------------------------------- arithmetic

  lemma Pow2Word()
    ensures Pow2(32) == 0x1_0000_0000 && Pow2(31) == 0x8000_0000
  {
    assert Pow2(8) == 256;
    assert Pow2(16) == 65536;
    assert Pow2(24) == 0x100_0000;
  }

  lemma DivBound(x: nat, d: nat)
    requires d > 0
    ensures 0 <= x / d <= x
  {
    var q := x / d;
    MulSigns(q, d);
    MulAtLeast(q, d);
  }

  /** A product with a positive factor is at least as large as the other factor. */
  lemma MulAtLeast(e: int, d: int)
    requires d > 0
    ensures e >= 0 ==> e * d >= e
  {
    if e >= 0 { assert e * (d - 1) >= 0; assert e * (d - 1) == e * d - e; }
  }

  lemma MulSigns(e: int, d: int)
    requires d > 0
    ensures e >= 1 ==> e * d >= d
    ensures e <= -1 ==> e * d <= -d
  {
    if e >= 1 { assert (e - 1) * d >= 0; assert (e - 1) * d == e * d - d; }
    if e <= -1 { assert (e + 1) * d <= 0; assert (e + 1) * d == e * d + d; }
  }

  lemma {:induction false} Pow2AtLeast(a: nat, b: nat)
    requires a >= b
    ensures Pow2(a) >= Pow2(b)
  {
    if a > b { Pow2AtLeast(a - 1, b); }
  }

  lemma {:induction false} Pow2Add(a: nat, b: nat)
    ensures Pow2(a + b) == Pow2(a) * Pow2(b)
  {
    if a == 0 {
    } else {
      Pow2Add(a - 1, b);
      assert 2 * (Pow2(a - 1) * Pow2(b)) == 2 * Pow2(a - 1) * Pow2(b);
    }
  }

  lemma QuotientRemainder(x: int, d: int)
    requires d > 0
    ensures x == x / d * d + x % d && 0 <= x % d < d
  {
  }

  /** Additions modulo 2^32 can be reduced at once or step by step. */
  lemma AddAdd(a: int, b: int, c: int)
    ensures Add(Add(a, b), c) == Add(a, b + c)
  {
    QuotientRemainder(a + b, 0x1_0000_0000);
    QuotientRemainder(Add(a, b) + c, 0x1_0000_0000);
    DivModUnique(a + b + c, 0x1_0000_0000,
                 (a + b) / 0x1_0000_0000 + (Add(a, b) + c) / 0x1_0000_0000, Add(Add(a, b), c));
  }

  lemma AddSub(a: Word, b: int)
    ensures Sub(Add(a, b), b) == a && Add(Sub(a, b), b) == a
  {
    AddAdd(a, b, -b);
    AddAdd(a, -b, b);
  }

  /** Two points less than 2^32 - 4 apart stay at least 4 apart modulo 2^32. */
  lemma WrapApart(a: Word, x: int, y: int)
    requires 0 <= x && x + 4 <= y <= x + 0xFFFF_FFF8
    requires Add(a, x) <= 0xFFFF_FFFC && Add(a, y) <= 0xFFFF_FFFC
    ensures Add(a, x) + 4 <= Add(a, y) || Add(a, y) + 4 <= Add(a, x)
  {
    QuotientRemainder(a + x, 0x1_0000_0000);
    QuotientRemainder(a + y, 0x1_0000_0000);
  }

  lemma Distribute(x: int, y: int, z: int)
    ensures (x + y) * z == x * z + y * z
    ensures (x - y) * z == x * z - y * z
  {
  }

  lemma Associate(x: int, y: int, z: int)
    ensures x * y * z == x * (y * z)
  {
  }

  lemma MulMonotone(x: int, y: int, z: int)
    requires x <= y && z >= 0
    ensures x * z <= y * z
  {
    Distribute(y, x, z);
    assert (y - x) * z >= 0;
  }

  /** Quotient and remainder are determined by their defining equation. */
  lemma DivModUnique(x: int, d: int, q: int, r: int)
    requires d > 0 && 0 <= r < d && x == q * d + r
    ensures x / d == q && x % d == r
  {
    var e := x / d - q;
    assert x / d * d + x % d == x;
    assert e * d == r - x % d;
    MulSigns(e, d);
  }

  lemma DivDiv(x: int, a: int, b: int)
    requires a > 0 && b > 0
    ensures a * b > 0
    ensures x / a / b == x / (a * b)
    ensures x % (a * b) == x / a % b * a + x % a
  {
    var q, r := x / a, x % a;
    var q2, r2 := q / b, q % b;
    QuotientRemainder(x, a);
    QuotientRemainder(q, b);
    assert q * a == q2 * (a * b) + r2 * a by { Distribute(q2 * b, r2, a); Associate(q2, b, a); }
    assert 0 <= r2 * a + r < a * b by { MulMonotone(0, r2, a); MulMonotone(r2, b - 1, a); Distribute(b, 1, a); }
    DivModUnique(x, a * b, q2, r2 * a + r);
  }

  lemma MulDivMod(x: int, a: int, b: int)
    requires a > 0 && b > 0
    ensures a * b > 0
    ensures x * a / (a * b) == x / b
    ensures x * a % (a * b) == x % b * a
  {
    var q, r := x / b, x % b;
    assert x * a == q * (a * b) + r * a by {
      assert (q * b + r) * a == q * b * a + r * a;
      assert q * b * a == q * (a * b);
    }
    assert 0 <= r * a < a * b by { assert r * a <= (b - 1) * a; assert (b - 1) * a == b * a - a; }
    DivModUnique(x * a, a * b, q, r * a);
  }

  // ---------------------------------------------------------------- bitwise operators

  lemma {:induction false} OrBound(x: nat, y: nat, n: nat)
    requires x < Pow2(n) && y < Pow2(n)
    ensures OrBits(x, y) < Pow2(n)
  {
    if x != 0 && y != 0 { OrBound(x / 2, y / 2, n - 1); }
  }

  lemma {:induction false} XorBound(x: nat, y: nat, n: nat)
    requires x < Pow2(n) && y < Pow2(n)
    ensures XorBits(x, y) < Pow2(n)
  {
    if x != 0 && y != 0 { XorBound(x / 2, y / 2, n - 1); }
  }
}
