/** Unsigned 32-bit words and bytes as numbers, with the bit operations of C++ written out. */
module Bits {
  import opened Widths

  type Byte = x: int | 0 <= x < 256
  type Word = x: int | 0 <= x < TWO_32

  /** The powers of two. */
  function Two(k: nat): nat {
    if k == 0 then 1 else 2 * Two(k - 1)
  }

  function AndBits(x: nat, y: nat, k: nat): (z: nat)
    ensures z < Two(k)
  {
    if k == 0 then 0 else 2 * AndBits(x / 2, y / 2, k - 1) + (if x % 2 == 1 && y % 2 == 1 then 1 else 0)
  }

  function OrBits(x: nat, y: nat, k: nat): (z: nat)
    ensures z < Two(k)
  {
    if k == 0 then 0 else 2 * OrBits(x / 2, y / 2, k - 1) + (if x % 2 == 1 || y % 2 == 1 then 1 else 0)
  }

  function XorBits(x: nat, y: nat, k: nat): (z: nat)
    ensures z < Two(k)
  {
    if k == 0 then 0 else 2 * XorBits(x / 2, y / 2, k - 1) + (if x % 2 != y % 2 then 1 else 0)
  }

  lemma WordPower()
    ensures Two(8) == 256 && Two(16) == 65536 && Two(24) == 0x100_0000 && Two(32) == TWO_32
  {
    assert Two(4) == 16;
    assert Two(12) == 4096;
    assert Two(20) == 0x10_0000;
    assert Two(28) == 0x1000_0000;
  }

  function And(x: Word, y: Word): Word {
    AndBits(x, y, 32) % TWO_32
  }

  function Or(x: Word, y: Word): Word {
    OrBits(x, y, 32) % TWO_32
  }

  function Xor(x: Word, y: Word): Word {
    XorBits(x, y, 32) % TWO_32
  }

  function Not(x: Word): Word {
    TWO_32 - 1 - x
  }

  function Add(x: Word, y: Word): Word {
    (x + y) % TWO_32
  }

  function Shr(x: Word, n: nat): Word {
    if n == 0 then x else Shr(x, n - 1) / 2
  }

  function Shl(x: Word, n: nat): Word {
    if n == 0 then x else 2 * Shl(x, n - 1) % TWO_32
  }

  lemma ModAdd(x: nat, y: nat)
    ensures (x % TWO_32 + y) % TWO_32 == (x + y) % TWO_32
  {
  }

  lemma AddFour(a: Word, b: Word, c: Word, d: Word)
    ensures Add(Add(Add(a, b), c), d) == (a + b + c + d) % TWO_32
  {
    ModAdd(a + b, c);
    ModAdd(a + b + c, d);
  }

  lemma AddReverse(a: Word, b: Word, c: Word, d: Word)
    ensures Add(Add(Add(a, b), c), d) == Add(Add(Add(d, c), b), a)
  {
    AddFour(a, b, c, d);
    AddFour(d, c, b, a);
  }

  // ---------- putting bytes side by side ----------

  lemma {:induction false} OrZero(x: nat, k: nat)
    requires x < Two(k)
    ensures OrBits(x, 0, k) == x
  {
    if k > 0 {
      OrZero(x / 2, k - 1);
    }
  }

  predicate Multiple(x: nat, j: nat) {
    j == 0 || (x % 2 == 0 && Multiple(x / 2, j - 1))
  }

  /** A multiple of `2^j` and a number below it share no bit. */
  lemma {:induction false} OrDisjoint(x: nat, y: nat, j: nat, k: nat)
    requires j <= k && x < Two(k) && y < Two(j) && Multiple(x, j)
    ensures OrBits(x, y, k) == x + y
    decreases k
  {
    if j == 0 {
      OrZero(x, k);
    } else {
      OrDisjoint(x / 2, y / 2, j - 1, k - 1);
    }
  }

  lemma Double(q: nat, p: nat)
    ensures q * (2 * p) == 2 * (q * p)
  {
  }

  lemma {:induction false} IsMultiple(q: nat, j: nat)
    ensures Multiple(q * Two(j), j)
  {
    if j > 0 {
      Double(q, Two(j - 1));
      IsMultiple(q, j - 1);
    }
  }

  lemma {:induction false} ShlIs(x: Word, n: nat)
    requires x * Two(n) < TWO_32
    ensures Shl(x, n) == x * Two(n)
  {
    if n > 0 {
      Double(x, Two(n - 1));
      ShlIs(x, n - 1);
      InRange(x * Two(n));
    }
  }

  /** The four bytes of a word, the highest first. */
  function BigEndian(b0: Byte, b1: Byte, b2: Byte, b3: Byte): Word {
    ((b0 * 256 + b1) * 256 + b2) * 256 + b3
  }

  function ShiftedOr(b0: Byte, b1: Byte, b2: Byte, b3: Byte): Word {
    Or(Or(Or(Shl(b0, 24), Shl(b1, 16)), Shl(b2, 8)), b3)
  }

  lemma OrIs(z: Word, y: Word, k: nat, v: Word)
    requires k == 32 && OrBits(z, y, k) == v
    ensures Or(z, y) == v
  {
    InRange(v);
  }

  lemma InRange(v: Word)
    ensures v % TWO_32 == v
  {
  }

  lemma JoinBits(z: nat, y: nat, j: nat, k: nat)
    requires k == 32 && Two(k) == TWO_32
    requires j <= k && Multiple(z, j) && z < TWO_32 && y < Two(j) && z + y < TWO_32
    ensures Or(z, y) == z + y
  {
    OrDisjoint(z, y, j, k);
    OrIs(z, y, k, z + y);
  }

  lemma JoinByte(z: nat, y: nat, j: nat)
    requires j <= 32 && Multiple(z, j) && z < TWO_32 && y < Two(j) && z + y < TWO_32
    ensures Or(z, y) == z + y
  {
    WordPower();
    JoinBits(z, y, j, 32);
  }

  lemma Shifts(b: Byte)
    ensures Shl(b, 24) == b * 0x100_0000 && Shl(b, 16) == b * 65536 && Shl(b, 8) == b * 256
  {
    WordPower();
    ShlIs(b, 24);
    ShlIs(b, 16);
    ShlIs(b, 8);
  }

  lemma JoinTwo(x: Byte, b: Byte)
    ensures Or(x * 0x100_0000, b * 65536) == (x * 256 + b) * 65536
  {
    assert Two(24) == 0x100_0000 by { WordPower(); }
    IsMultiple(x, 24);
    JoinByte(x * 0x100_0000, b * 65536, 24);
  }

  lemma JoinThree(x: nat, b: Byte)
    requires x < 65536
    ensures Or(x * 65536, b * 256) == (x * 256 + b) * 256
  {
    assert Two(16) == 65536 by { WordPower(); }
    IsMultiple(x, 16);
    JoinByte(x * 65536, b * 256, 16);
  }

  lemma JoinFour(x: nat, b: Byte)
    requires x < 0x100_0000
    ensures Or(x * 256, b) == x * 256 + b
  {
    assert Two(8) == 256 by { WordPower(); }
    IsMultiple(x, 8);
    JoinByte(x * 256, b, 8);
  }

  /** Shifting and joining four bytes gives the word they spell. */
  lemma ShiftedOrIs(b0: Byte, b1: Byte, b2: Byte, b3: Byte)
    ensures ShiftedOr(b0, b1, b2, b3) == BigEndian(b0, b1, b2, b3)
  {
    Shifts(b0);
    Shifts(b1);
    Shifts(b2);
    var x1 := b0 * 256 + b1;
    JoinTwo(b0, b1);
    var x2 := x1 * 256 + b2;
    JoinThree(x1, b2);
    JoinFour(x2, b3);
  }
}
