/** The functions of section 4.1.2 of FIPS 180-4, bit by bit. */
module Sha256Bits {
  import opened Bits
  import opened Sha256
  import opened Widths
  import Hmac

  /** The bit that counts `2^i`. */
  predicate Bit(x: nat, i: nat)
    decreases i
  {
    if i == 0 then x % 2 == 1 else Bit(x / 2, i - 1)
  }

  lemma Halves(h: nat, b: nat, z: nat)
    requires b < 2 && z == 2 * h + b
    ensures z / 2 == h && z % 2 == b
  {
  }

  lemma {:induction false} AndBit(x: nat, y: nat, k: nat, i: nat)
    requires i < k
    ensures Bit(AndBits(x, y, k), i) == (Bit(x, i) && Bit(y, i))
    decreases i
  {
    Halves(AndBits(x / 2, y / 2, k - 1), if x % 2 == 1 && y % 2 == 1 then 1 else 0, AndBits(x, y, k));
    if i > 0 {
      AndBit(x / 2, y / 2, k - 1, i - 1);
    }
  }

  lemma {:induction false} OrBit(x: nat, y: nat, k: nat, i: nat)
    requires i < k
    ensures Bit(OrBits(x, y, k), i) == (Bit(x, i) || Bit(y, i))
    decreases i
  {
    Halves(OrBits(x / 2, y / 2, k - 1), if x % 2 == 1 || y % 2 == 1 then 1 else 0, OrBits(x, y, k));
    if i > 0 {
      OrBit(x / 2, y / 2, k - 1, i - 1);
    }
  }

  lemma {:induction false} XorBit(x: nat, y: nat, k: nat, i: nat)
    requires i < k
    ensures Bit(XorBits(x, y, k), i) == (Bit(x, i) != Bit(y, i))
    decreases i
  {
    Halves(XorBits(x / 2, y / 2, k - 1), if x % 2 != y % 2 then 1 else 0, XorBits(x, y, k));
    if i > 0 {
      XorBit(x / 2, y / 2, k - 1, i - 1);
    }
  }

  lemma WordBits(x: Word, y: Word, i: nat)
    requires i < 32
    ensures Bit(And(x, y), i) == (Bit(x, i) && Bit(y, i))
    ensures Bit(Or(x, y), i) == (Bit(x, i) || Bit(y, i))
    ensures Bit(Xor(x, y), i) == (Bit(x, i) != Bit(y, i))
  {
    WholeWords(x, y, 32);
    AndBit(x, y, 32, i);
    OrBit(x, y, 32, i);
    XorBit(x, y, 32, i);
  }

  lemma WholeWords(x: Word, y: Word, k: nat)
    requires k == 32
    ensures And(x, y) == AndBits(x, y, k) && Or(x, y) == OrBits(x, y, k) && Xor(x, y) == XorBits(x, y, k)
  {
    WordPower();
    var a, o, e := AndBits(x, y, k), OrBits(x, y, k), XorBits(x, y, k);
    InRange(a);
    InRange(o);
    InRange(e);
  }

  lemma Complement(x: nat, p: nat)
    requires x < 2 * p
    ensures (2 * p - 1 - x) / 2 == p - 1 - x / 2 && ((2 * p - 1 - x) % 2 == 1 <==> x % 2 == 0)
  {
  }

  lemma {:induction false} NotBits(x: nat, k: nat, i: nat)
    requires x < Two(k) && i < k
    ensures Bit(Two(k) - 1 - x, i) == !Bit(x, i)
    decreases i
  {
    Complement(x, Two(k - 1));
    if i > 0 {
      NotBits(x / 2, k - 1, i - 1);
    }
  }

  lemma NotBit(x: Word, k: nat, i: nat)
    requires k == 32 && i < k
    ensures Bit(Not(x), i) == !Bit(x, i)
  {
    WordPower();
    NotBits(x, k, i);
  }

  lemma {:induction false} ShrBit(x: Word, n: nat, i: nat)
    ensures Bit(Shr(x, n), i) == Bit(x, i + n)
    decreases n
  {
    if n > 0 {
      ShrBit(x, n - 1, i + 1);
    }
  }

  lemma MinusEven(v: nat, p: nat)
    requires 2 * p <= v
    ensures (v - 2 * p) / 2 == v / 2 - p && (v - 2 * p) % 2 == v % 2
  {
  }

  /** Taking away a power of two leaves the bits below it. */
  lemma {:induction false} MinusBit(v: nat, k: nat, i: nat)
    requires i < k && Two(k) <= v
    ensures Bit(v - Two(k), i) == Bit(v, i)
    decreases i
  {
    MinusEven(v, Two(k - 1));
    if i > 0 {
      MinusBit(v / 2, k - 1, i - 1);
    }
  }

  lemma Wrapped(v: nat)
    requires v < 2 * TWO_32
    ensures v % TWO_32 == if v >= TWO_32 then v - TWO_32 else v
  {
  }

  lemma DoubledBit(v: nat, p: nat, k: nat, i: nat)
    requires v < 2 * p && p == TWO_32 && p == Two(k) && i < k
    ensures Bit(v % TWO_32, i) == Bit(v, i)
  {
    Wrapped(v);
    if v >= p {
      MinusBit(v, k, i);
    }
  }

  lemma {:induction false} ShlBit(x: Word, n: nat, k: nat, i: nat)
    requires k == 32 && Two(k) == TWO_32 && i < k
    ensures Bit(Shl(x, n), i) == (i >= n && Bit(x, i - n))
    decreases n
  {
    if n > 0 {
      var y: nat := Shl(x, n - 1);
      DoubledBit(2 * y, TWO_32, k, i);
      Halves(y, 0, 2 * y);
      if i > 0 {
        ShlBit(x, n - 1, k, i - 1);
      }
    }
  }

  lemma {:induction false} ZeroBits(i: nat)
    ensures !Bit(0, i)
  {
    if i > 0 {
      ZeroBits(i - 1);
    }
  }

  lemma {:induction false} HighBits(x: nat, k: nat, i: nat)
    requires x < Two(k) && k <= i
    ensures !Bit(x, i)
    decreases k
  {
    if k > 0 {
      HighBits(x / 2, k - 1, i - 1);
    } else {
      ZeroBits(i);
    }
  }

  /** The bit at a place counted around the word. */
  predicate Around(x: Word, i: nat) {
    Bit(x, i % 32)
  }

  /** What a rotation joins, for a bit at which it is. */
  lemma Joined(x: Word, n: nat, k: nat, i: nat)
    requires k == 32 && Two(k) == TWO_32 && 0 < n < k && i < k
    ensures (Bit(x, i + n) || (i >= k - n && Bit(x, i - (k - n)))) == Around(x, i + n)
  {
    if i + n >= k {
      HighBits(x, k, i + n);
      assert (i + n) % 32 == i - (k - n);
    }
  }

  lemma RotrBit(x: Word, n: nat, k: nat, i: nat)
    requires k == 32 && 0 < n < k && i < k
    ensures Bit(Rotr(x, n), i) == Around(x, i + n)
  {
    assert Two(k) == TWO_32 by {
      WordPower();
    }
    Joined(x, n, k, i);
    ShrBit(x, n, i);
    ShlBit(x, k - n, k, i);
    WordBits(Shr(x, n), Shl(x, k - n), i);
  }

  lemma Three(a: Word, b: Word, c: Word, i: nat)
    requires i < 32
    ensures Bit(Xor(Xor(a, b), c), i) == ((Bit(a, i) != Bit(b, i)) != Bit(c, i))
  {
    WordBits(a, b, i);
    WordBits(Xor(a, b), c, i);
  }

  /** The four sums of rotations and shifts: each bit is the sum of the bits so many places above it. */
  lemma Sigmas(x: Word, i: nat)
    requires i < 32
    ensures Bit(BigSigma0(x), i) == ((Around(x, i + 2) != Around(x, i + 13)) != Around(x, i + 22))
    ensures Bit(BigSigma1(x), i) == ((Around(x, i + 6) != Around(x, i + 11)) != Around(x, i + 25))
    ensures Bit(SmallSigma0(x), i) == ((Around(x, i + 7) != Around(x, i + 18)) != Bit(x, i + 3))
    ensures Bit(SmallSigma1(x), i) == ((Around(x, i + 17) != Around(x, i + 19)) != Bit(x, i + 10))
  {
    BigSigma0Bit(x, i);
    BigSigma1Bit(x, i);
    SmallSigma0Bit(x, i);
    SmallSigma1Bit(x, i);
  }

  lemma BigSigma0Bit(x: Word, i: nat)
    requires i < 32
    ensures Bit(BigSigma0(x), i) == ((Around(x, i + 2) != Around(x, i + 13)) != Around(x, i + 22))
  {
    Three(Rotr(x, 2), Rotr(x, 13), Rotr(x, 22), i);
    RotrBit(x, 2, 32, i);
    RotrBit(x, 13, 32, i);
    RotrBit(x, 22, 32, i);
  }

  lemma BigSigma1Bit(x: Word, i: nat)
    requires i < 32
    ensures Bit(BigSigma1(x), i) == ((Around(x, i + 6) != Around(x, i + 11)) != Around(x, i + 25))
  {
    Three(Rotr(x, 6), Rotr(x, 11), Rotr(x, 25), i);
    RotrBit(x, 6, 32, i);
    RotrBit(x, 11, 32, i);
    RotrBit(x, 25, 32, i);
  }

  lemma SmallSigma0Bit(x: Word, i: nat)
    requires i < 32
    ensures Bit(SmallSigma0(x), i) == ((Around(x, i + 7) != Around(x, i + 18)) != Bit(x, i + 3))
  {
    Three(Rotr(x, 7), Rotr(x, 18), Shr(x, 3), i);
    RotrBit(x, 7, 32, i);
    RotrBit(x, 18, 32, i);
    ShrBit(x, 3, i);
  }

  lemma SmallSigma1Bit(x: Word, i: nat)
    requires i < 32
    ensures Bit(SmallSigma1(x), i) == ((Around(x, i + 17) != Around(x, i + 19)) != Bit(x, i + 10))
  {
    Three(Rotr(x, 17), Rotr(x, 19), Shr(x, 10), i);
    RotrBit(x, 17, 32, i);
    RotrBit(x, 19, 32, i);
    ShrBit(x, 10, i);
  }

  /** `Ch` takes each bit from the second word or the third as the first says; `Maj` takes the one that two have. */
  lemma Choices(x: Word, y: Word, z: Word, i: nat)
    requires i < 32
    ensures Bit(Ch(x, y, z), i) == if Bit(x, i) then Bit(y, i) else Bit(z, i)
    ensures Bit(Maj(x, y, z), i) == if Bit(x, i) == Bit(y, i) then Bit(x, i) else Bit(z, i)
  {
    WordBits(x, y, i);
    WordBits(Not(x), z, i);
    NotBit(x, 32, i);
    WordBits(And(x, y), And(Not(x), z), i);
    WordBits(x, z, i);
    WordBits(y, z, i);
    Three(And(x, y), And(x, z), And(y, z), i);
  }

  /** Combining two bytes differs from each where the other has a bit. */
  lemma ByteXor(x: Byte, y: Byte, k: nat, i: nat)
    requires k == 8 && i < k
    ensures Bit(Hmac.XorByte(x, y), i) == (Bit(x, i) != Bit(y, i))
  {
    WordPower();
    XorBit(x, y, k, i);
    SmallByte(XorBits(x, y, k));
  }

  lemma SmallByte(v: nat)
    requires v < 256
    ensures v % 256 == v
  {
  }

  // ---------- the padding ----------

  /** The number that bytes give, the highest first. */
  function Big(b: seq<Byte>): nat {
    if b == [] then 0 else 256 * Big(b[..|b| - 1]) + b[|b| - 1]
  }

  function Bytes(k: nat): (p: nat)
    ensures p > 0
  {
    if k == 0 then 1 else 256 * Bytes(k - 1)
  }

  lemma {:induction false} BigBytes(n: nat, k: nat)
    requires n < Bytes(k)
    ensures Big(BytesOf(n, k)) == n
    decreases k
  {
    if k > 0 {
      BigBytes(n / 256, k - 1);
      assert BytesOf(n, k)[..k - 1] == BytesOf(n / 256, k - 1);
    }
  }

  lemma EightBytes()
    ensures Bytes(8) == TWO_64
  {
    assert Bytes(2) == 65536;
    assert Bytes(4) == TWO_32;
    assert Bytes(6) == 0x1_0000_0000_0000;
  }

  lemma PadParts(m: seq<Byte>, z: seq<Byte>, l: seq<Byte>, p: seq<Byte>)
    requires p == m + ([0x80] + (z + l)) && |l| == 8 && forall i :: 0 <= i < |z| ==> z[i] == 0
    ensures |p| == |m| + 1 + |z| + 8 && p[..|m|] == m && p[|m|] == 0x80 && p[|p| - 8..] == l
    ensures forall i :: |m| < i < |p| - 8 ==> p[i] == 0
  {
    forall i | |m| < i < |p| - 8 ensures p[i] == 0 {
      assert p[i] == z[i - |m| - 1];
    }
  }

  lemma WholeBlocks(n: nat, k: nat)
    requires (n + 1 + k) % 64 == 56
    ensures (n + 1 + k + 8) % 64 == 0
  {
  }

  /** The last eight bytes of a padded message are its length in bits, the highest byte first. */
  lemma LengthField(n: nat)
    ensures Big(BytesOf(8 * n % TWO_64, 8)) == 8 * n % TWO_64
  {
    EightBytes();
    BigBytes(8 * n % TWO_64, 8);
  }

  /** The padding is the message, one byte with its highest bit set, zeros, and eight bytes for the length: a whole
      number of blocks. */
  lemma PadIs(m: seq<Byte>, p: seq<Byte>, n: nat, k: nat)
    requires p == Pad(m) && n == 8 * |m| % TWO_64 && k == 8
    ensures |p| % 64 == 0 && |m| + 9 <= |p| && p[..|m|] == m && p[|m|] == 0x80 && p[|p| - 8..] == BytesOf(n, k)
    ensures forall i :: |m| < i < |p| - 8 ==> p[i] == 0
  {
    var z := Zeros(Fill(|m|));
    PadParts(m, z, BytesOf(n, k), p);
    WholeBlocks(|m|, |z|);
  }
}
