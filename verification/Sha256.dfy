/** SHA-256 as sections 5 and 6.2 of FIPS 180-4 define it, and the two implementations of the program. */
module Sha256 {

  import opened Bits
  import opened Widths
  import Text

  // ---------- the functions of section 4.1.2 ----------

  function Rotr(x: Word, n: nat): Word
    requires n <= 32
  {
    Or(Shr(x, n), Shl(x, 32 - n))
  }

  function Ch(x: Word, y: Word, z: Word): Word {
    Xor(And(x, y), And(Not(x), z))
  }

  function Maj(x: Word, y: Word, z: Word): Word {
    Xor(Xor(And(x, y), And(x, z)), And(y, z))
  }

  function BigSigma0(x: Word): Word {
    Xor(Xor(Rotr(x, 2), Rotr(x, 13)), Rotr(x, 22))
  }

  function BigSigma1(x: Word): Word {
    Xor(Xor(Rotr(x, 6), Rotr(x, 11)), Rotr(x, 25))
  }

  function SmallSigma0(x: Word): Word {
    Xor(Xor(Rotr(x, 7), Rotr(x, 18)), Shr(x, 3))
  }

  function SmallSigma1(x: Word): Word {
    Xor(Xor(Rotr(x, 17), Rotr(x, 19)), Shr(x, 10))
  }

  // ---------- the constants of sections 4.2.2 and 5.3.3 ----------

  /** The constants, eight in a row. */
  function Row0(): (k: seq<Word>)
    ensures |k| == 8
  {
    [0x428a2f98, 0x71374491, 0xb5c0fbcf, 0xe9b5dba5, 0x3956c25b, 0x59f111f1, 0x923f82a4, 0xab1c5ed5]
  }

  function Row1(): (k: seq<Word>)
    ensures |k| == 8
  {
    [0xd807aa98, 0x12835b01, 0x243185be, 0x550c7dc3, 0x72be5d74, 0x80deb1fe, 0x9bdc06a7, 0xc19bf174]
  }

  function Row2(): (k: seq<Word>)
    ensures |k| == 8
  {
    [0xe49b69c1, 0xefbe4786, 0x0fc19dc6, 0x240ca1cc, 0x2de92c6f, 0x4a7484aa, 0x5cb0a9dc, 0x76f988da]
  }

  function Row3(): (k: seq<Word>)
    ensures |k| == 8
  {
    [0x983e5152, 0xa831c66d, 0xb00327c8, 0xbf597fc7, 0xc6e00bf3, 0xd5a79147, 0x06ca6351, 0x14292967]
  }

  function Row4(): (k: seq<Word>)
    ensures |k| == 8
  {
    [0x27b70a85, 0x2e1b2138, 0x4d2c6dfc, 0x53380d13, 0x650a7354, 0x766a0abb, 0x81c2c92e, 0x92722c85]
  }

  function Row5(): (k: seq<Word>)
    ensures |k| == 8
  {
    [0xa2bfe8a1, 0xa81a664b, 0xc24b8b70, 0xc76c51a3, 0xd192e819, 0xd6990624, 0xf40e3585, 0x106aa070]
  }

  function Row6(): (k: seq<Word>)
    ensures |k| == 8
  {
    [0x19a4c116, 0x1e376c08, 0x2748774c, 0x34b0bcb5, 0x391c0cb3, 0x4ed8aa4a, 0x5b9cca4f, 0x682e6ff3]
  }

  function Row7(): (k: seq<Word>)
    ensures |k| == 8
  {
    [0x748f82ee, 0x78a5636f, 0x84c87814, 0x8cc70208, 0x90befffa, 0xa4506ceb, 0xbef9a3f7, 0xc67178f2]
  }

  function Constants(): (k: seq<Word>)
    ensures |k| == 64
  {
    Row0() + Row1() + Row2() + Row3() + Row4() + Row5() + Row6() + Row7()
  }

  /** The eight working variables, or an intermediate hash value. */
  datatype Hash = Hash(a: Word, b: Word, c: Word, d: Word, e: Word, f: Word, g: Word, h: Word)

  function Initial(): Hash {
    Hash(0x6a09e667, 0xbb67ae85, 0x3c6ef372, 0xa54ff53a, 0x510e527f, 0x9b05688c, 0x1f83d9ab, 0x5be0cd19)
  }

  // ---------- the hash computation of section 6.2.2 ----------

  /** The word that the schedule derives from four earlier ones. */
  function NextWord(w2: Word, w7: Word, w15: Word, w16: Word): Word {
    Add(Add(Add(SmallSigma1(w2), w7), SmallSigma0(w15)), w16)
  }

  /** The message schedule. */
  function Schedule(block: seq<Word>, t: nat): Word
    requires |block| == 16
  {
    if t < 16 then block[t]
    else NextWord(Schedule(block, t - 2), Schedule(block, t - 7), Schedule(block, t - 15), Schedule(block, t - 16))
  }

  /** The working variables after `t` rounds. */
  function Rounds(s: Hash, ks: seq<Word>, block: seq<Word>, t: nat): Hash
    requires |block| == 16 && t <= |ks|
    decreases s, ks, block, t, 0
  {
    if t == 0 then s else Round(s, ks, block, t - 1)
  }

  function Round(s: Hash, ks: seq<Word>, block: seq<Word>, t: nat): Hash
    requires |block| == 16 && t < |ks|
    decreases s, ks, block, t, 1
  {
    var v := Rounds(s, ks, block, t);
    var t1 := Add(Add(Add(Add(v.h, BigSigma1(v.e)), Ch(v.e, v.f, v.g)), ks[t]), Schedule(block, t));
    var t2 := Add(BigSigma0(v.a), Maj(v.a, v.b, v.c));
    Hash(Add(t1, t2), v.a, v.b, v.c, Add(v.d, t1), v.e, v.f, v.g)
  }

  function AddWords(s: Hash, u: Hash): Hash {
    Hash(Add(s.a, u.a), Add(s.b, u.b), Add(s.c, u.c), Add(s.d, u.d), Add(s.e, u.e), Add(s.f, u.f), Add(s.g, u.g), Add(s.h, u.h))
  }

  function Compress(ks: seq<Word>, s: Hash, block: seq<Word>): Hash
    requires |ks| == 64 && |block| == 16
  {
    AddWords(s, Rounds(s, ks, block, |ks|))
  }

  function Words(m: seq<Byte>): (w: seq<Word>)
    requires |m| == 64
    ensures |w| == 16 && forall i :: 0 <= i < 16 ==> w[i] == BigEndian(m[4 * i], m[4 * i + 1], m[4 * i + 2], m[4 * i + 3])
  {
    seq(16, i requires 0 <= i < 16 => BigEndian(m[4 * i], m[4 * i + 1], m[4 * i + 2], m[4 * i + 3]))
  }

  /** The hash value after `n` blocks. */
  function Blocks(ks: seq<Word>, s: Hash, m: seq<Byte>, n: nat): Hash
    requires |ks| == 64 && 64 * n <= |m|
  {
    if n == 0 then s else Compress(ks, Blocks(ks, s, m, n - 1), Words(m[64 * n - 64..64 * n]))
  }

  // ---------- the padding of section 5.1.1 ----------

  function Zeros(n: nat): (z: seq<Byte>)
    ensures |z| == n && forall i :: 0 <= i < n ==> z[i] == 0
  {
    seq(n, _ => 0)
  }

  function ByteOf(n: nat): Byte {
    n % 256
  }

  /** The `k` low bytes of a number, the highest first. */
  function BytesOf(n: nat, k: nat): (b: seq<Byte>)
    ensures |b| == k
  {
    if k == 0 then [] else BytesOf(n / 256, k - 1) + [ByteOf(n)]
  }

  /** The number of zero bytes that fill the last block up to its length field. */
  function Fill(n: nat): (k: nat)
    ensures k < 64 && (n + 1 + k) % 64 == 56
  {
    (119 - n % 64) % 64
  }

  /** The message, a one bit, zeros, and the length in bits on 64 bits. */
  function Pad(m: seq<Byte>): seq<Byte> {
    m + ([0x80] + (Zeros(Fill(|m|)) + BytesOf(8 * |m| % TWO_64, 8)))
  }

  function Digest(m: seq<Byte>): Hash {
    Blocks(Constants(), Initial(), Pad(m), |Pad(m)| / 64)
  }

  // ---------- printing ----------

  /** The `k` low hexadecimal digits of a number, the highest first. */
  function HexDigits(n: nat, k: nat): (s: string)
    ensures |s| == k
  {
    if k == 0 then [] else HexDigits(n / 16, k - 1) + [Text.HexDigit(n % 16)]
  }

  function HexWord(w: Word): string {
    HexDigits(w, 8)
  }

  function HexWords(ws: seq<Word>): string {
    if ws == [] then "" else HexWords(ws[..|ws| - 1]) + HexWord(ws[|ws| - 1])
  }

  function ToWords(s: Hash): (ws: seq<Word>)
    ensures |ws| == 8
  {
    [s.a, s.b, s.c, s.d, s.e, s.f, s.g, s.h]
  }

  function Hex(s: Hash): string {
    HexWords(ToWords(s))
  }

  function HexDigest(m: seq<Byte>): string {
    Hex(Digest(m))
  }

  /** What an output stream prints for a number in hexadecimal: no leading zeros. */
  function Printed(n: nat): (s: string)
    ensures s != []
  {
    if n < 16 then [Text.HexDigit(n)] else Printed(n / 16) + [Text.HexDigit(n % 16)]
  }

  /** `setw` and `setfill`: fills up to a width. */
  function Filled(s: string, width: nat, c: char): string {
    if |s| < width then seq(width - |s|, _ => c) + s else s
  }

  lemma FilledAppend(s: string, width: nat, c: char, d: char)
    ensures Filled(s + [d], width + 1, c) == Filled(s, width, c) + [d]
  {
  }

  /** The powers of sixteen. */
  function Sixteen(k: nat): nat {
    if k == 0 then 1 else 16 * Sixteen(k - 1)
  }

  lemma {:induction false} ZeroDigits(k: nat)
    ensures HexDigits(0, k) == seq(k, _ => '0')
  {
    if k > 0 {
      ZeroDigits(k - 1);
    }
  }

  lemma {:induction false} PrintedFilled(n: nat, k: nat)
    requires k > 0 && n < Sixteen(k)
    ensures Filled(Printed(n), k, '0') == HexDigits(n, k)
    decreases k
  {
    if n < 16 {
      ZeroDigits(k - 1);
    } else {
      assert Sixteen(0) == 1 && Sixteen(1) == 16;
      assert k > 1;
      PrintedFilled(n / 16, k - 1);
      FilledAppend(Printed(n / 16), k - 1, '0', Text.HexDigit(n % 16));
    }
  }

  method PrintWord(w: Word) returns (o: string)
    ensures o == HexWord(w)
  {
    o := Filled(Printed(w), 8, '0');
    assert Sixteen(4) == 65536;
    PrintedFilled(w, 8);
  }

  // ---------- the first implementation ----------

  /** `n >> 8 * i`. */
  function ShiftBytes(n: nat, i: nat): nat {
    if i == 0 then n else ShiftBytes(n, i - 1) / 256
  }

  lemma PadRegroup(m: seq<Byte>, z: seq<Byte>, l: seq<Byte>)
    ensures m + [0x80] + z + l == m + ([0x80] + (z + l))
  {
  }

  lemma PadAppended(m: seq<Byte>, body: seq<Byte>)
    requires body == m + [0x80] + Zeros(Fill(|m|))
    ensures body + BytesOf(8 * |m| % TWO_64, 8) == Pad(m)
  {
    PadRegroup(m, Zeros(Fill(|m|)), BytesOf(8 * |m| % TWO_64, 8));
  }

  lemma NotYet(n: nat, k: nat)
    requires k <= Fill(n)
    ensures (n + 1 + k) % 64 == 56 <==> k == Fill(n)
  {
  }

  method AppendZeros(data: seq<Byte>) returns (msg: seq<Byte>)
    ensures msg == data + [0x80] + Zeros(Fill(|data|))
  {
    msg := data + [0x80];
    ghost var k, n := 0, |data|;
    NotYet(n, 0);
    while |msg| % 64 != 56
      invariant k <= Fill(n) && |msg| == n + 1 + k && (|msg| % 64 == 56 <==> k == Fill(n))
      invariant msg == data + [0x80] + Zeros(k)
      decreases Fill(n) - k
    {
      assert Zeros(k + 1) == Zeros(k) + [0];
      msg := msg + [0];
      k := k + 1;
      NotYet(n, k);
    }
  }

  method AppendLength(body: seq<Byte>, bitlen: nat) returns (msg: seq<Byte>)
    ensures msg == body + BytesOf(bitlen, 8)
  {
    msg := body;
    for i := 8 downto 0
      invariant msg == body + BytesOf(ShiftBytes(bitlen, i), 8 - i)
    {
      msg := msg + [ByteOf(ShiftBytes(bitlen, i))];
    }
  }

  method PadMessage(data: seq<Byte>) returns (msg: seq<Byte>)
    ensures msg == Pad(data)
  {
    var bitlen := 8 * |data| % TWO_64;
    var body := AppendZeros(data);
    msg := AppendLength(body, bitlen);
    PadAppended(data, body);
  }

  method LoadWords(msg: seq<Byte>, off: nat, w: array<Word>)
    requires off + 64 <= |msg| && w.Length == 64
    modifies w
    ensures w[..16] == Words(msg[off..off + 64])
  {
    for i := 0 to 16
      invariant forall t :: 0 <= t < i ==>
                  w[t] == BigEndian(msg[off + t * 4], msg[off + t * 4 + 1], msg[off + t * 4 + 2], msg[off + t * 4 + 3])
    {
      ShiftedOrIs(msg[off + i * 4], msg[off + i * 4 + 1], msg[off + i * 4 + 2], msg[off + i * 4 + 3]);
      w[i] := ShiftedOr(msg[off + i * 4], msg[off + i * 4 + 1], msg[off + i * 4 + 2], msg[off + i * 4 + 3]);
    }
  }

  method MixWords(w2: Word, w7: Word, w15: Word, w16: Word) returns (x: Word)
    ensures x == NextWord(w2, w7, w15, w16)
  {
    var s0 := Xor(Xor(Rotr(w15, 7), Rotr(w15, 18)), Shr(w15, 3));
    var s1 := Xor(Xor(Rotr(w2, 17), Rotr(w2, 19)), Shr(w2, 10));
    AddReverse(w16, s0, w7, s1);
    x := Add(Add(Add(w16, s0), w7), s1);
  }

  method ExpandWords(w: array<Word>)
    requires w.Length == 64
    modifies w
    ensures forall t :: 0 <= t < 64 ==> w[t] == Schedule(old(w[..16]), t)
  {
    ghost var block := w[..16];
    for i := 16 to 64
      invariant forall t :: 0 <= t < i ==> w[t] == Schedule(block, t)
    {
      w[i] := MixWords(w[i - 2], w[i - 7], w[i - 15], w[i - 16]);
    }
  }

  method RunRounds(h: Hash, k: seq<Word>, w: array<Word>, ghost block: seq<Word>) returns (r: Hash)
    requires |k| == 64 && w.Length == 64 && |block| == 16
    requires forall t :: 0 <= t < 64 ==> w[t] == Schedule(block, t)
    ensures r == Rounds(h, k, block, 64)
  {
    var a, b, c, d, e, f, g, h' := h.a, h.b, h.c, h.d, h.e, h.f, h.g, h.h;
    for i := 0 to 64
      invariant Hash(a, b, c, d, e, f, g, h') == Rounds(h, k, block, i)
    {
      var bs1 := BigSigma1(e);
      var ch := Ch(e, f, g);
      var temp1 := Add(Add(Add(Add(h', bs1), ch), k[i]), w[i]);
      var bs0 := BigSigma0(a);
      var maj := Maj(a, b, c);
      var temp2 := Add(bs0, maj);
      h' := g;
      g := f;
      f := e;
      e := Add(d, temp1);
      d := c;
      c := b;
      b := a;
      a := Add(temp1, temp2);
    }
    r := Hash(a, b, c, d, e, f, g, h');
  }

  lemma WholeBlocks(n: nat, k: nat)
    requires (n + 1 + k) % 64 == 56
    ensures (n + 9 + k) % 64 == 0
  {
  }

  lemma PadWhole(m: seq<Byte>)
    ensures |Pad(m)| == |m| + 9 + Fill(|m|) && |Pad(m)| % 64 == 0
  {
    WholeBlocks(|m|, Fill(|m|));
  }

  method PrintWords(ws: seq<Word>) returns (o: string)
    ensures o == HexWords(ws)
  {
    o := "";
    for i := 0 to |ws|
      invariant o == HexWords(ws[..i])
    {
      var x := PrintWord(ws[i]);
      o := o + x;
      assert ws[..i + 1][..i] == ws[..i];
    }
    assert ws[..|ws|] == ws;
  }

  method HashBlock(k: seq<Word>, h: Hash, msg: seq<Byte>, off: nat) returns (r: Hash)
    requires |k| == 64 && off + 64 <= |msg|
    ensures r == Compress(k, h, Words(msg[off..off + 64]))
  {
    var w := new Word[64];
    LoadWords(msg, off, w);
    ExpandWords(w);
    var u := RunRounds(h, k, w, Words(msg[off..off + 64]));
    r := AddWords(h, u);
  }

  lemma NextBlock(k: seq<Word>, iv: Hash, msg: seq<Byte>, n: nat, off: nat)
    requires |k| == 64 && off == 64 * n && off + 64 <= |msg|
    ensures Blocks(k, iv, msg, n + 1) == Compress(k, Blocks(k, iv, msg, n), Words(msg[off..off + 64]))
  {
  }

  method HashBlocks(k: seq<Word>, iv: Hash, msg: seq<Byte>, ghost count: nat) returns (h: Hash)
    requires |k| == 64 && |msg| == 64 * count
    ensures h == Blocks(k, iv, msg, count)
  {
    h := iv;
    var off := 0;
    ghost var n := 0;
    while off < |msg|
      invariant off == 64 * n && n <= count
      invariant h == Blocks(k, iv, msg, n)
    {
      NextBlock(k, iv, msg, n, off);
      h := HashBlock(k, h, msg, off);
      off := off + 64;
      n := n + 1;
    }
  }

  method Sha256Hex(data: seq<Byte>) returns (o: string)
    ensures o == HexDigest(data)
  {
    var msg := PadMessage(data);
    PadWhole(data);
    var h := HashBlocks(Constants(), Initial(), msg, |msg| / 64);
    o := PrintWords([h.a, h.b, h.c, h.d, h.e, h.f, h.g, h.h]);
  }

  // ---------- the second implementation ----------

  method ExpandSchedule(w: array<Word>)
    requires w.Length == 64
    modifies w
    ensures forall t :: 0 <= t < 64 ==> w[t] == Schedule(old(w[..16]), t)
  {
    ghost var block := w[..16];
    for t := 16 to 64
      invariant forall i :: 0 <= i < t ==> w[i] == Schedule(block, i)
    {
      w[t] := Add(Add(Add(SmallSigma1(w[t - 2]), w[t - 7]), SmallSigma0(w[t - 15])), w[t - 16]);
    }
  }

  function HashOf(hs: array<Word>): Hash
    requires hs.Length == 8
    reads hs
  {
    Hash(hs[0], hs[1], hs[2], hs[3], hs[4], hs[5], hs[6], hs[7])
  }

  method AddInPlace(hs: array<Word>, u: Hash)
    requires hs.Length == 8
    modifies hs
    ensures HashOf(hs) == AddWords(old(HashOf(hs)), u)
  {
    hs[0] := Add(hs[0], u.a);
    hs[1] := Add(hs[1], u.b);
    hs[2] := Add(hs[2], u.c);
    hs[3] := Add(hs[3], u.d);
    hs[4] := Add(hs[4], u.e);
    hs[5] := Add(hs[5], u.f);
    hs[6] := Add(hs[6], u.g);
    hs[7] := Add(hs[7], u.h);
  }

  method HashBlockInPlace(k: seq<Word>, hs: array<Word>, msg: seq<Byte>, off: nat)
    requires |k| == 64 && off + 64 <= |msg| && hs.Length == 8
    modifies hs
    ensures HashOf(hs) == Compress(k, old(HashOf(hs)), Words(msg[off..off + 64]))
  {
    var h := HashOf(hs);
    var w := new Word[64];
    LoadWords(msg, off, w);
    ExpandSchedule(w);
    var u := RunRounds(h, k, w, Words(msg[off..off + 64]));
    AddInPlace(hs, u);
  }

  method HashBlocksInPlace(k: seq<Word>, hs: array<Word>, msg: seq<Byte>, ghost count: nat)
    requires |k| == 64 && |msg| == 64 * count && hs.Length == 8
    modifies hs
    ensures HashOf(hs) == Blocks(k, old(HashOf(hs)), msg, count)
  {
    var off := 0;
    ghost var n, iv := 0, HashOf(hs);
    while off < |msg|
      invariant off == 64 * n && n <= count
      invariant HashOf(hs) == Blocks(k, iv, msg, n)
    {
      NextBlock(k, iv, msg, n, off);
      HashBlockInPlace(k, hs, msg, off);
      off := off + 64;
      n := n + 1;
    }
  }

  method HashStream(data: seq<Byte>) returns (o: string)
    ensures o == HexDigest(data)
  {
    var hs := new Word[8];
    var iv := Initial();
    hs[0], hs[1], hs[2], hs[3] := iv.a, iv.b, iv.c, iv.d;
    hs[4], hs[5], hs[6], hs[7] := iv.e, iv.f, iv.g, iv.h;
    assert HashOf(hs) == iv;
    var msg := PadMessage(data);
    PadWhole(data);
    HashBlocksInPlace(Constants(), hs, msg, |msg| / 64);
    assert hs[..] == ToWords(HashOf(hs));
    o := PrintWords(hs[..]);
  }

  // ---------- what the padding and the digest are ----------

  /** No shorter run of zeros ends the message with room for the length field at the end of a block. */
  lemma PaddingMinimal(m: seq<Byte>, k: nat)
    requires (|m| + 1 + k + 8) % 64 == 0
    ensures |Pad(m)| <= |m| + 1 + k + 8
  {
    PadWhole(m);
    Least(|m|, k, Fill(|m|), (|m| + 9 + k) / 64, |Pad(m)| / 64);
  }

  lemma Least(n: nat, k: nat, f: nat, a: nat, b: nat)
    requires n + 9 + k == 64 * a && n + 9 + f == 64 * b && f < 64
    ensures f <= k
  {
  }

  /** Different messages have different paddings, whatever their lengths. */
  lemma PaddingInjective(a: seq<Byte>, b: seq<Byte>)
    requires Pad(a) == Pad(b)
    ensures a == b
  {
    if |a| < |b| {
      MarkerDiffers(a, b);
    } else if |b| < |a| {
      MarkerDiffers(b, a);
    } else {
      assert Pad(a)[..|a|] == a && Pad(b)[..|b|] == b;
    }
  }

  /** The marker of the longer message stands where the shorter one has a zero. */
  lemma MarkerDiffers(a: seq<Byte>, b: seq<Byte>)
    requires |a| < |b|
    ensures Pad(a) != Pad(b)
  {
    if |Pad(a)| == |Pad(b)| {
      PadWhole(a);
      PadWhole(b);
      assert Pad(b)[|b|] == 0x80;
      PadZero(a, |b|);
    }
  }

  lemma PadZero(m: seq<Byte>, i: nat)
    requires |m| < i <= |m| + Fill(|m|)
    ensures i < |Pad(m)| && Pad(m)[i] == 0
  {
    assert Pad(m)[i] == (Zeros(Fill(|m|)) + BytesOf(8 * |m| % TWO_64, 8))[i - |m| - 1];
  }

  predicate IsHexDigit(c: char) {
    '0' <= c <= '9' || 'a' <= c <= 'f'
  }

  lemma {:induction false} HexDigitsAre(n: nat, k: nat)
    ensures forall c :: c in HexDigits(n, k) ==> IsHexDigit(c)
    decreases k
  {
    if k > 0 {
      HexDigitsAre(n / 16, k - 1);
    }
  }

  lemma {:induction false} HexWordsAre(ws: seq<Word>)
    ensures |HexWords(ws)| == 8 * |ws| && forall c :: c in HexWords(ws) ==> IsHexDigit(c)
  {
    if ws != [] {
      HexWordsAre(ws[..|ws| - 1]);
      HexDigitsAre(ws[|ws| - 1], 8);
    }
  }

  /** A digest is 64 hexadecimal digits: one line, and never empty. */
  lemma DigestShape(m: seq<Byte>)
    ensures |HexDigest(m)| == 64 && forall c :: c in HexDigest(m) ==> IsHexDigit(c)
  {
    HexWordsAre(ToWords(Digest(m)));
  }

  // ---------- strings ----------

  /** The bytes of a string. */
  function CharBytes(s: string): (b: seq<Byte>)
    ensures |b| == |s| && forall i :: 0 <= i < |s| ==> b[i] == s[i] as int % 256
  {
    seq(|s|, i requires 0 <= i < |s| => s[i] as int % 256)
  }
}
