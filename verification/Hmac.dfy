/** The HMAC used without OpenSSL, against section 2 of RFC 2104. */
module Hmac {
  import opened Bits
  import opened Sha256
  import Text

  // ---------- from hexadecimal digits back to bytes ----------

  function HexValue(c: char): int {
    if '0' <= c <= '9' then c as int - '0' as int
    else if 'a' <= c <= 'f' then c as int - 'a' as int + 10
    else if 'A' <= c <= 'F' then c as int - 'A' as int + 10
    else -1
  }

  /** `sscanf` with `%02x` on two characters: blanks are skipped, a sign may stand before the digit, and
      what is no number leaves the zero that was there. */
  function Scan(c: char, d: char): Byte {
    var x, y := HexValue(c), HexValue(d);
    if x >= 0 && y >= 0 then 16 * x + y
    else if x >= 0 then x
    else if y >= 0 && c == '-' then (256 - y) % 256
    else if y >= 0 && (c == '+' || c == ' ' || '\t' <= c <= '\r') then y
    else 0
  }

  /** The bytes of the first `n` pairs of characters. */
  function Pairs(hx: string, n: nat): seq<Byte>
    requires 2 * n <= |hx|
  {
    if n == 0 then [] else Pairs(hx, n - 1) + [Scan(hx[2 * n - 2], hx[2 * n - 1])]
  }

  method HexToBytes(hx: string) returns (out: seq<Byte>)
    ensures out == Pairs(hx, |hx| / 2)
  {
    out := [];
    var i := 0;
    ghost var n := 0;
    while i + 1 < |hx|
      invariant i == 2 * n <= |hx| && out == Pairs(hx, n)
    {
      out := out + [Scan(hx[i], hx[i + 1])];
      i := i + 2;
      n := n + 1;
    }
  }

  lemma ScanDigits(x: nat, y: nat)
    requires x < 16 && y < 16
    ensures Scan(Text.HexDigit(x), Text.HexDigit(y)) == 16 * x + y
  {
  }

  /** Digits are read in either case. */
  lemma ScanEither(x: nat, y: nat, upper: string)
    requires x < 16 && y < 16 && upper == "0123456789ABCDEF"
    ensures Scan(upper[x], upper[y]) == Scan(Text.HexDigit(x), upper[y]) == Scan(upper[x], Text.HexDigit(y)) == 16 * x + y
  {
    UpperDigit(x, upper);
    UpperDigit(y, upper);
  }

  lemma UpperDigit(x: nat, upper: string)
    requires x < 16 && upper == "0123456789ABCDEF"
    ensures HexValue(upper[x]) == x && HexValue(Text.HexDigit(x)) == x
  {
  }

  lemma {:induction false} PairsPrefix(a: string, b: string, n: nat)
    requires 2 * n <= |a|
    ensures Pairs(a + b, n) == Pairs(a, n)
  {
    if n > 0 {
      PairsPrefix(a, b, n - 1);
    }
  }

  /** The digits of a number read back as its bytes. */
  lemma {:induction false} DigitsToBytes(n: nat, k: nat)
    ensures Pairs(HexDigits(n, 2 * k), k) == BytesOf(n, k)
    decreases k
  {
    if k > 0 {
      DigitsToBytes(n / 256, k - 1);
      LastPair(n, k);
    }
  }

  lemma PairsSnoc(front: string, c: char, d: char, m: nat)
    requires |front| == 2 * m
    ensures Pairs(front + [c, d], m + 1) == Pairs(front, m) + [Scan(c, d)]
  {
    PairsPrefix(front, [c, d], m);
  }

  lemma LastPair(n: nat, k: nat)
    requires k > 0
    ensures Pairs(HexDigits(n, 2 * k), k) == Pairs(HexDigits(n / 256, 2 * k - 2), k - 1) + [ByteOf(n)]
  {
    var front, hi, lo := HexDigits(n / 256, 2 * k - 2), Text.HexDigit(n / 16 % 16), Text.HexDigit(n % 16);
    TwoDigits(n, 2 * k);
    PairsSnoc(front, hi, lo, k - 1);
    ScanDigits(n / 16 % 16, n % 16);
    LowByte(n);
  }

  lemma TwoDigits(n: nat, k: nat)
    requires k >= 2
    ensures HexDigits(n, k) == HexDigits(n / 256, k - 2) + [Text.HexDigit(n / 16 % 16), Text.HexDigit(n % 16)]
  {
    assert n / 16 / 16 == n / 256;
    assert HexDigits(n, k) == HexDigits(n / 16, k - 1) + [Text.HexDigit(n % 16)];
    assert HexDigits(n / 16, k - 1) == HexDigits(n / 256, k - 2) + [Text.HexDigit(n / 16 % 16)];
  }

  lemma SmallRemainder(n: nat, q: nat, x: nat)
    requires n == 256 * q + x && x < 256
    ensures n % 256 == x
  {
  }

  lemma LowByte(n: nat)
    ensures 16 * (n / 16 % 16) + n % 16 == ByteOf(n)
  {
    var a, b := n / 16, n % 16;
    var c, d := a / 16, a % 16;
    assert n == 16 * a + b && a == 16 * c + d;
    SmallRemainder(n, c, 16 * d + b);
  }

  lemma LastOfConcat(a: string, b: string, m: nat, n: nat)
    requires |a| == 2 * m && 0 < n && 2 * n <= |b|
    ensures (a + b)[2 * (m + n) - 2] == b[2 * n - 2] && (a + b)[2 * (m + n) - 1] == b[2 * n - 1]
  {
  }

  lemma {:induction false} PairsConcat(a: string, b: string, m: nat, n: nat)
    requires |a| == 2 * m && 2 * n <= |b|
    ensures Pairs(a + b, m + n) == Pairs(a, m) + Pairs(b, n)
    decreases n
  {
    if n == 0 {
      PairsPrefix(a, b, m);
    } else {
      PairsConcat(a, b, m, n - 1);
      LastOfConcat(a, b, m, n);
      var x := [Scan(b[2 * n - 2], b[2 * n - 1])];
      assert Pairs(a + b, m + n) == Pairs(a + b, m + (n - 1)) + x;
      assert Pairs(a, m) + Pairs(b, n - 1) + x == Pairs(a, m) + (Pairs(b, n - 1) + x);
    }
  }

  function WordBytes(ws: seq<Word>): seq<Byte> {
    if ws == [] then [] else WordBytes(ws[..|ws| - 1]) + BytesOf(ws[|ws| - 1], 4)
  }

  /** The digest itself: 32 bytes. */
  function DigestBytes(m: seq<Byte>): seq<Byte> {
    WordBytes(ToWords(Digest(m)))
  }

  lemma WordToBytes(w: Word)
    ensures |HexWord(w)| == 8 && Pairs(HexWord(w), 4) == BytesOf(w, 4)
  {
    DigitsToBytes(w, 4);
  }

  lemma PairsAppend(a: string, b: string, m: nat, x: seq<Byte>, y: seq<Byte>)
    requires |a| == 2 * m && |b| == 8 && Pairs(a, m) == x && Pairs(b, 4) == y
    ensures Pairs(a + b, m + 4) == x + y
  {
    PairsConcat(a, b, m, 4);
  }

  lemma {:induction false} WordsToBytes(ws: seq<Word>)
    ensures |HexWords(ws)| == 8 * |ws| && Pairs(HexWords(ws), 4 * |ws|) == WordBytes(ws)
  {
    if ws != [] {
      var front, last := ws[..|ws| - 1], ws[|ws| - 1];
      WordsToBytes(front);
      WordToBytes(last);
      PairsAppend(HexWords(front), HexWord(last), 4 * |front|, WordBytes(front), BytesOf(last, 4));
    }
  }

  /** Reading the printed digest gives the digest. */
  lemma HexInverse(m: seq<Byte>, hex: string)
    requires hex == HexDigest(m)
    ensures Pairs(hex, |hex| / 2) == DigestBytes(m)
  {
    WordsToBytes(ToWords(Digest(m)));
  }

  lemma {:induction false} WordBytesLength(ws: seq<Word>)
    ensures |WordBytes(ws)| == 4 * |ws|
  {
    if ws != [] {
      WordBytesLength(ws[..|ws| - 1]);
    }
  }

  // ---------- section 2 of RFC 2104 ----------

  const BLOCK: nat := 64

  function XorByte(x: Byte, y: Byte): Byte {
    XorBits(x, y, 8) % 256
  }

  function XorPad(k: seq<Byte>, pad: Byte): (r: seq<Byte>)
    ensures |r| == |k| && forall i :: 0 <= i < |k| ==> r[i] == XorByte(pad, k[i])
  {
    seq(|k|, i requires 0 <= i < |k| => XorByte(pad, k[i]))
  }

  function ZeroFilled(k: seq<Byte>): seq<Byte> {
    if |k| < BLOCK then k + Zeros(BLOCK - |k|) else k
  }

  /** The key block of the standard: a key longer than a block is hashed first. */
  function KeyBlock(key: seq<Byte>): seq<Byte> {
    ZeroFilled(if |key| > BLOCK then DigestBytes(key) else key)
  }

  /** The inner and the outer hash over a key block, the outer one printed. */
  function Keyed(block: seq<Byte>, data: seq<Byte>): string {
    HexDigest(XorPad(block, 0x5c) + DigestBytes(XorPad(block, 0x36) + data))
  }

  /** `H(K XOR opad, H(K XOR ipad, text))`. */
  function Hmac(key: seq<Byte>, data: seq<Byte>): string {
    Keyed(KeyBlock(key), data)
  }

  /** The two hashes of the standard: over the key block with every byte combined with 0x36 and the text, and over
      the key block with every byte combined with 0x5c and the first digest. */
  lemma HmacIs(key: seq<Byte>, data: seq<Byte>) returns (inner: seq<Byte>, outer: seq<Byte>)
    ensures |inner| == |outer| == |KeyBlock(key)| == 64
    ensures forall i :: 0 <= i < 64 ==> inner[i] == XorByte(0x36, KeyBlock(key)[i]) && outer[i] == XorByte(0x5c, KeyBlock(key)[i])
    ensures forall i :: 0 <= i < 64 && |key| <= 64 ==> KeyBlock(key)[i] == if i < |key| then key[i] else 0
    ensures Hmac(key, data) == HexDigest(outer + DigestBytes(inner + data))
  {
    WordBytesLength(ToWords(Digest(key)));
    inner, outer := XorPad(KeyBlock(key), 0x36), XorPad(KeyBlock(key), 0x5c);
  }

  // ---------- the program ----------

  /** The key block of the program: a long key is replaced by the text of its digest. */
  function FallbackBlock(key: seq<Byte>): seq<Byte> {
    ZeroFilled(if |key| > BLOCK then CharBytes(HexDigest(key)) else key)
  }

  method XorBlocks(k: seq<Byte>, inner: array<Byte>, outer: array<Byte>)
    requires |k| == inner.Length == outer.Length && inner != outer
    modifies inner, outer
    ensures forall i :: 0 <= i < |k| ==> inner[i] == XorByte(old(inner[i]), k[i]) && outer[i] == XorByte(old(outer[i]), k[i])
  {
    for i := 0 to |k|
      invariant forall j :: 0 <= j < i ==> inner[j] == XorByte(old(inner[j]), k[j]) && outer[j] == XorByte(old(outer[j]), k[j])
      invariant forall j :: i <= j < |k| ==> inner[j] == old(inner[j]) && outer[j] == old(outer[j])
    {
      inner[i] := XorByte(inner[i], k[i]);
      outer[i] := XorByte(outer[i], k[i]);
    }
  }

  method FitKey(key: seq<Byte>) returns (k: seq<Byte>)
    ensures k == FallbackBlock(key) && |k| == BLOCK
  {
    k := key;
    if |k| > BLOCK {
      var d := Sha256Hex(k);
      k := CharBytes(d);
      DigestShape(key);
    }
    if |k| < BLOCK {
      k := k + Zeros(BLOCK - |k|);
    }
  }

  method Pads(k: seq<Byte>) returns (inner: array<Byte>, outer: array<Byte>)
    requires |k| == BLOCK
    ensures fresh(inner) && fresh(outer)
    ensures inner[..] == XorPad(k, 0x36) && outer[..] == XorPad(k, 0x5c)
  {
    inner, outer := new Byte[BLOCK](_ => 0x36), new Byte[BLOCK](_ => 0x5c);
    XorBlocks(k, inner, outer);
  }

  /** The digest by way of its printed form. */
  method RawDigest(m: seq<Byte>) returns (b: seq<Byte>)
    ensures b == DigestBytes(m)
  {
    var hex := Sha256Hex(m);
    b := HexToBytes(hex);
    HexInverse(m, hex);
  }

  method HmacSha256Hex(key: seq<Byte>, data: seq<Byte>) returns (o: string)
    ensures o == Keyed(FallbackBlock(key), data)
  {
    var k := FitKey(key);
    var inner, outer := Pads(k);
    var innerBytes := RawDigest(inner[..] + data);
    o := Sha256Hex(outer[..] + innerBytes);
  }

  lemma HexDigitCode(s: string, i: nat)
    requires i < |s| && forall c :: c in s ==> IsHexDigit(c)
    ensures CharBytes(s)[i] != 0
  {
    assert s[i] in s;
  }

  /** The key blocks agree for the keys of at most a block, and for no other: for a longer key the standard
      fills the second half of the block with zeros, the program with digits. */
  lemma KeyBlocksAgree(key: seq<Byte>)
    ensures FallbackBlock(key) == KeyBlock(key) <==> |key| <= BLOCK
  {
    if |key| > BLOCK {
      DigestShape(key);
      WordBytesLength(ToWords(Digest(key)));
      HexDigitCode(HexDigest(key), 32);
      SecondHalf(CharBytes(HexDigest(key)), DigestBytes(key));
    }
  }

  lemma SecondHalf(a: seq<Byte>, b: seq<Byte>)
    requires |a| == 64 && a[32] != 0 && |b| == 32
    ensures ZeroFilled(a) != ZeroFilled(b)
  {
    assert ZeroFilled(b)[32] == 0;
  }

  /** The program computes the standard's HMAC for every message and every key of at most 64 bytes. */
  lemma FallbackIsHmac(key: seq<Byte>, data: seq<Byte>)
    requires |key| <= BLOCK
    ensures Keyed(FallbackBlock(key), data) == Hmac(key, data)
  {
    KeyBlocksAgree(key);
  }

  /** For a longer key it computes the standard's HMAC under another key: the 64 digits of its digest. */
  lemma FallbackLongKey(key: seq<Byte>, data: seq<Byte>)
    requires |key| > BLOCK
    ensures Keyed(FallbackBlock(key), data) == Hmac(CharBytes(HexDigest(key)), data)
  {
    DigestShape(key);
  }
}
