/** The constants of SHA-256 against their definition in sections 4.2.2 and 5.3.3 of FIPS 180-4. */
module Sha256Constants {
  import opened Bits
  import opened Sha256
  import opened Widths

  const TWO_96: nat := 0x1_0000_0000_0000_0000_0000_0000

  function Cube(x: int): int {
    x * x * x
  }

  /** `k` is the first 32 bits of the fractional part of the cube root of `p`; `n` is the integer part. */
  predicate CubeRootBits(p: nat, n: nat, k: Word) {
    Cube(n) <= p < Cube(n + 1) && Cube(n * TWO_32 + k) <= p * TWO_96 < Cube(n * TWO_32 + k + 1)
  }

  /** The same for the square root. */
  predicate SquareRootBits(p: nat, n: nat, k: Word) {
    n * n <= p < (n + 1) * (n + 1)
    && (n * TWO_32 + k) * (n * TWO_32 + k) <= p * TWO_64 < (n * TWO_32 + k + 1) * (n * TWO_32 + k + 1)
  }

  /** The prime numbers in eight rows of eight, and the integer parts of their cube roots. */
  function Primes0(): (p: seq<nat>) ensures |p| == 8 { [2, 3, 5, 7, 11, 13, 17, 19] }
  function Primes1(): (p: seq<nat>) ensures |p| == 8 { [23, 29, 31, 37, 41, 43, 47, 53] }
  function Primes2(): (p: seq<nat>) ensures |p| == 8 { [59, 61, 67, 71, 73, 79, 83, 89] }
  function Primes3(): (p: seq<nat>) ensures |p| == 8 { [97, 101, 103, 107, 109, 113, 127, 131] }
  function Primes4(): (p: seq<nat>) ensures |p| == 8 { [137, 139, 149, 151, 157, 163, 167, 173] }
  function Primes5(): (p: seq<nat>) ensures |p| == 8 { [179, 181, 191, 193, 197, 199, 211, 223] }
  function Primes6(): (p: seq<nat>) ensures |p| == 8 { [227, 229, 233, 239, 241, 251, 257, 263] }
  function Primes7(): (p: seq<nat>) ensures |p| == 8 { [269, 271, 277, 281, 283, 293, 307, 311] }

  lemma Row0IsRoots()
    ensures forall i :: 0 <= i < 8 ==> exists n: nat :: CubeRootBits(Primes0()[i], n, Row0()[i])
  {
    assert CubeRootBits(Primes0()[0], 1, Row0()[0]);
    assert CubeRootBits(Primes0()[1], 1, Row0()[1]);
    assert CubeRootBits(Primes0()[2], 1, Row0()[2]);
    assert CubeRootBits(Primes0()[3], 1, Row0()[3]);
    assert CubeRootBits(Primes0()[4], 2, Row0()[4]);
    assert CubeRootBits(Primes0()[5], 2, Row0()[5]);
    assert CubeRootBits(Primes0()[6], 2, Row0()[6]);
    assert CubeRootBits(Primes0()[7], 2, Row0()[7]);
  }

  lemma Row1IsRoots()
    ensures forall i :: 0 <= i < 8 ==> exists n: nat :: CubeRootBits(Primes1()[i], n, Row1()[i])
  {
    assert CubeRootBits(Primes1()[0], 2, Row1()[0]);
    assert CubeRootBits(Primes1()[1], 3, Row1()[1]);
    assert CubeRootBits(Primes1()[2], 3, Row1()[2]);
    assert CubeRootBits(Primes1()[3], 3, Row1()[3]);
    assert CubeRootBits(Primes1()[4], 3, Row1()[4]);
    assert CubeRootBits(Primes1()[5], 3, Row1()[5]);
    assert CubeRootBits(Primes1()[6], 3, Row1()[6]);
    assert CubeRootBits(Primes1()[7], 3, Row1()[7]);
  }

  lemma Row2IsRoots()
    ensures forall i :: 0 <= i < 8 ==> exists n: nat :: CubeRootBits(Primes2()[i], n, Row2()[i])
  {
    assert CubeRootBits(Primes2()[0], 3, Row2()[0]);
    assert CubeRootBits(Primes2()[1], 3, Row2()[1]);
    assert CubeRootBits(Primes2()[2], 4, Row2()[2]);
    assert CubeRootBits(Primes2()[3], 4, Row2()[3]);
    assert CubeRootBits(Primes2()[4], 4, Row2()[4]);
    assert CubeRootBits(Primes2()[5], 4, Row2()[5]);
    assert CubeRootBits(Primes2()[6], 4, Row2()[6]);
    assert CubeRootBits(Primes2()[7], 4, Row2()[7]);
  }

  lemma Row3IsRoots()
    ensures forall i :: 0 <= i < 8 ==> exists n: nat :: CubeRootBits(Primes3()[i], n, Row3()[i])
  {
    assert CubeRootBits(Primes3()[0], 4, Row3()[0]);
    assert CubeRootBits(Primes3()[1], 4, Row3()[1]);
    assert CubeRootBits(Primes3()[2], 4, Row3()[2]);
    assert CubeRootBits(Primes3()[3], 4, Row3()[3]);
    assert CubeRootBits(Primes3()[4], 4, Row3()[4]);
    assert CubeRootBits(Primes3()[5], 4, Row3()[5]);
    assert CubeRootBits(Primes3()[6], 5, Row3()[6]);
    assert CubeRootBits(Primes3()[7], 5, Row3()[7]);
  }

  lemma Row4IsRoots()
    ensures forall i :: 0 <= i < 8 ==> exists n: nat :: CubeRootBits(Primes4()[i], n, Row4()[i])
  {
    assert CubeRootBits(Primes4()[0], 5, Row4()[0]);
    assert CubeRootBits(Primes4()[1], 5, Row4()[1]);
    assert CubeRootBits(Primes4()[2], 5, Row4()[2]);
    assert CubeRootBits(Primes4()[3], 5, Row4()[3]);
    assert CubeRootBits(Primes4()[4], 5, Row4()[4]);
    assert CubeRootBits(Primes4()[5], 5, Row4()[5]);
    assert CubeRootBits(Primes4()[6], 5, Row4()[6]);
    assert CubeRootBits(Primes4()[7], 5, Row4()[7]);
  }

  lemma Row5IsRoots()
    ensures forall i :: 0 <= i < 8 ==> exists n: nat :: CubeRootBits(Primes5()[i], n, Row5()[i])
  {
    assert CubeRootBits(Primes5()[0], 5, Row5()[0]);
    assert CubeRootBits(Primes5()[1], 5, Row5()[1]);
    assert CubeRootBits(Primes5()[2], 5, Row5()[2]);
    assert CubeRootBits(Primes5()[3], 5, Row5()[3]);
    assert CubeRootBits(Primes5()[4], 5, Row5()[4]);
    assert CubeRootBits(Primes5()[5], 5, Row5()[5]);
    assert CubeRootBits(Primes5()[6], 5, Row5()[6]);
    assert CubeRootBits(Primes5()[7], 6, Row5()[7]);
  }

  lemma Row6IsRoots()
    ensures forall i :: 0 <= i < 8 ==> exists n: nat :: CubeRootBits(Primes6()[i], n, Row6()[i])
  {
    assert CubeRootBits(Primes6()[0], 6, Row6()[0]);
    assert CubeRootBits(Primes6()[1], 6, Row6()[1]);
    assert CubeRootBits(Primes6()[2], 6, Row6()[2]);
    assert CubeRootBits(Primes6()[3], 6, Row6()[3]);
    assert CubeRootBits(Primes6()[4], 6, Row6()[4]);
    assert CubeRootBits(Primes6()[5], 6, Row6()[5]);
    assert CubeRootBits(Primes6()[6], 6, Row6()[6]);
    assert CubeRootBits(Primes6()[7], 6, Row6()[7]);
  }

  lemma Row7IsRoots()
    ensures forall i :: 0 <= i < 8 ==> exists n: nat :: CubeRootBits(Primes7()[i], n, Row7()[i])
  {
    assert CubeRootBits(Primes7()[0], 6, Row7()[0]);
    assert CubeRootBits(Primes7()[1], 6, Row7()[1]);
    assert CubeRootBits(Primes7()[2], 6, Row7()[2]);
    assert CubeRootBits(Primes7()[3], 6, Row7()[3]);
    assert CubeRootBits(Primes7()[4], 6, Row7()[4]);
    assert CubeRootBits(Primes7()[5], 6, Row7()[5]);
    assert CubeRootBits(Primes7()[6], 6, Row7()[6]);
    assert CubeRootBits(Primes7()[7], 6, Row7()[7]);
  }

  function Primes(): (p: seq<nat>)
    ensures |p| == 64
  {
    Primes0() + Primes1() + Primes2() + Primes3() + Primes4() + Primes5() + Primes6() + Primes7()
  }

  lemma InRow(t: nat)
    requires t < 64
    ensures t < 8 ==> Primes()[t] == Primes0()[t] && Constants()[t] == Row0()[t]
    ensures 8 <= t < 16 ==> Primes()[t] == Primes1()[t - 8] && Constants()[t] == Row1()[t - 8]
    ensures 16 <= t < 24 ==> Primes()[t] == Primes2()[t - 16] && Constants()[t] == Row2()[t - 16]
    ensures 24 <= t < 32 ==> Primes()[t] == Primes3()[t - 24] && Constants()[t] == Row3()[t - 24]
    ensures 32 <= t < 40 ==> Primes()[t] == Primes4()[t - 32] && Constants()[t] == Row4()[t - 32]
    ensures 40 <= t < 48 ==> Primes()[t] == Primes5()[t - 40] && Constants()[t] == Row5()[t - 40]
    ensures 48 <= t < 56 ==> Primes()[t] == Primes6()[t - 48] && Constants()[t] == Row6()[t - 48]
    ensures 56 <= t ==> Primes()[t] == Primes7()[t - 56] && Constants()[t] == Row7()[t - 56]
  {
  }

  // ---------- the list of primes ----------

  ghost predicate Prime(p: nat) {
    p >= 2 && forall d: nat, e: nat :: d >= 2 && e >= 2 ==> d * e != p
  }

  /** No prime up to 17 is a proper divisor. */
  predicate Sieved(p: nat) {
    && p >= 2 && (p == 2 || p % 2 != 0) && (p == 3 || p % 3 != 0) && (p == 5 || p % 5 != 0) && (p == 7 || p % 7 != 0)
    && (p == 11 || p % 11 != 0) && (p == 13 || p % 13 != 0) && (p == 17 || p % 17 != 0)
  }

  /** A multiple of the divisor is no remainder. */
  lemma Remainder(x: nat, q: nat, k: nat)
    requires q > 0 && x == q * k
    ensures x % q == 0
  {
    Quotient(x % q, q, k - x / q);
  }

  lemma Quotient(r: nat, q: nat, k: int)
    requires r < q && r == q * k
    ensures r == 0
  {
  }

  lemma Meets(p: nat, q: nat, k: nat)
    requires (q == 2 || q == 3 || q == 5 || q == 7 || q == 11 || q == 13 || q == 17) && p == q * k && k >= 2
    ensures !Sieved(p)
  {
    Remainder(p, q, k);
    assert q * k >= q * 2;
    MetBy(p, q);
  }

  lemma MetBy(p: nat, q: nat)
    requires (q == 2 || q == 3 || q == 5 || q == 7 || q == 11 || q == 13 || q == 17) && p != q && p % q == 0
    ensures !Sieved(p)
  {
  }

  /** The sieve meets the multiples of its primes, and so those of every number between 2 and 17. */
  lemma Caught(d: nat, e: nat, p: nat)
    requires 2 <= d <= 17 && e >= 2 && p == d * e
    ensures !Sieved(p)
  {
    match d
    case 4 => Meets(p, 2, 2 * e);
    case 6 => Meets(p, 2, 3 * e);
    case 8 => Meets(p, 2, 4 * e);
    case 9 => Meets(p, 3, 3 * e);
    case 10 => Meets(p, 2, 5 * e);
    case 12 => Meets(p, 2, 6 * e);
    case 14 => Meets(p, 2, 7 * e);
    case 15 => Meets(p, 3, 5 * e);
    case 16 => Meets(p, 2, 8 * e);
    case _ => Meets(p, d, e);
  }

  lemma BelowSquare(d: nat, e: nat)
    requires d > 17 && e > 17
    ensures d * e >= 324
  {
    assert d * e >= 18 * e;
  }

  lemma Proper(p: nat, d: nat)
    requires d >= 2 && p >= 2 && p != d && p % d == 0
    ensures !Prime(p)
  {
    var e := p / d;
    assert d * e == p;
    assert e >= 2;
  }

  /** Below the square of 18 the sieve leaves exactly the primes. */
  lemma SieveIsPrime(p: nat)
    requires p < 324
    ensures Sieved(p) <==> Prime(p)
  {
    if p >= 2 && !Prime(p) {
      var d: nat, e: nat :| d >= 2 && e >= 2 && d * e == p;
      if d <= 17 {
        Caught(d, e, p);
      } else if e <= 17 {
        assert e * d == p;
        Caught(e, d, p);
      } else {
        BelowSquare(d, e);
      }
    }
    if p >= 2 && !Sieved(p) {
      var d := if p != 2 && p % 2 == 0 then 2 else if p != 3 && p % 3 == 0 then 3 else if p != 5 && p % 5 == 0 then 5
               else if p != 7 && p % 7 == 0 then 7 else if p != 11 && p % 11 == 0 then 11
               else if p != 13 && p % 13 == 0 then 13 else 17;
      Proper(p, d);
    }
  }

  lemma Row0Sieved(p: nat)
    requires p < 23
    ensures Sieved(p) ==> p in Primes0()
  {
    match p
    case 0 | 1 | 2 | 3 | 4 | 5 | 6 | 7 | 8 | 9 | 10 | 11 | 12 | 13 | 14 | 15 | 16 | 17 | 18 | 19 | 20 | 21 | 22 =>
  }

  lemma Row1Sieved(p: nat)
    requires 23 <= p < 59
    ensures Sieved(p) ==> p in Primes1()
  {
    match p
    case 23 | 24 | 25 | 26 | 27 | 28 | 29 | 30 | 31 | 32 | 33 | 34 | 35 | 36 | 37 | 38 | 39 | 40 | 41 | 42 | 43 | 44
      | 45 | 46 | 47 | 48 | 49 | 50 | 51 | 52 | 53 | 54 | 55 | 56 | 57 | 58 =>
  }

  lemma Row2Sieved(p: nat)
    requires 59 <= p < 97
    ensures Sieved(p) ==> p in Primes2()
  {
    match p
    case 59 | 60 | 61 | 62 | 63 | 64 | 65 | 66 | 67 | 68 | 69 | 70 | 71 | 72 | 73 | 74 | 75 | 76 | 77 | 78 | 79 | 80
      | 81 | 82 | 83 | 84 | 85 | 86 | 87 | 88 | 89 | 90 | 91 | 92 | 93 | 94 | 95 | 96 =>
  }

  lemma Row3Sieved(p: nat)
    requires 97 <= p < 137
    ensures Sieved(p) ==> p in Primes3()
  {
    match p
    case 97 | 98 | 99 | 100 | 101 | 102 | 103 | 104 | 105 | 106 | 107 | 108 | 109 | 110 | 111 | 112 | 113 | 114 |
      115 | 116 | 117 | 118 | 119 | 120 | 121 | 122 | 123 | 124 | 125 | 126 | 127 | 128 | 129 | 130 | 131 | 132 | 133
      | 134 | 135 | 136 =>
  }

  lemma Row4Sieved(p: nat)
    requires 137 <= p < 179
    ensures Sieved(p) ==> p in Primes4()
  {
    match p
    case 137 | 138 | 139 | 140 | 141 | 142 | 143 | 144 | 145 | 146 | 147 | 148 | 149 | 150 | 151 | 152 | 153 | 154 |
      155 | 156 | 157 | 158 | 159 | 160 | 161 | 162 | 163 | 164 | 165 | 166 | 167 | 168 | 169 | 170 | 171 | 172 | 173
      | 174 | 175 | 176 | 177 | 178 =>
  }

  lemma Row5Sieved(p: nat)
    requires 179 <= p < 227
    ensures Sieved(p) ==> p in Primes5()
  {
    match p
    case 179 | 180 | 181 | 182 | 183 | 184 | 185 | 186 | 187 | 188 | 189 | 190 | 191 | 192 | 193 | 194 | 195 | 196 |
      197 | 198 | 199 | 200 | 201 | 202 | 203 | 204 | 205 | 206 | 207 | 208 | 209 | 210 | 211 | 212 | 213 | 214 | 215
      | 216 | 217 | 218 | 219 | 220 | 221 | 222 | 223 | 224 | 225 | 226 =>
  }

  lemma Row6Sieved(p: nat)
    requires 227 <= p < 269
    ensures Sieved(p) ==> p in Primes6()
  {
    match p
    case 227 | 228 | 229 | 230 | 231 | 232 | 233 | 234 | 235 | 236 | 237 | 238 | 239 | 240 | 241 | 242 | 243 | 244 |
      245 | 246 | 247 | 248 | 249 | 250 | 251 | 252 | 253 | 254 | 255 | 256 | 257 | 258 | 259 | 260 | 261 | 262 | 263
      | 264 | 265 | 266 | 267 | 268 =>
  }

  lemma Row7Sieved(p: nat)
    requires 269 <= p < 312
    ensures Sieved(p) ==> p in Primes7()
  {
    match p
    case 269 | 270 | 271 | 272 | 273 | 274 | 275 | 276 | 277 | 278 | 279 | 280 | 281 | 282 | 283 | 284 | 285 | 286 |
      287 | 288 | 289 | 290 | 291 | 292 | 293 | 294 | 295 | 296 | 297 | 298 | 299 | 300 | 301 | 302 | 303 | 304 | 305
      | 306 | 307 | 308 | 309 | 310 | 311 =>
  }

  lemma InPrimes(p: nat)
    ensures p in Primes() <==>
            || p in Primes0() || p in Primes1() || p in Primes2() || p in Primes3()
            || p in Primes4() || p in Primes5() || p in Primes6() || p in Primes7()
  {
  }

  // What is listed passes the sieve.

  lemma Row0Listed(p: nat)
    requires p in Primes0()
    ensures p < 23 && Sieved(p)
  {
  }

  lemma Row1Listed(p: nat)
    requires p in Primes1()
    ensures 23 <= p < 59 && Sieved(p)
  {
  }

  lemma Row2Listed(p: nat)
    requires p in Primes2()
    ensures 59 <= p < 97 && Sieved(p)
  {
  }

  lemma Row3Listed(p: nat)
    requires p in Primes3()
    ensures 97 <= p < 137 && Sieved(p)
  {
  }

  lemma Row4Listed(p: nat)
    requires p in Primes4()
    ensures 137 <= p < 179 && Sieved(p)
  {
  }

  lemma Row5Listed(p: nat)
    requires p in Primes5()
    ensures 179 <= p < 227 && Sieved(p)
  {
  }

  lemma Row6Listed(p: nat)
    requires p in Primes6()
    ensures 227 <= p < 269 && Sieved(p)
  {
  }

  lemma Row7Listed(p: nat)
    requires p in Primes7()
    ensures 269 <= p < 312 && Sieved(p)
  {
  }

  lemma Listed(p: nat)
    requires p in Primes()
    ensures p < 312 && Sieved(p)
  {
    InPrimes(p);
    if p in Primes0() {
      Row0Listed(p);
    } else if p in Primes1() {
      Row1Listed(p);
    } else if p in Primes2() {
      Row2Listed(p);
    } else if p in Primes3() {
      Row3Listed(p);
    } else if p in Primes4() {
      Row4Listed(p);
    } else if p in Primes5() {
      Row5Listed(p);
    } else if p in Primes6() {
      Row6Listed(p);
    } else if p in Primes7() {
      Row7Listed(p);
    }
  }

  /** The listed numbers are exactly the primes below 312. */
  lemma FirstPrimes(p: nat)
    ensures p in Primes() <==> p < 312 && Prime(p)
  {
    InPrimes(p);
    if p in Primes() {
      Listed(p);
      SieveIsPrime(p);
    } else if p < 312 && Prime(p) {
      SieveIsPrime(p);
      if p < 23 {
        Row0Sieved(p);
      } else if p < 59 {
        Row1Sieved(p);
      } else if p < 97 {
        Row2Sieved(p);
      } else if p < 137 {
        Row3Sieved(p);
      } else if p < 179 {
        Row4Sieved(p);
      } else if p < 227 {
        Row5Sieved(p);
      } else if p < 269 {
        Row6Sieved(p);
      } else if p < 312 {
        Row7Sieved(p);
      }
    }
  }

  /** They stand in increasing order: the list is that of the first 64 primes. */
  lemma PrimesIncrease(t: nat)
    requires t < 63
    ensures Primes()[t] < Primes()[t + 1]
  {
    if t < 32 {
      LowIncrease(t);
    } else {
      HighIncrease(t);
    }
  }

  lemma LowIncrease(t: nat)
    requires t < 32
    ensures Primes()[t] < Primes()[t + 1]
  {
    InRow(t);
    InRow(t + 1);
  }

  lemma HighIncrease(t: nat)
    requires 32 <= t < 63
    ensures Primes()[t] < Primes()[t + 1]
  {
    InRow(t);
    InRow(t + 1);
  }

  /** The round constants are the first 32 bits of the fractional parts of the cube roots of the primes. */
  lemma RoundConstants(t: nat)
    requires t < 64
    ensures exists n: nat :: CubeRootBits(Primes()[t], n, Constants()[t])
  {
    InRow(t);
    if t < 8 {
      Row0IsRoots();
    } else if t < 16 {
      Row1IsRoots();
    } else if t < 24 {
      Row2IsRoots();
    } else if t < 32 {
      Row3IsRoots();
    } else if t < 40 {
      Row4IsRoots();
    } else if t < 48 {
      Row5IsRoots();
    } else if t < 56 {
      Row6IsRoots();
    } else {
      Row7IsRoots();
    }
  }

  /** The initial hash value is made of the square roots of the first eight primes in the same way. */
  lemma InitialValue(t: nat)
    requires t < 8
    ensures exists n: nat :: SquareRootBits(Primes0()[t], n, ToWords(Initial())[t])
  {
    var p, iv := Primes0(), ToWords(Initial());
    assert SquareRootBits(p[0], 1, iv[0]) && SquareRootBits(p[1], 1, iv[1]);
    assert SquareRootBits(p[2], 2, iv[2]) && SquareRootBits(p[3], 2, iv[3]);
    assert SquareRootBits(p[4], 3, iv[4]) && SquareRootBits(p[5], 3, iv[5]);
    assert SquareRootBits(p[6], 4, iv[6]) && SquareRootBits(p[7], 4, iv[7]);
  }
}
