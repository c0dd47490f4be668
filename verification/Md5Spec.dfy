/** The message digest of RFC 1321, as the RFC defines it: padding, and a fold over blocks. */
module Md5Spec {
  import opened Bytes

  const TWO64 := 0x1_0000_0000_0000_0000

  datatype State = State(a: Word, b: Word, c: Word, d: Word)

  const INIT := State(0x67452301, 0xefcdab89, 0x98badcfe, 0x10325476)

  // --------------------------------------------------- one block (section 3.4)

  function Bits(x: Word): bv32 { x as bv32 }

  function Value(v: bv32): Word { v as Word }

  function FBits(x: bv32, y: bv32, z: bv32): bv32 { (x & y) | (!x & z) }

  function GBits(x: bv32, y: bv32, z: bv32): bv32 { (x & z) | (y & !z) }

  function HBits(x: bv32, y: bv32, z: bv32): bv32 { x ^ y ^ z }

  function IBits(x: bv32, y: bv32, z: bv32): bv32 { y ^ (x | !z) }

  function F(x: Word, y: Word, z: Word): Word { Value(FBits(Bits(x), Bits(y), Bits(z))) }

  function G(x: Word, y: Word, z: Word): Word { Value(GBits(Bits(x), Bits(y), Bits(z))) }

  function H(x: Word, y: Word, z: Word): Word { Value(HBits(Bits(x), Bits(y), Bits(z))) }

  function I(x: Word, y: Word, z: Word): Word { Value(IBits(Bits(x), Bits(y), Bits(z))) }

  function Auxiliary(round: nat, x: Word, y: Word, z: Word): Word {
    if round == 0 then F(x, y, z) else if round == 1 then G(x, y, z) else if round == 2 then H(x, y, z) else I(x, y, z)
  }

  function Add(x: Word, y: Word): Word {
    (x + y) % TWO32
  }

  /** Which word of the block step `i` uses, and by how much it rotates. */
  function WordOf(i: nat): (k: nat)
    ensures k < 16
  {
    if i < 16 then i else if i < 32 then (1 + 5 * i) % 16 else if i < 48 then (5 + 3 * i) % 16 else (7 * i) % 16
  }

  function RotationOf(i: nat): (s: nat)
    ensures 0 < s < 32
  {
    var k := i % 4;
    if i < 16 then if k == 0 then 7 else if k == 1 then 12 else if k == 2 then 17 else 22
    else if i < 32 then if k == 0 then 5 else if k == 1 then 9 else if k == 2 then 14 else 20
    else if i < 48 then if k == 0 then 4 else if k == 1 then 11 else if k == 2 then 16 else 23
    else if k == 0 then 6 else if k == 1 then 10 else if k == 2 then 15 else 21
  }

  /** The integer part of 2^32 times the absolute sine of i + 1 (in radians). */
  function Sine(i: nat): Word {
    match i
    case 0 => 0xd76aa478
    case 1 => 0xe8c7b756
    case 2 => 0x242070db
    case 3 => 0xc1bdceee
    case 4 => 0xf57c0faf
    case 5 => 0x4787c62a
    case 6 => 0xa8304613
    case 7 => 0xfd469501
    case 8 => 0x698098d8
    case 9 => 0x8b44f7af
    case 10 => 0xffff5bb1
    case 11 => 0x895cd7be
    case 12 => 0x6b901122
    case 13 => 0xfd987193
    case 14 => 0xa679438e
    case 15 => 0x49b40821
    case 16 => 0xf61e2562
    case 17 => 0xc040b340
    case 18 => 0x265e5a51
    case 19 => 0xe9b6c7aa
    case 20 => 0xd62f105d
    case 21 => 0x02441453
    case 22 => 0xd8a1e681
    case 23 => 0xe7d3fbc8
    case 24 => 0x21e1cde6
    case 25 => 0xc33707d6
    case 26 => 0xf4d50d87
    case 27 => 0x455a14ed
    case 28 => 0xa9e3e905
    case 29 => 0xfcefa3f8
    case 30 => 0x676f02d9
    case 31 => 0x8d2a4c8a
    case 32 => 0xfffa3942
    case 33 => 0x8771f681
    case 34 => 0x6d9d6122
    case 35 => 0xfde5380c
    case 36 => 0xa4beea44
    case 37 => 0x4bdecfa9
    case 38 => 0xf6bb4b60
    case 39 => 0xbebfbc70
    case 40 => 0x289b7ec6
    case 41 => 0xeaa127fa
    case 42 => 0xd4ef3085
    case 43 => 0x04881d05
    case 44 => 0xd9d4d039
    case 45 => 0xe6db99e5
    case 46 => 0x1fa27cf8
    case 47 => 0xc4ac5665
    case 48 => 0xf4292244
    case 49 => 0x432aff97
    case 50 => 0xab9423a7
    case 51 => 0xfc93a039
    case 52 => 0x655b59c3
    case 53 => 0x8f0ccc92
    case 54 => 0xffeff47d
    case 55 => 0x85845dd1
    case 56 => 0x6fa87e4f
    case 57 => 0xfe2ce6e0
    case 58 => 0xa3014314
    case 59 => 0x4e0811a1
    case 60 => 0xf7537e82
    case 61 => 0xbd3af235
    case 62 => 0x2ad7d2bb
    case _ => 0xeb86d391
  }

  function ShiftLeft(w: Word, s: nat): Word { w * Power2(s) % TWO32 }

  function ShiftRight(w: Word, s: nat): nat {
    hide Power2;
    w / Power2(s)
  }

  /** Shifted left by `s`, with what falls out at the high end put in at the low end. */
  function RotateLeft(w: Word, s: nat): Word
    requires 0 < s < 32
  {
    Rotation(w, s);
    ShiftLeft(w, s) + ShiftRight(w, 32 - s)
  }

  /** The lower bits go up, the upper ones come down. */
  lemma Rotation(w: Word, s: nat)
    requires 0 < s < 32
    ensures ShiftLeft(w, s) == w % Power2(32 - s) * Power2(s)
    ensures ShiftRight(w, 32 - s) < Power2(s) && ShiftLeft(w, s) + ShiftRight(w, 32 - s) < TWO32
  {
    var p, q := Power2(s), Power2(32 - s);
    Power2OfTwo(s, 32 - s);
    WordPower();
    Parts(w, p, q);
  }

  lemma WordPower()
    ensures Power2(32) == TWO32
  {
    assert Power2(8) == 0x100;
    Power2OfTwo(8, 8);
    Power2OfTwo(16, 16);
  }

  lemma Parts(w: Word, p: nat, q: nat)
    requires p * q == TWO32 && 0 < q
    ensures w * p % TWO32 == w % q * p && w / q < p && w % q * p + w / q < TWO32
  {
    var h, l := w / q, w % q;
    Quotients(w, q);
    Regrouped(h, l, p, q);
    Below(h, p, q);
    Below(l, q, p);
    RestOf(w * p, h, l * p);
  }

  lemma Quotients(w: nat, q: nat)
    requires 0 < q
    ensures w == w / q * q + w % q && w % q < q
  {
  }

  lemma RestOf(x: nat, h: nat, r: nat)
    requires x == h * 0x1_0000_0000 + r && r < 0x1_0000_0000
    ensures x % TWO32 == r
  {
  }

  lemma Regrouped(h: nat, l: nat, p: nat, q: nat)
    ensures (h * q + l) * p == h * (p * q) + l * p
  {
  }

  /** What is below in the product is below in the factor, and by a whole one. */
  lemma Below(h: nat, p: nat, q: nat)
    requires h * q < p * q || h < p
    ensures h < p && h * q + q <= p * q
  {
    if h >= p {
      TimesGrows(p, h, q);
    } else {
      TimesGrows(h + 1, p, q);
      assert (h + 1) * q == h * q + q;
    }
  }

  lemma TimesGrows(a: nat, b: nat, q: nat)
    requires a <= b
    ensures a * q <= b * q
  {
    var d := b - a;
    assert b * q == a * q + d * q;
  }

  /** b + ((a + f(b, c, d) + X[k] + T[i]) <<< s) */
  function Mixed(round: nat, a: Word, b: Word, c: Word, d: Word, x: Word, t: Word, s: nat): Word
    requires 0 < s < 32
  {
    Add(b, RotateLeft(Add(Add(Add(a, Auxiliary(round, b, c, d)), x), t), s))
  }

  /** Step `i`; the four words trade places with every step. */
  function Step(st: State, x: seq<Word>, i: nat): State
    requires |x| == 16 && i < 64
  {
    State(st.d, Mixed(i / 16, st.a, st.b, st.c, st.d, x[WordOf(i)], Sine(i), RotationOf(i)), st.b, st.c)
  }

  function Steps(st: State, x: seq<Word>, n: nat): State
    requires |x| == 16 && n <= 64
  {
    if n == 0 then st else Step(Steps(st, x, n - 1), x, n - 1)
  }

  /** Four bytes, least significant first. */
  function WordAt(block: seq<Byte>, k: nat): Word
    requires 4 * k + 4 <= |block|
  {
    var b0: int, b1: int, b2: int, b3: int := block[4 * k], block[4 * k + 1], block[4 * k + 2], block[4 * k + 3];
    b0 + 0x100 * b1 + 0x1_0000 * b2 + 0x100_0000 * b3
  }

  function Words(block: seq<Byte>): (x: seq<Word>)
    requires |block| == 64
    ensures |x| == 16
  {
    seq(16, k requires 0 <= k < 16 => WordAt(block, k))
  }

  function Compress(st: State, block: seq<Byte>): State
    requires |block| == 64
  {
    var r := Steps(st, Words(block), 64);
    State(Add(st.a, r.a), Add(st.b, r.b), Add(st.c, r.c), Add(st.d, r.d))
  }

  // --------------------------------------------------- the fold over blocks

  function Blocks(m: seq<Byte>, n: nat): State
    requires 64 * n <= |m|
  {
    if n == 0 then INIT else Compress(Blocks(m, n - 1), m[64 * (n - 1)..64 * n])
  }

  lemma {:induction false} BlocksOfPrefix(m: seq<Byte>, rest: seq<Byte>, n: nat)
    requires 64 * n <= |m|
    ensures Blocks(m + rest, n) == Blocks(m, n)
  {
    hide Compress;
    if n > 0 {
      BlocksOfPrefix(m, rest, n - 1);
      assert (m + rest)[64 * (n - 1)..64 * n] == m[64 * (n - 1)..64 * n];
    }
  }

  // --------------------------------------------------- padding (sections 3.1 and 3.2)

  function Zeros(n: nat): (z: seq<Byte>)
    ensures |z| == n
  {
    seq(n, k => 0)
  }

  /** The low-order bytes of a number, least significant first. */
  function LowBytes(x: nat, n: nat): (b: seq<Byte>)
    ensures |b| == n
  {
    if n == 0 then [] else [x % 256] + LowBytes(x / 256, n - 1)
  }

  /** How many zeros bring the length to 56 modulo 64 after the byte 0x80. */
  function ZeroCount(len: nat): nat {
    (119 - len % 64) % 64
  }

  function Padded(m: seq<Byte>): (p: seq<Byte>)
    ensures |p| % 64 == 0 && |p| > |m|
  {
    PaddedLength(|m|);
    m + [0x80] + Zeros(ZeroCount(|m|)) + LowBytes(8 * |m| % TWO64, 8)
  }

  lemma PaddedLength(n: nat)
    ensures (n + 1 + ZeroCount(n) + 8) % 64 == 0 && ZeroCount(n) < 64
  {
  }

  function Output(st: State): (d: seq<Byte>)
    ensures |d| == 16
  {
    LowBytes(st.a, 4) + LowBytes(st.b, 4) + LowBytes(st.c, 4) + LowBytes(st.d, 4)
  }

  function Digest(m: seq<Byte>): seq<Byte> {
    Output(Blocks(Padded(m), |Padded(m)| / 64))
  }

  lemma {:induction false} LowBytesAreFaithful(x: nat, y: nat, n: nat)
    requires LowBytes(x, n) == LowBytes(y, n)
    ensures x % Power256(n) == y % Power256(n)
  {
    if n > 0 {
      assert [x % 256] + LowBytes(x / 256, n - 1) == [y % 256] + LowBytes(y / 256, n - 1);
      assert x % 256 == LowBytes(x, n)[0] == y % 256;
      assert LowBytes(x / 256, n - 1) == LowBytes(x, n)[1..] == LowBytes(y / 256, n - 1);
      LowBytesAreFaithful(x / 256, y / 256, n - 1);
      ModOfProduct(x, Power256(n - 1));
      ModOfProduct(y, Power256(n - 1));
    }
  }

  lemma ModOfProduct(x: nat, p: nat)
    requires p > 0
    ensures x % (256 * p) == 256 * (x / 256 % p) + x % 256
  {
    var q, r := x / 256 / p, x / 256 % p;
    assert x / 256 == p * q + r;
    assert x == 256 * (p * q + r) + x % 256;
    assert 256 * (p * q) == (256 * p) * q;
    Quotient(x, 256 * p, q, 256 * r + x % 256);
  }

  lemma Quotient(x: nat, d: nat, q: nat, r: nat)
    requires r < d && x == d * q + r
    ensures x % d == r
  {
    var e := x / d - q;
    assert x == d * (x / d) + x % d;
    assert d * e == r - x % d;
  }

  lemma PaddedEnds(m: seq<Byte>)
    ensures var p := Padded(m);
      p[..|m|] == m && p[|p| - 8..] == LowBytes(8 * |m| % TWO64, 8)
  {
    hide LowBytes, Zeros;
  }

  /** Padding loses nothing: messages shorter than 2^61 bytes with the same padding are equal. */
  lemma PaddingIsFaithful(m: seq<Byte>, n: seq<Byte>)
    requires Padded(m) == Padded(n) && |m| < TWO64 / 8 && |n| < TWO64 / 8
    ensures m == n
  {
    hide Padded, LowBytes;
    PaddedEnds(m);
    PaddedEnds(n);
    LowBytesAreFaithful(8 * |m| % TWO64, 8 * |n| % TWO64, 8);
    assert Power256(8) == TWO64;
  }

  lemma ZerosNeeded(n: nat, q: nat)
    requires q < 64
    ensures ZeroCount(64 * n + q) == if q <= 55 then 55 - q else 119 - q
  {
    assert (64 * n + q) % 64 == q;
  }

  lemma ZerosOfSum(a: nat, b: nat)
    ensures Zeros(a + b) == Zeros(a) + Zeros(b)
  {
  }

  lemma Regroup(a: seq<Byte>, b: seq<Byte>, c: seq<Byte>, d: seq<Byte>, e: seq<Byte>, f: seq<Byte>)
    ensures a + b + c + (d + e) + f == a + (b + c + d) + (e + f)
  {
  }

  /** The padded message from its last whole block on: one block. */
  lemma PaddedOne(m: seq<Byte>, n: nat, q: nat)
    requires |m| == 64 * n + q && q <= 55
    ensures Padded(m) == m[..64 * n] + (m[64 * n..] + [0x80] + Zeros(55 - q) + LowBytes(8 * |m| % TWO64, 8))
  {
    hide LowBytes, Zeros, ZeroCount;
    ZerosNeeded(n, q);
    var count := LowBytes(8 * |m| % TWO64, 8);
    assert Padded(m) == m + [0x80] + Zeros(55 - q) + count;
    assert m == m[..64 * n] + m[64 * n..];
    RegroupOne(m[..64 * n], m[64 * n..], [0x80], Zeros(55 - q), count);
  }

  lemma RegroupOne(a: seq<Byte>, b: seq<Byte>, c: seq<Byte>, d: seq<Byte>, e: seq<Byte>)
    ensures a + b + c + d + e == a + (b + c + d + e)
  {
  }

  /** Or two, when there is no room for the count in the first. */
  lemma PaddedTwo(m: seq<Byte>, n: nat, q: nat)
    requires |m| == 64 * n + q && 55 < q < 64
    ensures Padded(m) == m[..64 * n] + (m[64 * n..] + [0x80] + Zeros(63 - q)) + (Zeros(56) + LowBytes(8 * |m| % TWO64, 8))
  {
    hide LowBytes, ZeroCount, Zeros;
    ZerosNeeded(n, q);
    ZerosOfSum(63 - q, 56);
    Regroup(m[..64 * n], m[64 * n..], [0x80], Zeros(63 - q), Zeros(56), LowBytes(8 * |m| % TWO64, 8));
    assert m == m[..64 * n] + m[64 * n..];
  }

  /** A number of eight bytes is stored as its two halves. */
  lemma LowBytesOfHalves(low: Word, high: Word)
    ensures LowBytes(low + TWO32 * high, 8) == LowBytes(low, 4) + LowBytes(high, 4)
  {
    LowBytesOfSum(low, high, 4, 4);
  }

  lemma ProductRegroups(p: nat, high: nat)
    ensures (256 * p) * high == 256 * (p * high)
  {
  }

  lemma ByteOfSum(low: nat, high: nat)
    ensures (low + 256 * high) % 256 == low % 256 && (low + 256 * high) / 256 == low / 256 + high
  {
  }

  lemma {:induction false} LowBytesOfSum(low: nat, high: nat, n: nat, k: nat)
    requires low < Power256(n)
    ensures LowBytes(low + Power256(n) * high, n + k) == LowBytes(low, n) + LowBytes(high, k)
  {
    if n > 0 {
      var p := Power256(n - 1);
      ProductRegroups(p, high);
      ByteOfSum(low, p * high);
      LowBytesOfSum(low / 256, high, n - 1, k);
    }
  }
}
