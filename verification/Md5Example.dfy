/** One digest in full, from its bytes to its bytes: the test message "abc" of section A.5 of
    RFC 1321, step by step. */
module Md5Example {
  import opened Bytes
  import opened Md5Spec
  import opened Md5

  const ABC: seq<Byte> := [0x61, 0x62, 0x63]

  // --------------------------------------------------- bits and numbers

  lemma Back(v: bv32, r: Word)
    requires Is(v, r)
    ensures Bits(r) == v && Value(v) == r
  {
  }

  /** `r` is `v` as a number. */
  predicate Is(v: bv32, r: Word) { v as int == r }

  lemma FOnBits(x: bv32, y: bv32, z: bv32, v: bv32, a: Word, b: Word, c: Word, f: Word)
    requires Is(x, a) && Is(y, b) && Is(z, c) && Is(v, f) && v == (x & y) | (!x & z)
    ensures F(a, b, c) == f
  {
    hide F, Value, Bits;
    FOfNumbers(x, y, z, a, b, c);
    Back(v, f);
  }

  lemma FOfNumbers(x: bv32, y: bv32, z: bv32, a: Word, b: Word, c: Word)
    requires Is(x, a) && Is(y, b) && Is(z, c)
    ensures F(a, b, c) == Value(FBits(x, y, z))
  {
    hide FBits, Bits, Value;
    Back(x, a);
    Back(y, b);
    Back(z, c);
  }

  lemma GOnBits(x: bv32, y: bv32, z: bv32, v: bv32, a: Word, b: Word, c: Word, f: Word)
    requires Is(x, a) && Is(y, b) && Is(z, c) && Is(v, f) && v == (x & z) | (y & !z)
    ensures G(a, b, c) == f
  {
    hide G, Value, Bits;
    GOfNumbers(x, y, z, a, b, c);
    Back(v, f);
  }

  lemma GOfNumbers(x: bv32, y: bv32, z: bv32, a: Word, b: Word, c: Word)
    requires Is(x, a) && Is(y, b) && Is(z, c)
    ensures G(a, b, c) == Value(GBits(x, y, z))
  {
    hide GBits, Bits, Value;
    Back(x, a);
    Back(y, b);
    Back(z, c);
  }

  lemma HOnBits(x: bv32, y: bv32, z: bv32, v: bv32, a: Word, b: Word, c: Word, f: Word)
    requires Is(x, a) && Is(y, b) && Is(z, c) && Is(v, f) && v == x ^ y ^ z
    ensures H(a, b, c) == f
  {
    hide H, Value, Bits;
    HOfNumbers(x, y, z, a, b, c);
    Back(v, f);
  }

  lemma HOfNumbers(x: bv32, y: bv32, z: bv32, a: Word, b: Word, c: Word)
    requires Is(x, a) && Is(y, b) && Is(z, c)
    ensures H(a, b, c) == Value(HBits(x, y, z))
  {
    hide HBits, Bits, Value;
    Back(x, a);
    Back(y, b);
    Back(z, c);
  }

  lemma IOnBits(x: bv32, y: bv32, z: bv32, v: bv32, a: Word, b: Word, c: Word, f: Word)
    requires Is(x, a) && Is(y, b) && Is(z, c) && Is(v, f) && v == y ^ (x | !z)
    ensures I(a, b, c) == f
  {
    hide I, Value, Bits;
    IOfNumbers(x, y, z, a, b, c);
    Back(v, f);
  }

  lemma IOfNumbers(x: bv32, y: bv32, z: bv32, a: Word, b: Word, c: Word)
    requires Is(x, a) && Is(y, b) && Is(z, c)
    ensures I(a, b, c) == Value(IBits(x, y, z))
  {
    hide IBits, Bits, Value;
    Back(x, a);
    Back(y, b);
    Back(z, c);
  }

  lemma Powers()
    ensures Power2(4) == 0x10 && Power2(5) == 0x20 && Power2(6) == 0x40 && Power2(7) == 0x80 && Power2(9) == 0x200
    ensures Power2(10) == 0x400 && Power2(11) == 0x800 && Power2(12) == 0x1000 && Power2(14) == 0x4000
    ensures Power2(15) == 0x8000 && Power2(16) == 0x1_0000 && Power2(17) == 0x2_0000 && Power2(18) == 0x4_0000
    ensures Power2(20) == 0x10_0000 && Power2(21) == 0x20_0000 && Power2(22) == 0x40_0000 && Power2(23) == 0x80_0000
    ensures Power2(25) == 0x200_0000 && Power2(26) == 0x400_0000 && Power2(27) == 0x800_0000 && Power2(28) == 0x1000_0000
  {
    assert Power2(8) == 0x100;
    assert Power2(13) == 0x2000;
    assert Power2(19) == 0x8_0000;
    assert Power2(24) == 0x100_0000;
  }

  // --------------------------------------------------- the steps

  /** The words of the only block: the message with the byte 0x80, and the length in bits. */
  predicate AbcWords(x: seq<Word>) {
    |x| == 16 && x[0] == 0x80636261 && x[14] == 24 && forall k :: 0 <= k < 16 && k != 0 && k != 14 ==> x[k] == 0
  }

  lemma AddsUp(a: Word, f: Word, x: Word, t: Word)
    ensures Add(Add(Add(a, f), x), t) == (a + f + x + t) % 0x1_0000_0000
  {
    AddsOn(a + f, x);
    AddsOn(a + f + x, t);
  }

  lemma AddsOn(x: nat, t: Word)
    ensures Add(x % 0x1_0000_0000, t) == (x + t) % 0x1_0000_0000
  {
    var q := x / 0x1_0000_0000;
    assert x + t == 0x1_0000_0000 * q + (x % 0x1_0000_0000 + t);
  }

  /** What step `i` adds up. */
  predicate Sums(x: seq<Word>, i: nat, a: Word, f: Word, m: Word)
    requires |x| == 16
  {
    m == (a + f + x[WordOf(i)] + Sine(i)) % 0x1_0000_0000
  }

  /** Step `i` adds up to `m`, rotates that to `r`, and changes one word, to `w`; `f` is what the
      round function gives. */
  lemma Stage(x: seq<Word>, i: nat, a: Word, b: Word, c: Word, d: Word, f: Word, m: Word, r: Word, w: Word)
    requires |x| == 16 && i < 64 && Steps(INIT, x, i) == State(a, b, c, d) && f == Auxiliary(i / 16, b, c, d)
    requires Sums(x, i, a, f, m) && r == RotateLeft(m, RotationOf(i)) && w == (b + r) % 0x1_0000_0000
    ensures Steps(INIT, x, i + 1) == State(d, w, b, c)
  {
    hide Auxiliary, RotateLeft, WordOf, Sine;
    AddsUp(a, f, x[WordOf(i)], Sine(i));
  }

  lemma By4(m: Word, h: nat, l: nat, r: Word)
    requires m == h * 0x1000_0000 + l && l < 0x1000_0000 && r == l * 0x10 + h
    ensures r == RotateLeft(m, 4)
  {
    hide Power2;
    assert m / 0x1000_0000 == h && m % 0x1000_0000 == l;
    Powers();
    Rotation(m, 4);
  }

  lemma By5(m: Word, h: nat, l: nat, r: Word)
    requires m == h * 0x800_0000 + l && l < 0x800_0000 && r == l * 0x20 + h
    ensures r == RotateLeft(m, 5)
  {
    hide Power2;
    assert m / 0x800_0000 == h && m % 0x800_0000 == l;
    Powers();
    Rotation(m, 5);
  }

  lemma By6(m: Word, h: nat, l: nat, r: Word)
    requires m == h * 0x400_0000 + l && l < 0x400_0000 && r == l * 0x40 + h
    ensures r == RotateLeft(m, 6)
  {
    hide Power2;
    assert m / 0x400_0000 == h && m % 0x400_0000 == l;
    Powers();
    Rotation(m, 6);
  }

  lemma By7(m: Word, h: nat, l: nat, r: Word)
    requires m == h * 0x200_0000 + l && l < 0x200_0000 && r == l * 0x80 + h
    ensures r == RotateLeft(m, 7)
  {
    hide Power2;
    assert m / 0x200_0000 == h && m % 0x200_0000 == l;
    Powers();
    Rotation(m, 7);
  }

  lemma By9(m: Word, h: nat, l: nat, r: Word)
    requires m == h * 0x80_0000 + l && l < 0x80_0000 && r == l * 0x200 + h
    ensures r == RotateLeft(m, 9)
  {
    hide Power2;
    assert m / 0x80_0000 == h && m % 0x80_0000 == l;
    Powers();
    Rotation(m, 9);
  }

  lemma By10(m: Word, h: nat, l: nat, r: Word)
    requires m == h * 0x40_0000 + l && l < 0x40_0000 && r == l * 0x400 + h
    ensures r == RotateLeft(m, 10)
  {
    hide Power2;
    assert m / 0x40_0000 == h && m % 0x40_0000 == l;
    Powers();
    Rotation(m, 10);
  }

  lemma By11(m: Word, h: nat, l: nat, r: Word)
    requires m == h * 0x20_0000 + l && l < 0x20_0000 && r == l * 0x800 + h
    ensures r == RotateLeft(m, 11)
  {
    hide Power2;
    assert m / 0x20_0000 == h && m % 0x20_0000 == l;
    Powers();
    Rotation(m, 11);
  }

  lemma By12(m: Word, h: nat, l: nat, r: Word)
    requires m == h * 0x10_0000 + l && l < 0x10_0000 && r == l * 0x1000 + h
    ensures r == RotateLeft(m, 12)
  {
    hide Power2;
    assert m / 0x10_0000 == h && m % 0x10_0000 == l;
    Powers();
    Rotation(m, 12);
  }

  lemma By14(m: Word, h: nat, l: nat, r: Word)
    requires m == h * 0x4_0000 + l && l < 0x4_0000 && r == l * 0x4000 + h
    ensures r == RotateLeft(m, 14)
  {
    hide Power2;
    assert m / 0x4_0000 == h && m % 0x4_0000 == l;
    Powers();
    Rotation(m, 14);
  }

  lemma By15(m: Word, h: nat, l: nat, r: Word)
    requires m == h * 0x2_0000 + l && l < 0x2_0000 && r == l * 0x8000 + h
    ensures r == RotateLeft(m, 15)
  {
    hide Power2;
    assert m / 0x2_0000 == h && m % 0x2_0000 == l;
    Powers();
    Rotation(m, 15);
  }

  lemma By16(m: Word, h: nat, l: nat, r: Word)
    requires m == h * 0x1_0000 + l && l < 0x1_0000 && r == l * 0x1_0000 + h
    ensures r == RotateLeft(m, 16)
  {
    hide Power2;
    assert m / 0x1_0000 == h && m % 0x1_0000 == l;
    Powers();
    Rotation(m, 16);
  }

  lemma By17(m: Word, h: nat, l: nat, r: Word)
    requires m == h * 0x8000 + l && l < 0x8000 && r == l * 0x2_0000 + h
    ensures r == RotateLeft(m, 17)
  {
    hide Power2;
    assert m / 0x8000 == h && m % 0x8000 == l;
    Powers();
    Rotation(m, 17);
  }

  lemma By20(m: Word, h: nat, l: nat, r: Word)
    requires m == h * 0x1000 + l && l < 0x1000 && r == l * 0x10_0000 + h
    ensures r == RotateLeft(m, 20)
  {
    hide Power2;
    assert m / 0x1000 == h && m % 0x1000 == l;
    Powers();
    Rotation(m, 20);
  }

  lemma By21(m: Word, h: nat, l: nat, r: Word)
    requires m == h * 0x800 + l && l < 0x800 && r == l * 0x20_0000 + h
    ensures r == RotateLeft(m, 21)
  {
    hide Power2;
    assert m / 0x800 == h && m % 0x800 == l;
    Powers();
    Rotation(m, 21);
  }

  lemma By22(m: Word, h: nat, l: nat, r: Word)
    requires m == h * 0x400 + l && l < 0x400 && r == l * 0x40_0000 + h
    ensures r == RotateLeft(m, 22)
  {
    hide Power2;
    assert m / 0x400 == h && m % 0x400 == l;
    Powers();
    Rotation(m, 22);
  }

  lemma By23(m: Word, h: nat, l: nat, r: Word)
    requires m == h * 0x200 + l && l < 0x200 && r == l * 0x80_0000 + h
    ensures r == RotateLeft(m, 23)
  {
    hide Power2;
    assert m / 0x200 == h && m % 0x200 == l;
    Powers();
    Rotation(m, 23);
  }

  lemma Bits0()
    ensures F(0xefcdab89, 0x98badcfe, 0x10325476) == 0x98badcfe
    ensures F(0xd6d117b4, 0xefcdab89, 0x98badcfe) == 0xceebcbca
    ensures F(0x344a8432, 0xd6d117b4, 0xefcdab89) == 0xdfc52fb9
    ensures F(0x2f6fbd72, 0x344a8432, 0xd6d117b4) == 0xf4da86b6
  {
    hide F, G, H, I;
    FOnBits(0xefcdab89, 0x98badcfe, 0x10325476, 0x98badcfe, 0xefcdab89, 0x98badcfe, 0x10325476, 0x98badcfe);
    FOnBits(0xd6d117b4, 0xefcdab89, 0x98badcfe, 0xceebcbca, 0xd6d117b4, 0xefcdab89, 0x98badcfe, 0xceebcbca);
    FOnBits(0x344a8432, 0xd6d117b4, 0xefcdab89, 0xdfc52fb9, 0x344a8432, 0xd6d117b4, 0xefcdab89, 0xdfc52fb9);
    FOnBits(0x2f6fbd72, 0x344a8432, 0xd6d117b4, 0xf4da86b6, 0x2f6fbd72, 0x344a8432, 0xd6d117b4, 0xf4da86b6);
  }

  lemma Stage0(x: seq<Word>)
    requires AbcWords(x)
    ensures Steps(INIT, x, 4) == State(0xd6d117b4, 0x7ad956f2, 0x2f6fbd72, 0x344a8432)
  {
    hide Steps, F, G, H, I, RotateLeft;
    Bits0();
    StartsAtInit(x);
    By7(0x57ce06d8, 0x2b, 0x1ce06d8, 0xe7036c2b);
    Stage(x, 0, 0x67452301, 0xefcdab89, 0x98badcfe, 0x10325476, 0x98badcfe, 0x57ce06d8, 0xe7036c2b, 0xd6d117b4);
    By12(0xc7e5d796, 0xc7e, 0x5d796, 0x5d796c7e);
    Stage(x, 1, 0x10325476, 0xd6d117b4, 0xefcdab89, 0x98badcfe, 0xceebcbca, 0xc7e5d796, 0x5d796c7e, 0x344a8432);
    By17(0x9ca07d92, 0x13940, 0x7d92, 0xfb253940);
    Stage(x, 2, 0x98badcfe, 0x344a8432, 0xd6d117b4, 0xefcdab89, 0xdfc52fb9, 0x9ca07d92, 0xfb253940, 0x2f6fbd72);
    By22(0xa666012d, 0x299980, 0x12d, 0x4b699980);
    Stage(x, 3, 0xefcdab89, 0x2f6fbd72, 0x344a8432, 0xd6d117b4, 0xf4da86b6, 0xa666012d, 0x4b699980, 0x7ad956f2);
  }

  lemma Bits4()
    ensures F(0x7ad956f2, 0x2f6fbd72, 0x344a8432) == 0x2e4b9472
    ensures F(0xc73741ef, 0x7ad956f2, 0x2f6fbd72) == 0x6a59fcf2
    ensures F(0x8bac3051, 0xc73741ef, 0x7ad956f2) == 0xf37546e3
    ensures F(0x207dc67b, 0x8bac3051, 0xc73741ef) == 0xc72e01d5
  {
    hide F, G, H, I;
    FOnBits(0x7ad956f2, 0x2f6fbd72, 0x344a8432, 0x2e4b9472, 0x7ad956f2, 0x2f6fbd72, 0x344a8432, 0x2e4b9472);
    FOnBits(0xc73741ef, 0x7ad956f2, 0x2f6fbd72, 0x6a59fcf2, 0xc73741ef, 0x7ad956f2, 0x2f6fbd72, 0x6a59fcf2);
    FOnBits(0x8bac3051, 0xc73741ef, 0x7ad956f2, 0xf37546e3, 0x8bac3051, 0xc73741ef, 0x7ad956f2, 0xf37546e3);
    FOnBits(0x207dc67b, 0x8bac3051, 0xc73741ef, 0xc72e01d5, 0x207dc67b, 0x8bac3051, 0xc73741ef, 0xc72e01d5);
  }

  lemma Stage4(x: seq<Word>)
    requires AbcWords(x) && Steps(INIT, x, 4) == State(0xd6d117b4, 0x7ad956f2, 0x2f6fbd72, 0x344a8432)
    ensures Steps(INIT, x, 8) == State(0xc73741ef, 0x928d99f6, 0x207dc67b, 0x8bac3051)
  {
    hide Steps, F, G, H, I, RotateLeft;
    Bits4();
    By7(0xfa98bbd5, 0x7d, 0x98bbd5, 0x4c5deafd);
    Stage(x, 4, 0xd6d117b4, 0x7ad956f2, 0x2f6fbd72, 0x344a8432, 0x2e4b9472, 0xfa98bbd5, 0x4c5deafd, 0xc73741ef);
    By12(0xe62c474e, 0xe62, 0xc474e, 0xc474ee62);
    Stage(x, 5, 0x344a8432, 0xc73741ef, 0x7ad956f2, 0x2f6fbd72, 0x6a59fcf2, 0xe62c474e, 0xc474ee62, 0x8bac3051);
    By17(0xcb154a68, 0x1962a, 0x4a68, 0x94d1962a);
    Stage(x, 6, 0x2f6fbd72, 0x8bac3051, 0xc73741ef, 0x7ad956f2, 0xf37546e3, 0xcb154a68, 0x94d1962a, 0x207dc67b);
    By22(0x3f4dedc8, 0xfd37b, 0x1c8, 0x720fd37b);
    Stage(x, 7, 0x7ad956f2, 0x207dc67b, 0x8bac3051, 0xc73741ef, 0xc72e01d5, 0x3f4dedc8, 0x720fd37b, 0x928d99f6);
  }

  lemma Bits8()
    ensures F(0x928d99f6, 0x207dc67b, 0x8bac3051) == 0x092da073
    ensures F(0x854b3712, 0x928d99f6, 0x207dc67b) == 0xa03dd17b
    ensures F(0x74e2f284, 0x854b3712, 0x928d99f6) == 0x864f3b72
    ensures F(0x3020401c, 0x74e2f284, 0x854b3712) == 0xb56b7706
  {
    hide F, G, H, I;
    FOnBits(0x928d99f6, 0x207dc67b, 0x8bac3051, 0x092da073, 0x928d99f6, 0x207dc67b, 0x8bac3051, 0x092da073);
    FOnBits(0x854b3712, 0x928d99f6, 0x207dc67b, 0xa03dd17b, 0x854b3712, 0x928d99f6, 0x207dc67b, 0xa03dd17b);
    FOnBits(0x74e2f284, 0x854b3712, 0x928d99f6, 0x864f3b72, 0x74e2f284, 0x854b3712, 0x928d99f6, 0x864f3b72);
    FOnBits(0x3020401c, 0x74e2f284, 0x854b3712, 0xb56b7706, 0x3020401c, 0x74e2f284, 0x854b3712, 0xb56b7706);
  }

  lemma Stage8(x: seq<Word>)
    requires AbcWords(x) && Steps(INIT, x, 8) == State(0xc73741ef, 0x928d99f6, 0x207dc67b, 0x8bac3051)
    ensures Steps(INIT, x, 12) == State(0x854b3712, 0x5ed49596, 0x3020401c, 0x74e2f284)
  {
    hide Steps, F, G, H, I, RotateLeft;
    Bits8();
    By7(0x39e57b3a, 0x1c, 0x1e57b3a, 0xf2bd9d1c);
    Stage(x, 8, 0xc73741ef, 0x928d99f6, 0x207dc67b, 0x8bac3051, 0x092da073, 0x39e57b3a, 0xf2bd9d1c, 0x854b3712);
    By12(0xb72ef97b, 0xb72, 0xef97b, 0xef97bb72);
    Stage(x, 9, 0x8bac3051, 0x854b3712, 0x928d99f6, 0x207dc67b, 0xa03dd17b, 0xb72ef97b, 0xef97bb72, 0x74e2f284);
    By17(0xa6cc5d9e, 0x14d98, 0x5d9e, 0xbb3d4d98);
    Stage(x, 10, 0x207dc67b, 0x74e2f284, 0x854b3712, 0x928d99f6, 0x864f3b72, 0xa6cc5d9e, 0xbb3d4d98, 0x3020401c);
    By22(0xd155e8ba, 0x34557a, 0xba, 0x2eb4557a);
    Stage(x, 11, 0x928d99f6, 0x3020401c, 0x74e2f284, 0x854b3712, 0xb56b7706, 0xd155e8ba, 0x2eb4557a, 0x5ed49596);
  }

  lemma Bits12()
    ensures F(0x5ed49596, 0x3020401c, 0x74e2f284) == 0x30226214
    ensures F(0xdda9b9a6, 0x5ed49596, 0x3020401c) == 0x7c80d19e
    ensures F(0xa1051895, 0xdda9b9a6, 0x5ed49596) == 0xdfd19d86
    ensures F(0xe396856b, 0xa1051895, 0xdda9b9a6) == 0xbd2d3885
  {
    hide F, G, H, I;
    FOnBits(0x5ed49596, 0x3020401c, 0x74e2f284, 0x30226214, 0x5ed49596, 0x3020401c, 0x74e2f284, 0x30226214);
    FOnBits(0xdda9b9a6, 0x5ed49596, 0x3020401c, 0x7c80d19e, 0xdda9b9a6, 0x5ed49596, 0x3020401c, 0x7c80d19e);
    FOnBits(0xa1051895, 0xdda9b9a6, 0x5ed49596, 0xdfd19d86, 0xa1051895, 0xdda9b9a6, 0x5ed49596, 0xdfd19d86);
    FOnBits(0xe396856b, 0xa1051895, 0xdda9b9a6, 0xbd2d3885, 0xe396856b, 0xa1051895, 0xdda9b9a6, 0xbd2d3885);
  }

  lemma Stage12(x: seq<Word>)
    requires AbcWords(x) && Steps(INIT, x, 12) == State(0x854b3712, 0x5ed49596, 0x3020401c, 0x74e2f284)
    ensures Steps(INIT, x, 16) == State(0xdda9b9a6, 0x72aff2e0, 0xe396856b, 0xa1051895)
  {
    hide Steps, F, G, H, I, RotateLeft;
    Bits12();
    By7(0x20fdaa48, 0x10, 0xfdaa48, 0x7ed52410);
    Stage(x, 12, 0x854b3712, 0x5ed49596, 0x3020401c, 0x74e2f284, 0x30226214, 0x20fdaa48, 0x7ed52410, 0xdda9b9a6);
    By12(0xeefc35b5, 0xeef, 0xc35b5, 0xc35b5eef);
    Stage(x, 13, 0x74e2f284, 0xdda9b9a6, 0x5ed49596, 0x3020401c, 0x7c80d19e, 0xeefc35b5, 0xc35b5eef, 0xa1051895);
    By17(0xb66b2148, 0x16cd6, 0x2148, 0x42916cd6);
    Stage(x, 14, 0x3020401c, 0xa1051895, 0xdda9b9a6, 0x5ed49596, 0xdfd19d86, 0xb66b2148, 0x42916cd6, 0xe396856b);
    By22(0x65b5d63c, 0x196d75, 0x23c, 0x8f196d75);
    Stage(x, 15, 0x5ed49596, 0xe396856b, 0xa1051895, 0xdda9b9a6, 0xbd2d3885, 0x65b5d63c, 0x8f196d75, 0x72aff2e0);
  }

  lemma Bits16()
    ensures G(0x72aff2e0, 0xe396856b, 0xa1051895) == 0x629795ea
    ensures G(0x3e9e9126, 0x72aff2e0, 0xe396856b) == 0x32bff3a2
    ensures G(0x4a1d804e, 0x3e9e9126, 0x72aff2e0) == 0x4e1d8146
    ensures G(0xe25e1652, 0x4a1d804e, 0x3e9e9126) == 0x621f104a
  {
    hide F, G, H, I;
    GOnBits(0x72aff2e0, 0xe396856b, 0xa1051895, 0x629795ea, 0x72aff2e0, 0xe396856b, 0xa1051895, 0x629795ea);
    GOnBits(0x3e9e9126, 0x72aff2e0, 0xe396856b, 0x32bff3a2, 0x3e9e9126, 0x72aff2e0, 0xe396856b, 0x32bff3a2);
    GOnBits(0x4a1d804e, 0x3e9e9126, 0x72aff2e0, 0x4e1d8146, 0x4a1d804e, 0x3e9e9126, 0x72aff2e0, 0x4e1d8146);
    GOnBits(0xe25e1652, 0x4a1d804e, 0x3e9e9126, 0x621f104a, 0xe25e1652, 0x4a1d804e, 0x3e9e9126, 0x621f104a);
  }

  lemma Stage16(x: seq<Word>)
    requires AbcWords(x) && Steps(INIT, x, 16) == State(0xdda9b9a6, 0x72aff2e0, 0xe396856b, 0xa1051895)
    ensures Steps(INIT, x, 20) == State(0x3e9e9126, 0xb5b204e4, 0xe25e1652, 0x4a1d804e)
  {
    hide Steps, F, G, H, I, RotateLeft;
    Bits16();
    By5(0x365f74f2, 0x6, 0x65f74f2, 0xcbee9e46);
    Stage(x, 16, 0xdda9b9a6, 0x72aff2e0, 0xe396856b, 0xa1051895, 0x629795ea, 0x365f74f2, 0xcbee9e46, 0x3e9e9126);
    By9(0x9405bf77, 0x128, 0x5bf77, 0x0b7eef28);
    Stage(x, 17, 0xa1051895, 0x3e9e9126, 0x72aff2e0, 0xe396856b, 0x32bff3a2, 0x9405bf77, 0x0b7eef28, 0x4a1d804e);
    By14(0x58126102, 0x1604, 0x26102, 0x98409604);
    Stage(x, 18, 0xe396856b, 0x4a1d804e, 0x3e9e9126, 0x72aff2e0, 0x4e1d8146, 0x58126102, 0x98409604, 0xe25e1652);
    By20(0x3ee92d35, 0x3ee92, 0xd35, 0xd353ee92);
    Stage(x, 19, 0x72aff2e0, 0xe25e1652, 0x4a1d804e, 0x3e9e9126, 0x621f104a, 0x3ee92d35, 0xd353ee92, 0xb5b204e4);
  }

  lemma Bits20()
    ensures G(0xb5b204e4, 0xe25e1652, 0x4a1d804e) == 0xa0521654
    ensures G(0x59a8ffda, 0xb5b204e4, 0xe25e1652) == 0x55a816f6
    ensures G(0x6d002f1e, 0x59a8ffda, 0xb5b204e4) == 0x6d08ff1e
    ensures G(0xabfc7920, 0x6d002f1e, 0x59a8ffda) == 0x2da87904
  {
    hide F, G, H, I;
    GOnBits(0xb5b204e4, 0xe25e1652, 0x4a1d804e, 0xa0521654, 0xb5b204e4, 0xe25e1652, 0x4a1d804e, 0xa0521654);
    GOnBits(0x59a8ffda, 0xb5b204e4, 0xe25e1652, 0x55a816f6, 0x59a8ffda, 0xb5b204e4, 0xe25e1652, 0x55a816f6);
    GOnBits(0x6d002f1e, 0x59a8ffda, 0xb5b204e4, 0x6d08ff1e, 0x6d002f1e, 0x59a8ffda, 0xb5b204e4, 0x6d08ff1e);
    GOnBits(0xabfc7920, 0x6d002f1e, 0x59a8ffda, 0x2da87904, 0xabfc7920, 0x6d002f1e, 0x59a8ffda, 0x2da87904);
  }

  lemma Stage20(x: seq<Word>)
    requires AbcWords(x) && Steps(INIT, x, 20) == State(0x3e9e9126, 0xb5b204e4, 0xe25e1652, 0x4a1d804e)
    ensures Steps(INIT, x, 24) == State(0x59a8ffda, 0x47092c07, 0xabfc7920, 0x6d002f1e)
  {
    hide Steps, F, G, H, I, RotateLeft;
    Bits20();
    By5(0xb51fb7d7, 0x16, 0x51fb7d7, 0xa3f6faf6);
    Stage(x, 20, 0x3e9e9126, 0xb5b204e4, 0xe25e1652, 0x4a1d804e, 0xa0521654, 0xb51fb7d7, 0xa3f6faf6, 0x59a8ffda);
    By9(0xa209ab97, 0x144, 0x9ab97, 0x13572f44);
    Stage(x, 21, 0x4a1d804e, 0x59a8ffda, 0xb5b204e4, 0xe25e1652, 0x55a816f6, 0xa209ab97, 0x13572f44, 0x6d002f1e);
    By14(0x2808fbf1, 0xa02, 0xfbf1, 0x3efc4a02);
    Stage(x, 22, 0xe25e1652, 0x6d002f1e, 0x59a8ffda, 0xb5b204e4, 0x6d08ff1e, 0x2808fbf1, 0x3efc4a02, 0xabfc7920);
    By20(0xcb2e79b0, 0xcb2e7, 0x9b0, 0x9b0cb2e7);
    Stage(x, 23, 0xb5b204e4, 0xabfc7920, 0x6d002f1e, 0x59a8ffda, 0x2da87904, 0xcb2e79b0, 0x9b0cb2e7, 0x47092c07);
  }

  lemma Bits24()
    ensures G(0x47092c07, 0xabfc7920, 0x6d002f1e) == 0xc7fc7c26
    ensures G(0xb7f268cf, 0x47092c07, 0xabfc7920) == 0xe7f16c07
    ensures G(0x09388eff, 0xb7f268cf, 0x47092c07) == 0xb1fa4ccf
    ensures G(0xfe1623b1, 0x09388eff, 0xb7f268cf) == 0xbe1aa6b1
  {
    hide F, G, H, I;
    GOnBits(0x47092c07, 0xabfc7920, 0x6d002f1e, 0xc7fc7c26, 0x47092c07, 0xabfc7920, 0x6d002f1e, 0xc7fc7c26);
    GOnBits(0xb7f268cf, 0x47092c07, 0xabfc7920, 0xe7f16c07, 0xb7f268cf, 0x47092c07, 0xabfc7920, 0xe7f16c07);
    GOnBits(0x09388eff, 0xb7f268cf, 0x47092c07, 0xb1fa4ccf, 0x09388eff, 0xb7f268cf, 0x47092c07, 0xb1fa4ccf);
    GOnBits(0xfe1623b1, 0x09388eff, 0xb7f268cf, 0xbe1aa6b1, 0xfe1623b1, 0x09388eff, 0xb7f268cf, 0xbe1aa6b1);
  }

  lemma Stage24(x: seq<Word>)
    requires AbcWords(x) && Steps(INIT, x, 24) == State(0x59a8ffda, 0x47092c07, 0xabfc7920, 0x6d002f1e)
    ensures Steps(INIT, x, 28) == State(0xb7f268cf, 0x786acb8f, 0xfe1623b1, 0x09388eff)
  {
    hide Steps, F, G, H, I, RotateLeft;
    Bits24();
    By5(0x438749e6, 0x8, 0x38749e6, 0x70e93cc8);
    Stage(x, 24, 0x59a8ffda, 0x47092c07, 0xabfc7920, 0x6d002f1e, 0xc7fc7c26, 0x438749e6, 0x70e93cc8, 0xb7f268cf);
    By9(0x1828a313, 0x30, 0x28a313, 0x51462630);
    Stage(x, 25, 0x6d002f1e, 0xb7f268cf, 0x47092c07, 0xabfc7920, 0xe7f16c07, 0x1828a313, 0x51462630, 0x09388eff);
    By14(0x52cbd376, 0x14b2, 0x3d376, 0xf4dd94b2);
    Stage(x, 26, 0xabfc7920, 0x09388eff, 0xb7f268cf, 0x47092c07, 0xb1fa4ccf, 0x52cbd376, 0xf4dd94b2, 0xfe1623b1);
    By20(0x4a7de7a5, 0x4a7de, 0x7a5, 0x7a54a7de);
    Stage(x, 27, 0x47092c07, 0xfe1623b1, 0x09388eff, 0xb7f268cf, 0xbe1aa6b1, 0x4a7de7a5, 0x7a54a7de, 0x786acb8f);
  }

  lemma Bits28()
    ensures G(0x786acb8f, 0xfe1623b1, 0x09388eff) == 0xfe2eab8f
    ensures G(0x790a77fb, 0x786acb8f, 0xfe1623b1) == 0x786aebbf
    ensures G(0x9f47e4f8, 0x790a77fb, 0x786acb8f) == 0x1942f4f8
    ensures G(0xa62884aa, 0x9f47e4f8, 0x790a77fb) == 0xa64d84aa
  {
    hide F, G, H, I;
    GOnBits(0x786acb8f, 0xfe1623b1, 0x09388eff, 0xfe2eab8f, 0x786acb8f, 0xfe1623b1, 0x09388eff, 0xfe2eab8f);
    GOnBits(0x790a77fb, 0x786acb8f, 0xfe1623b1, 0x786aebbf, 0x790a77fb, 0x786acb8f, 0xfe1623b1, 0x786aebbf);
    GOnBits(0x9f47e4f8, 0x790a77fb, 0x786acb8f, 0x1942f4f8, 0x9f47e4f8, 0x790a77fb, 0x786acb8f, 0x1942f4f8);
    GOnBits(0xa62884aa, 0x9f47e4f8, 0x790a77fb, 0xa64d84aa, 0xa62884aa, 0x9f47e4f8, 0x790a77fb, 0xa64d84aa);
  }

  lemma Stage28(x: seq<Word>)
    requires AbcWords(x) && Steps(INIT, x, 28) == State(0xb7f268cf, 0x786acb8f, 0xfe1623b1, 0x09388eff)
    ensures Steps(INIT, x, 32) == State(0x790a77fb, 0x726342d3, 0xa62884aa, 0x9f47e4f8)
  {
    hide Steps, F, G, H, I, RotateLeft;
    Bits28();
    By5(0x6004fd63, 0xc, 0x4fd63, 0x009fac6c);
    Stage(x, 28, 0xb7f268cf, 0x786acb8f, 0xfe1623b1, 0x09388eff, 0xfe2eab8f, 0x6004fd63, 0x009fac6c, 0x790a77fb);
    By9(0x7e931eb6, 0xfd, 0x131eb6, 0x263d6cfd);
    Stage(x, 29, 0x09388eff, 0x790a77fb, 0x786acb8f, 0xfe1623b1, 0x786aebbf, 0x7e931eb6, 0x263d6cfd, 0x9f47e4f8);
    By14(0x7ec81b82, 0x1fb2, 0x1b82, 0x06e09fb2);
    Stage(x, 30, 0xfe1623b1, 0x9f47e4f8, 0x790a77fb, 0x786acb8f, 0x1942f4f8, 0x7ec81b82, 0x06e09fb2, 0xa62884aa);
    By20(0xabe29cc3, 0xabe29, 0xcc3, 0xcc3abe29);
    Stage(x, 31, 0x786acb8f, 0xa62884aa, 0x9f47e4f8, 0x790a77fb, 0xa64d84aa, 0xabe29cc3, 0xcc3abe29, 0x726342d3);
  }

  lemma Bits32()
    ensures H(0x726342d3, 0xa62884aa, 0x9f47e4f8) == 0x4b0c2281
    ensures H(0xb3707ebf, 0x726342d3, 0xa62884aa) == 0x673bb8c6
    ensures H(0x60127b2e, 0xb3707ebf, 0x726342d3) == 0xa1014742
    ensures H(0x8d212ff5, 0x60127b2e, 0xb3707ebf) == 0x5e432a64
  {
    hide F, G, H, I;
    HOnBits(0x726342d3, 0xa62884aa, 0x9f47e4f8, 0x4b0c2281, 0x726342d3, 0xa62884aa, 0x9f47e4f8, 0x4b0c2281);
    HOnBits(0xb3707ebf, 0x726342d3, 0xa62884aa, 0x673bb8c6, 0xb3707ebf, 0x726342d3, 0xa62884aa, 0x673bb8c6);
    HOnBits(0x60127b2e, 0xb3707ebf, 0x726342d3, 0xa1014742, 0x60127b2e, 0xb3707ebf, 0x726342d3, 0xa1014742);
    HOnBits(0x8d212ff5, 0x60127b2e, 0xb3707ebf, 0x5e432a64, 0x8d212ff5, 0x60127b2e, 0xb3707ebf, 0x5e432a64);
  }

  lemma Stage32(x: seq<Word>)
    requires AbcWords(x) && Steps(INIT, x, 32) == State(0x790a77fb, 0x726342d3, 0xa62884aa, 0x9f47e4f8)
    ensures Steps(INIT, x, 36) == State(0xb3707ebf, 0x3b0875c7, 0x8d212ff5, 0x60127b2e)
  {
    hide Steps, F, G, H, I, RotateLeft;
    Bits32();
    By4(0xc410d3be, 0xc, 0x410d3be, 0x410d3bec);
    Stage(x, 32, 0x790a77fb, 0x726342d3, 0xa62884aa, 0x9f47e4f8, 0x4b0c2281, 0xc410d3be, 0x410d3bec, 0xb3707ebf);
    By11(0x8df5943f, 0x46f, 0x15943f, 0xaca1fc6f);
    Stage(x, 33, 0x9f47e4f8, 0xb3707ebf, 0x726342d3, 0xa62884aa, 0x673bb8c6, 0x8df5943f, 0xaca1fc6f, 0x60127b2e);
    By16(0xb4c72d0e, 0xb4c7, 0x2d0e, 0x2d0eb4c7);
    Stage(x, 34, 0xa62884aa, 0x60127b2e, 0xb3707ebf, 0x726342d3, 0xa1014742, 0xb4c72d0e, 0x2d0eb4c7, 0x8d212ff5);
    By23(0xce8ba55b, 0x6745d2, 0x15b, 0xade745d2);
    Stage(x, 35, 0x726342d3, 0x8d212ff5, 0x60127b2e, 0xb3707ebf, 0x5e432a64, 0xce8ba55b, 0xade745d2, 0x3b0875c7);
  }

  lemma Bits36()
    ensures H(0x3b0875c7, 0x8d212ff5, 0x60127b2e) == 0xd63b211c
    ensures H(0x21b117b9, 0x3b0875c7, 0x8d212ff5) == 0x97984d8b
    ensures H(0x6e7429d5, 0x21b117b9, 0x3b0875c7) == 0x74cd4bab
    ensures H(0x3575227e, 0x6e7429d5, 0x21b117b9) == 0x7ab01c12
  {
    hide F, G, H, I;
    HOnBits(0x3b0875c7, 0x8d212ff5, 0x60127b2e, 0xd63b211c, 0x3b0875c7, 0x8d212ff5, 0x60127b2e, 0xd63b211c);
    HOnBits(0x21b117b9, 0x3b0875c7, 0x8d212ff5, 0x97984d8b, 0x21b117b9, 0x3b0875c7, 0x8d212ff5, 0x97984d8b);
    HOnBits(0x6e7429d5, 0x21b117b9, 0x3b0875c7, 0x74cd4bab, 0x6e7429d5, 0x21b117b9, 0x3b0875c7, 0x74cd4bab);
    HOnBits(0x3575227e, 0x6e7429d5, 0x21b117b9, 0x7ab01c12, 0x3575227e, 0x6e7429d5, 0x21b117b9, 0x7ab01c12);
  }

  lemma Stage36(x: seq<Word>)
    requires AbcWords(x) && Steps(INIT, x, 36) == State(0xb3707ebf, 0x3b0875c7, 0x8d212ff5, 0x60127b2e)
    ensures Steps(INIT, x, 40) == State(0x21b117b9, 0x5a2f5ea5, 0x3575227e, 0x6e7429d5)
  {
    hide Steps, F, G, H, I, RotateLeft;
    Bits36();
    By4(0x2e6a8a1f, 0x2, 0xe6a8a1f, 0xe6a8a1f2);
    Stage(x, 36, 0xb3707ebf, 0x3b0875c7, 0x8d212ff5, 0x60127b2e, 0xd63b211c, 0x2e6a8a1f, 0xe6a8a1f2, 0x21b117b9);
    By11(0x43899862, 0x21c, 0x99862, 0x4cc3121c);
    Stage(x, 37, 0x60127b2e, 0x21b117b9, 0x3b0875c7, 0x8d212ff5, 0x97984d8b, 0x43899862, 0x4cc3121c, 0x6e7429d5);
    By16(0xf8a9c700, 0xf8a9, 0xc700, 0xc700f8a9);
    Stage(x, 38, 0x8d212ff5, 0x6e7429d5, 0x21b117b9, 0x3b0875c7, 0x74cd4bab, 0xf8a9c700, 0xc700f8a9, 0x3575227e);
    By23(0x74784e49, 0x3a3c27, 0x49, 0x24ba3c27);
    Stage(x, 39, 0x3b0875c7, 0x3575227e, 0x6e7429d5, 0x21b117b9, 0x7ab01c12, 0x74784e49, 0x24ba3c27, 0x5a2f5ea5);
  }

  lemma Bits40()
    ensures H(0x5a2f5ea5, 0x3575227e, 0x6e7429d5) == 0x012e550e
    ensures H(0x11de1779, 0x5a2f5ea5, 0x3575227e) == 0x7e846ba2
    ensures H(0xfadcaa38, 0x11de1779, 0x5a2f5ea5) == 0xb12de3e4
    ensures H(0x31c465ca, 0xfadcaa38, 0x11de1779) == 0xdac6d88b
  {
    hide F, G, H, I;
    HOnBits(0x5a2f5ea5, 0x3575227e, 0x6e7429d5, 0x012e550e, 0x5a2f5ea5, 0x3575227e, 0x6e7429d5, 0x012e550e);
    HOnBits(0x11de1779, 0x5a2f5ea5, 0x3575227e, 0x7e846ba2, 0x11de1779, 0x5a2f5ea5, 0x3575227e, 0x7e846ba2);
    HOnBits(0xfadcaa38, 0x11de1779, 0x5a2f5ea5, 0xb12de3e4, 0xfadcaa38, 0x11de1779, 0x5a2f5ea5, 0xb12de3e4);
    HOnBits(0x31c465ca, 0xfadcaa38, 0x11de1779, 0xdac6d88b, 0x31c465ca, 0xfadcaa38, 0x11de1779, 0xdac6d88b);
  }

  lemma Stage40(x: seq<Word>)
    requires AbcWords(x) && Steps(INIT, x, 40) == State(0x21b117b9, 0x5a2f5ea5, 0x3575227e, 0x6e7429d5)
    ensures Steps(INIT, x, 44) == State(0x11de1779, 0x4c6124f4, 0x31c465ca, 0xfadcaa38)
  {
    hide Steps, F, G, H, I, RotateLeft;
    Bits40();
    By4(0x4b7aeb8d, 0x4, 0xb7aeb8d, 0xb7aeb8d4);
    Stage(x, 40, 0x21b117b9, 0x5a2f5ea5, 0x3575227e, 0x6e7429d5, 0x012e550e, 0x4b7aeb8d, 0xb7aeb8d4, 0x11de1779);
    By11(0x57fd1fd2, 0x2bf, 0x1d1fd2, 0xe8fe92bf);
    Stage(x, 41, 0x6e7429d5, 0x11de1779, 0x5a2f5ea5, 0x3575227e, 0x7e846ba2, 0x57fd1fd2, 0xe8fe92bf, 0xfadcaa38);
    By16(0xbb9236e7, 0xbb92, 0x36e7, 0x36e7bb92);
    Stage(x, 42, 0x3575227e, 0xfadcaa38, 0x11de1779, 0x5a2f5ea5, 0xb12de3e4, 0xbb9236e7, 0x36e7bb92, 0x31c465ca);
    By23(0x397e5435, 0x1cbf2a, 0x35, 0x1a9cbf2a);
    Stage(x, 43, 0x5a2f5ea5, 0x31c465ca, 0xfadcaa38, 0x11de1779, 0xdac6d88b, 0x397e5435, 0x1a9cbf2a, 0x4c6124f4);
  }

  lemma Bits44()
    ensures H(0x4c6124f4, 0x31c465ca, 0xfadcaa38) == 0x8779eb06
    ensures H(0x7f2e507b, 0x4c6124f4, 0x31c465ca) == 0x028b1145
    ensures H(0x99d9679d, 0x7f2e507b, 0x4c6124f4) == 0xaa961312
    ensures H(0x8fae6399, 0x99d9679d, 0x7f2e507b) == 0x6959547f
  {
    hide F, G, H, I;
    HOnBits(0x4c6124f4, 0x31c465ca, 0xfadcaa38, 0x8779eb06, 0x4c6124f4, 0x31c465ca, 0xfadcaa38, 0x8779eb06);
    HOnBits(0x7f2e507b, 0x4c6124f4, 0x31c465ca, 0x028b1145, 0x7f2e507b, 0x4c6124f4, 0x31c465ca, 0x028b1145);
    HOnBits(0x99d9679d, 0x7f2e507b, 0x4c6124f4, 0xaa961312, 0x99d9679d, 0x7f2e507b, 0x4c6124f4, 0xaa961312);
    HOnBits(0x8fae6399, 0x99d9679d, 0x7f2e507b, 0x6959547f, 0x8fae6399, 0x99d9679d, 0x7f2e507b, 0x6959547f);
  }

  lemma Stage44(x: seq<Word>)
    requires AbcWords(x) && Steps(INIT, x, 44) == State(0x11de1779, 0x4c6124f4, 0x31c465ca, 0xfadcaa38)
    ensures Steps(INIT, x, 48) == State(0x7f2e507b, 0x7beb9700, 0x8fae6399, 0x99d9679d)
  {
    hide Steps, F, G, H, I, RotateLeft;
    Bits44();
    By4(0x732cd2b8, 0x7, 0x32cd2b8, 0x32cd2b87);
    Stage(x, 44, 0x11de1779, 0x4c6124f4, 0x31c465ca, 0xfadcaa38, 0x8779eb06, 0x732cd2b8, 0x32cd2b87, 0x7f2e507b);
    By11(0xe4435562, 0x722, 0x35562, 0x1aab1722);
    Stage(x, 45, 0xfadcaa38, 0x7f2e507b, 0x4c6124f4, 0x31c465ca, 0x028b1145, 0xe4435562, 0x1aab1722, 0x99d9679d);
    By16(0xfbfcf5d4, 0xfbfc, 0xf5d4, 0xf5d4fbfc);
    Stage(x, 46, 0x31c465ca, 0x99d9679d, 0x7f2e507b, 0x4c6124f4, 0xaa961312, 0xfbfcf5d4, 0xf5d4fbfc, 0x8fae6399);
    By23(0x7a66cfd8, 0x3d3367, 0x1d8, 0xec3d3367);
    Stage(x, 47, 0x4c6124f4, 0x8fae6399, 0x99d9679d, 0x7f2e507b, 0x6959547f, 0x7a66cfd8, 0xec3d3367, 0x7beb9700);
  }

  lemma Bits48()
    ensures I(0x7beb9700, 0x8fae6399, 0x99d9679d) == 0xf041fcfb
    ensures I(0x7b201df8, 0x7beb9700, 0x8fae6399) == 0x009a0afe
    ensures I(0xf4e8e96e, 0x7b201df8, 0x7beb9700) == 0x8fdcf407
    ensures I(0xb298cefd, 0xf4e8e96e, 0x7b201df8) == 0x42370791
  {
    hide F, G, H, I;
    IOnBits(0x7beb9700, 0x8fae6399, 0x99d9679d, 0xf041fcfb, 0x7beb9700, 0x8fae6399, 0x99d9679d, 0xf041fcfb);
    IOnBits(0x7b201df8, 0x7beb9700, 0x8fae6399, 0x009a0afe, 0x7b201df8, 0x7beb9700, 0x8fae6399, 0x009a0afe);
    IOnBits(0xf4e8e96e, 0x7b201df8, 0x7beb9700, 0x8fdcf407, 0xf4e8e96e, 0x7b201df8, 0x7beb9700, 0x8fdcf407);
    IOnBits(0xb298cefd, 0xf4e8e96e, 0x7b201df8, 0x42370791, 0xb298cefd, 0xf4e8e96e, 0x7b201df8, 0x42370791);
  }

  lemma Stage48(x: seq<Word>)
    requires AbcWords(x) && Steps(INIT, x, 48) == State(0x7f2e507b, 0x7beb9700, 0x8fae6399, 0x99d9679d)
    ensures Steps(INIT, x, 52) == State(0x7b201df8, 0x8bf025c4, 0xb298cefd, 0xf4e8e96e)
  {
    hide Steps, F, G, H, I, RotateLeft;
    Bits48();
    By6(0xe3fcd21b, 0x38, 0x3fcd21b, 0xff3486f8);
    Stage(x, 48, 0x7f2e507b, 0x7beb9700, 0x8fae6399, 0x99d9679d, 0xf041fcfb, 0xe3fcd21b, 0xff3486f8, 0x7b201df8);
    By10(0xdd9e7232, 0x376, 0x1e7232, 0x79c8cb76);
    Stage(x, 49, 0x99d9679d, 0x7b201df8, 0x7beb9700, 0x8fae6399, 0x009a0afe, 0xdd9e7232, 0x79c8cb76, 0xf4e8e96e);
    By15(0xcb1f7b5f, 0x658f, 0x17b5f, 0xbdafe58f);
    Stage(x, 50, 0x8fae6399, 0xf4e8e96e, 0x7b201df8, 0x7beb9700, 0x8fdcf407, 0xcb1f7b5f, 0xbdafe58f, 0xb298cefd);
    By21(0xbab63eca, 0x1756c7, 0x6ca, 0xd95756c7);
    Stage(x, 51, 0x7beb9700, 0xb298cefd, 0xf4e8e96e, 0x7b201df8, 0x42370791, 0xbab63eca, 0xd95756c7, 0x8bf025c4);
  }

  lemma Bits52()
    ensures I(0x8bf025c4, 0xb298cefd, 0xf4e8e96e) == 0x396ff928
    ensures I(0x06cc5e8a, 0x8bf025c4, 0xb298cefd) == 0xc41f5a4e
    ensures I(0x5b0d97aa, 0x06cc5e8a, 0x8bf025c4) == 0x79c38131
    ensures I(0x7d632dd0, 0x5b0d97aa, 0x06cc5e8a) == 0xa67e3a5f
  {
    hide F, G, H, I;
    IOnBits(0x8bf025c4, 0xb298cefd, 0xf4e8e96e, 0x396ff928, 0x8bf025c4, 0xb298cefd, 0xf4e8e96e, 0x396ff928);
    IOnBits(0x06cc5e8a, 0x8bf025c4, 0xb298cefd, 0xc41f5a4e, 0x06cc5e8a, 0x8bf025c4, 0xb298cefd, 0xc41f5a4e);
    IOnBits(0x5b0d97aa, 0x06cc5e8a, 0x8bf025c4, 0x79c38131, 0x5b0d97aa, 0x06cc5e8a, 0x8bf025c4, 0x79c38131);
    IOnBits(0x7d632dd0, 0x5b0d97aa, 0x06cc5e8a, 0xa67e3a5f, 0x7d632dd0, 0x5b0d97aa, 0x06cc5e8a, 0xa67e3a5f);
  }

  lemma Stage52(x: seq<Word>)
    requires AbcWords(x) && Steps(INIT, x, 52) == State(0x7b201df8, 0x8bf025c4, 0xb298cefd, 0xf4e8e96e)
    ensures Steps(INIT, x, 56) == State(0x06cc5e8a, 0x3bfa2c27, 0x7d632dd0, 0x5b0d97aa)
  {
    hide Steps, F, G, H, I, RotateLeft;
    Bits52();
    By6(0x19eb70e3, 0x6, 0x1eb70e3, 0x7adc38c6);
    Stage(x, 52, 0x7b201df8, 0x8bf025c4, 0xb298cefd, 0xf4e8e96e, 0x396ff928, 0x19eb70e3, 0x7adc38c6, 0x06cc5e8a);
    By10(0x4815104e, 0x120, 0x15104e, 0x54413920);
    Stage(x, 53, 0xf4e8e96e, 0x06cc5e8a, 0x8bf025c4, 0xb298cefd, 0xc41f5a4e, 0x4815104e, 0x54413920, 0x5b0d97aa);
    By15(0x2c4c44ab, 0x1626, 0x44ab, 0x22559626);
    Stage(x, 54, 0xb298cefd, 0x5b0d97aa, 0x06cc5e8a, 0x8bf025c4, 0x79c38131, 0x2c4c44ab, 0x22559626, 0x7d632dd0);
    By21(0xb7f2bdf4, 0x16fe57, 0x5f4, 0xbe96fe57);
    Stage(x, 55, 0x8bf025c4, 0x7d632dd0, 0x5b0d97aa, 0x06cc5e8a, 0xa67e3a5f, 0xb7f2bdf4, 0xbe96fe57, 0x3bfa2c27);
  }

  lemma Bits56()
    ensures I(0x3bfa2c27, 0x7d632dd0, 0x5b0d97aa) == 0xc29941a7
    ensures I(0x7f81cc35, 0x3bfa2c27, 0x7d632dd0) == 0xc467f218
    ensures I(0x094454ab, 0x7f81cc35, 0x3bfa2c27) == 0xb2c41bce
    ensures I(0x4f9dbe3f, 0x094454ab, 0x7f81cc35) == 0xc6bbeb54
  {
    hide F, G, H, I;
    IOnBits(0x3bfa2c27, 0x7d632dd0, 0x5b0d97aa, 0xc29941a7, 0x3bfa2c27, 0x7d632dd0, 0x5b0d97aa, 0xc29941a7);
    IOnBits(0x7f81cc35, 0x3bfa2c27, 0x7d632dd0, 0xc467f218, 0x7f81cc35, 0x3bfa2c27, 0x7d632dd0, 0xc467f218);
    IOnBits(0x094454ab, 0x7f81cc35, 0x3bfa2c27, 0xb2c41bce, 0x094454ab, 0x7f81cc35, 0x3bfa2c27, 0xb2c41bce);
    IOnBits(0x4f9dbe3f, 0x094454ab, 0x7f81cc35, 0xc6bbeb54, 0x4f9dbe3f, 0x094454ab, 0x7f81cc35, 0xc6bbeb54);
  }

  lemma Stage56(x: seq<Word>)
    requires AbcWords(x) && Steps(INIT, x, 56) == State(0x06cc5e8a, 0x3bfa2c27, 0x7d632dd0, 0x5b0d97aa)
    ensures Steps(INIT, x, 60) == State(0x7f81cc35, 0x7327d604, 0x4f9dbe3f, 0x094454ab)
  {
    hide Steps, F, G, H, I, RotateLeft;
    Bits56();
    By6(0x390e1e80, 0xe, 0x10e1e80, 0x4387a00e);
    Stage(x, 56, 0x06cc5e8a, 0x3bfa2c27, 0x7d632dd0, 0x5b0d97aa, 0xc29941a7, 0x390e1e80, 0x4387a00e, 0x7f81cc35);
    By10(0x1da270a2, 0x76, 0x2270a2, 0x89c28876);
    Stage(x, 57, 0x5b0d97aa, 0x7f81cc35, 0x3bfa2c27, 0x7d632dd0, 0xc467f218, 0x1da270a2, 0x89c28876, 0x094454ab);
    By15(0xd3288cb2, 0x6994, 0x8cb2, 0x46596994);
    Stage(x, 58, 0x7d632dd0, 0x094454ab, 0x7f81cc35, 0x3bfa2c27, 0xb2c41bce, 0xd3288cb2, 0x46596994, 0x4f9dbe3f);
    By21(0x50be291c, 0xa17c5, 0x11c, 0x238a17c5);
    Stage(x, 59, 0x3bfa2c27, 0x4f9dbe3f, 0x094454ab, 0x7f81cc35, 0xc6bbeb54, 0x50be291c, 0x238a17c5, 0x7327d604);
  }

  lemma Bits60()
    ensures I(0x7327d604, 0x4f9dbe3f, 0x094454ab) == 0xb822416b
    ensures I(0x310ade8f, 0x7327d604, 0x4f9dbe3f) == 0xc24d09cb
    ensures I(0x624d8cb2, 0x310ade8f, 0x7327d604) == 0xdfd77374
    ensures I(0xe484b9d8, 0x624d8cb2, 0x310ade8f) == 0x8cb8354a
  {
    hide F, G, H, I;
    IOnBits(0x7327d604, 0x4f9dbe3f, 0x094454ab, 0xb822416b, 0x7327d604, 0x4f9dbe3f, 0x094454ab, 0xb822416b);
    IOnBits(0x310ade8f, 0x7327d604, 0x4f9dbe3f, 0xc24d09cb, 0x310ade8f, 0x7327d604, 0x4f9dbe3f, 0xc24d09cb);
    IOnBits(0x624d8cb2, 0x310ade8f, 0x7327d604, 0xdfd77374, 0x624d8cb2, 0x310ade8f, 0x7327d604, 0xdfd77374);
    IOnBits(0xe484b9d8, 0x624d8cb2, 0x310ade8f, 0x8cb8354a, 0xe484b9d8, 0x624d8cb2, 0x310ade8f, 0x8cb8354a);
  }

  lemma Stage60(x: seq<Word>)
    requires AbcWords(x) && Steps(INIT, x, 60) == State(0x7f81cc35, 0x7327d604, 0x4f9dbe3f, 0x094454ab)
    ensures Steps(INIT, x, 64) == State(0x310ade8f, 0xc08226b3, 0xe484b9d8, 0x624d8cb2)
  {
    hide Steps, F, G, H, I, RotateLeft;
    Bits60();
    By6(0x2ef78c22, 0xb, 0x2f78c22, 0xbde3088b);
    Stage(x, 60, 0x7f81cc35, 0x7327d604, 0x4f9dbe3f, 0x094454ab, 0xb822416b, 0x2ef78c22, 0xbde3088b, 0x310ade8f);
    By10(0x88cc50ab, 0x223, 0xc50ab, 0x3142ae23);
    Stage(x, 61, 0x094454ab, 0x310ade8f, 0x7327d604, 0x4f9dbe3f, 0xc24d09cb, 0x88cc50ab, 0x3142ae23, 0x624d8cb2);
    By15(0x5a4d046e, 0x2d26, 0x1046e, 0x82372d26);
    Stage(x, 62, 0x4f9dbe3f, 0x624d8cb2, 0x310ade8f, 0x7327d604, 0xdfd77374, 0x5a4d046e, 0x82372d26, 0xe484b9d8);
    By21(0xeb66dedf, 0x1d6cdb, 0x6df, 0xdbfd6cdb);
    Stage(x, 63, 0x7327d604, 0xe484b9d8, 0x624d8cb2, 0x310ade8f, 0x8cb8354a, 0xeb66dedf, 0xdbfd6cdb, 0xc08226b3);
  }

  lemma StartsAtInit(x: seq<Word>)
    requires |x| == 16
    ensures Steps(INIT, x, 0) == State(0x67452301, 0xefcdab89, 0x98badcfe, 0x10325476)
  {
  }

  lemma AllStages(x: seq<Word>)
    requires AbcWords(x)
    ensures Steps(INIT, x, 64) == State(0x310ade8f, 0xc08226b3, 0xe484b9d8, 0x624d8cb2)
  {
    hide AbcWords, Steps;
    Stage0(x);
    Stage4(x);
    Stage8(x);
    Stage12(x);
    Stage16(x);
    Stage20(x);
    Stage24(x);
    Stage28(x);
    Stage32(x);
    Stage36(x);
    Stage40(x);
    Stage44(x);
    Stage48(x);
    Stage52(x);
    Stage56(x);
    Stage60(x);
  }

  // --------------------------------------------------- the message and its digest

  lemma AbcIsPadded()
    ensures |Padded(ABC)| == 64 && AbcWords(Words(Padded(ABC)))
  {
    var p := Padded(ABC);
    assert ZeroCount(3) == 52;
    LengthBytes();
    assert p == ABC + [0x80] + Zeros(52) + [24, 0, 0, 0, 0, 0, 0, 0];
    assert p[0] == 0x61 && p[1] == 0x62 && p[2] == 0x63 && p[3] == 0x80;
    assert forall i :: 4 <= i < 64 ==> p[i] == if i == 56 then 24 else 0;
    assert WordAt(p, 0) == 0x80636261 && WordAt(p, 14) == 24;
  }

  lemma LengthBytes()
    ensures LowBytes(24, 8) == [24, 0, 0, 0, 0, 0, 0, 0]
  {
    assert LowBytes(0, 3) == [0, 0, 0];
    assert LowBytes(0, 7) == [0, 0, 0, 0, 0, 0, 0];
  }

  lemma WordBytes(w: Word, b0: Byte, b1: Byte, b2: Byte, b3: Byte)
    requires w == b0 + 0x100 * b1 + 0x1_0000 * b2 + 0x100_0000 * b3
    ensures LowBytes(w, 4) == [b0, b1, b2, b3]
  {
    assert LowBytes(b3, 0) == [] && LowBytes(b3, 1) == [b3] + [];
    assert LowBytes(b2 + 0x100 * b3, 2) == [b2] + [b3];
    assert LowBytes(b1 + 0x100 * b2 + 0x1_0000 * b3, 3) == [b1] + [b2, b3];
    assert w / 0x100 == b1 + 0x100 * b2 + 0x1_0000 * b3;
  }

  /** The digest of "abc", as section A.5 of RFC 1321 has it. */
  lemma DigestOfAbc()
    ensures Digest(ABC) == [0x90, 0x01, 0x50, 0x98, 0x3c, 0xd2, 0x4f, 0xb0, 0xd6, 0x96, 0x3f, 0x7d, 0x28, 0xe1, 0x7f, 0x72]
  {
    hide Steps, Words, Padded, AbcWords, LowBytes;
    var p := Padded(ABC);
    AbcIsPadded();
    AllStages(Words(p));
    OneBlock(p);
    WordBytes(0x98500190, 0x90, 0x01, 0x50, 0x98);
    WordBytes(0xb04fd23c, 0x3c, 0xd2, 0x4f, 0xb0);
    WordBytes(0x7d3f96d6, 0xd6, 0x96, 0x3f, 0x7d);
    WordBytes(0x727fe128, 0x28, 0xe1, 0x7f, 0x72);
  }

  lemma OneBlock(p: seq<Byte>)
    requires |p| == 64
    ensures Blocks(p, 1) == Compress(INIT, p)
  {
    hide Compress;
    assert p[0..64] == p;
    assert Blocks(p, 0) == INIT;
  }
}
