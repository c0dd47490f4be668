/** The digest computed piece by piece: the block function as it is optimised, and a context
    that is updated in place with whatever arrives. Words are stored low byte first. */
module Md5 {
  import opened Bytes
  import opened Md5Spec

  // --------------------------------------------------- the block function

  function F1Bits(x: bv32, y: bv32, z: bv32): bv32 { z ^ (x & (y ^ z)) }

  function F1(x: Word, y: Word, z: Word): Word { Value(F1Bits(Bits(x), Bits(y), Bits(z))) }

  function F2(x: Word, y: Word, z: Word): Word { F1(z, x, y) }

  function F3Bits(x: bv32, y: bv32, z: bv32): bv32 { x ^ y ^ z }

  function F3(x: Word, y: Word, z: Word): Word { Value(F3Bits(Bits(x), Bits(y), Bits(z))) }

  function F4Bits(x: bv32, y: bv32, z: bv32): bv32 { y ^ (x | !z) }

  function F4(x: Word, y: Word, z: Word): Word { Value(F4Bits(Bits(x), Bits(y), Bits(z))) }

  function Optimised(round: nat, x: Word, y: Word, z: Word): Word {
    if round == 0 then F1(x, y, z) else if round == 1 then F2(x, y, z) else if round == 2 then F3(x, y, z) else F4(x, y, z)
  }

  /** The functions of the four rounds, saving an operation in the first two. */
  lemma OptimisedIsAuxiliary(round: nat, x: Word, y: Word, z: Word)
    ensures Optimised(round, x, y, z) == Auxiliary(round, x, y, z)
  {
    hide Bits, Value, FBits, GBits, HBits, IBits, F1Bits, F3Bits, F4Bits;
    Select(Bits(x), Bits(y), Bits(z));
    Select(Bits(z), Bits(x), Bits(y));
    SelectOther(Bits(x), Bits(y), Bits(z));
  }

  lemma Select(x: bv32, y: bv32, z: bv32)
    ensures F1Bits(x, y, z) == FBits(x, y, z) == GBits(y, z, x)
  {
    BitsOfSelect(x, y, z);
  }

  lemma BitsOfSelect(x: bv32, y: bv32, z: bv32)
    ensures z ^ (x & (y ^ z)) == (x & y) | (!x & z) == (y & x) | (z & !x)
  {
  }

  lemma SelectOther(x: bv32, y: bv32, z: bv32)
    ensures F3Bits(x, y, z) == HBits(x, y, z) && F4Bits(x, y, z) == IBits(x, y, z)
  {
  }

  /** `x | y`, digit by digit. */
  function Or(x: nat, y: nat): nat
    decreases x + y
  {
    if x == 0 && y == 0 then 0 else 2 * Or(x / 2, y / 2) + if x % 2 == 1 || y % 2 == 1 then 1 else 0
  }

  /** Where the digits of one end those of the other begin: they make up the sum. */
  lemma {:induction false} OrIsSum(h: nat, y: nat, s: nat)
    requires y < Power2(s)
    ensures Or(h * Power2(s), y) == h * Power2(s) + y
  {
    if s > 0 {
      var x := h * Power2(s - 1);
      Doubled(h, s);
      OrIsSum(h, y / 2, s - 1);
      assert y == 2 * (y / 2) + y % 2;
    } else {
      OrNothing(h);
    }
  }

  lemma Doubled(h: nat, s: nat)
    requires s > 0
    ensures h * Power2(s) == 2 * (h * Power2(s - 1))
  {
  }

  lemma {:induction false} OrNothing(x: nat)
    ensures Or(x, 0) == x
    decreases x
  {
    if x > 0 {
      OrNothing(x / 2);
    }
  }

  /** `w << s | w >> (32 - s)` */
  function Rotated(w: Word, s: nat): (r: Word)
    requires 0 < s < 32
    ensures r == RotateLeft(w, s)
  {
    OrRotates(w, s);
    Or(ShiftLeft(w, s), ShiftRight(w, 32 - s))
  }

  lemma OrRotates(w: Word, s: nat)
    requires 0 < s < 32
    ensures Or(ShiftLeft(w, s), ShiftRight(w, 32 - s)) == RotateLeft(w, s)
  {
    hide Or, Power2, ShiftLeft, ShiftRight;
    Rotation(w, s);
    OrIsSum(w % Power2(32 - s), ShiftRight(w, 32 - s), s);
  }

  /** One line of the block function: `w` is the word that changes. */
  function Stepped(f: Word, w: Word, x: Word, data: Word, s: nat): Word
    requires 0 < s < 32
  {
    Add(Rotated(Add(w, Add(f, data)), s), x)
  }

  lemma SteppedIsMixed(round: nat, w: Word, x: Word, y: Word, z: Word, data: Word, t: Word, s: nat)
    requires 0 < s < 32
    ensures Stepped(Optimised(round, x, y, z), w, x, Add(data, t), s) == Mixed(round, w, x, y, z, data, t, s)
  {
    hide Optimised, Auxiliary, RotateLeft, Add;
    OptimisedIsAuxiliary(round, x, y, z);
    AddRegroups(w, Auxiliary(round, x, y, z), data, t);
    AddCommutes(RotateLeft(Add(Add(Add(w, Auxiliary(round, x, y, z)), data), t), s), x);
  }

  lemma AddRegroups(w: Word, f: Word, data: Word, t: Word)
    ensures Add(w, Add(f, Add(data, t))) == Add(Add(Add(w, f), data), t)
  {
    hide Add;
    AddAssociates(f, data, t);
    AddAssociates(w, Add(f, data), t);
    AddAssociates(w, f, data);
  }

  lemma AddAssociates(x: Word, y: Word, z: Word)
    ensures Add(x, Add(y, z)) == Add(Add(x, y), z)
  {
    var left, right := (x + y) / TWO32, (y + z) / TWO32;
    assert x + y == TWO32 * left + Add(x, y) && y + z == TWO32 * right + Add(y, z);
  }

  lemma AddCommutes(x: Word, y: Word)
    ensures Add(x, y) == Add(y, x)
  {
  }

  /** Line `i` of the block function, for the words in the order in which it names them. */
  function Line(i: nat, w: Word, x: Word, y: Word, z: Word, data: seq<Word>): Word
    requires |data| == 16
  {
    Stepped(Optimised(i / 16, x, y, z), w, x, Add(data[WordOf(i)], Sine(i)), RotationOf(i))
  }

  lemma LineIsStep(st: State, x: seq<Word>, i: nat)
    requires |x| == 16 && i < 64
    ensures Step(st, x, i) == State(st.d, Line(i, st.a, st.b, st.c, st.d, x), st.b, st.c)
  {
    hide Stepped, Optimised, Mixed, Sine, RotationOf, WordOf, Add;
    SteppedIsMixed(i / 16, st.a, st.b, st.c, st.d, x[WordOf(i)], Sine(i), RotationOf(i));
  }

  /** Four lines in a row have changed the words a, d, c and b, in that order. */
  predicate FourHave(s: State, t: State, x: seq<Word>, i: nat)
    requires |x| == 16
  {
    hide Line;
    && t.a == Line(i, s.a, s.b, s.c, s.d, x)
    && t.d == Line(i + 1, s.d, t.a, s.b, s.c, x)
    && t.c == Line(i + 2, s.c, t.d, t.a, s.b, x)
    && t.b == Line(i + 3, s.b, t.c, t.d, t.a, x)
  }

  /** They are four steps. */
  lemma FourLines(st: State, x: seq<Word>, i: nat, s: State, t: State)
    requires |x| == 16 && i % 4 == 0 && i < 64 && s == Steps(st, x, i)
    requires FourHave(s, t, x, i)
    ensures t == Steps(st, x, i + 4)
  {
    hide Line, Step;
    var s1 := Step(s, x, i);
    var s2 := Step(s1, x, i + 1);
    var s3 := Step(s2, x, i + 2);
    assert Steps(st, x, i + 1) == s1 && Steps(st, x, i + 2) == s2 && Steps(st, x, i + 3) == s3;
    LineIsStep(s, x, i);
    LineIsStep(s1, x, i + 1);
    LineIsStep(s2, x, i + 2);
    LineIsStep(s3, x, i + 3);
  }

  method Round1(a0: Word, b0: Word, c0: Word, d0: Word, x: seq<Word>, ghost st: State) returns (a: Word, b: Word, c: Word, d: Word)
    requires |x| == 16 && State(a0, b0, c0, d0) == Steps(st, x, 0)
    ensures State(a, b, c, d) == Steps(st, x, 16)
  {
    hide Add, Stepped, F1, F2, F3, F4, Steps, Step, Rotated, RotateLeft;
    a, b, c, d := a0, b0, c0, d0;
    ghost var s := State(a, b, c, d);
    a := Stepped(F1(b, c, d), a, b, Add(x[0], 0xd76aa478), 7);
    d := Stepped(F1(a, b, c), d, a, Add(x[1], 0xe8c7b756), 12);
    c := Stepped(F1(d, a, b), c, d, Add(x[2], 0x242070db), 17);
    b := Stepped(F1(c, d, a), b, c, Add(x[3], 0xc1bdceee), 22);
    FourLines(st, x, 0, s, State(a, b, c, d));
    s := State(a, b, c, d);
    a := Stepped(F1(b, c, d), a, b, Add(x[4], 0xf57c0faf), 7);
    d := Stepped(F1(a, b, c), d, a, Add(x[5], 0x4787c62a), 12);
    c := Stepped(F1(d, a, b), c, d, Add(x[6], 0xa8304613), 17);
    b := Stepped(F1(c, d, a), b, c, Add(x[7], 0xfd469501), 22);
    FourLines(st, x, 4, s, State(a, b, c, d));
    s := State(a, b, c, d);
    a := Stepped(F1(b, c, d), a, b, Add(x[8], 0x698098d8), 7);
    d := Stepped(F1(a, b, c), d, a, Add(x[9], 0x8b44f7af), 12);
    c := Stepped(F1(d, a, b), c, d, Add(x[10], 0xffff5bb1), 17);
    b := Stepped(F1(c, d, a), b, c, Add(x[11], 0x895cd7be), 22);
    FourLines(st, x, 8, s, State(a, b, c, d));
    s := State(a, b, c, d);
    a := Stepped(F1(b, c, d), a, b, Add(x[12], 0x6b901122), 7);
    d := Stepped(F1(a, b, c), d, a, Add(x[13], 0xfd987193), 12);
    c := Stepped(F1(d, a, b), c, d, Add(x[14], 0xa679438e), 17);
    b := Stepped(F1(c, d, a), b, c, Add(x[15], 0x49b40821), 22);
    FourLines(st, x, 12, s, State(a, b, c, d));
  }

  method Round2(a0: Word, b0: Word, c0: Word, d0: Word, x: seq<Word>, ghost st: State) returns (a: Word, b: Word, c: Word, d: Word)
    requires |x| == 16 && State(a0, b0, c0, d0) == Steps(st, x, 16)
    ensures State(a, b, c, d) == Steps(st, x, 32)
  {
    hide Add, Stepped, F1, F2, F3, F4, Steps, Step, Rotated, RotateLeft;
    a, b, c, d := a0, b0, c0, d0;
    ghost var s := State(a, b, c, d);
    a := Stepped(F2(b, c, d), a, b, Add(x[1], 0xf61e2562), 5);
    d := Stepped(F2(a, b, c), d, a, Add(x[6], 0xc040b340), 9);
    c := Stepped(F2(d, a, b), c, d, Add(x[11], 0x265e5a51), 14);
    b := Stepped(F2(c, d, a), b, c, Add(x[0], 0xe9b6c7aa), 20);
    FourLines(st, x, 16, s, State(a, b, c, d));
    s := State(a, b, c, d);
    a := Stepped(F2(b, c, d), a, b, Add(x[5], 0xd62f105d), 5);
    d := Stepped(F2(a, b, c), d, a, Add(x[10], 0x02441453), 9);
    c := Stepped(F2(d, a, b), c, d, Add(x[15], 0xd8a1e681), 14);
    b := Stepped(F2(c, d, a), b, c, Add(x[4], 0xe7d3fbc8), 20);
    FourLines(st, x, 20, s, State(a, b, c, d));
    s := State(a, b, c, d);
    a := Stepped(F2(b, c, d), a, b, Add(x[9], 0x21e1cde6), 5);
    d := Stepped(F2(a, b, c), d, a, Add(x[14], 0xc33707d6), 9);
    c := Stepped(F2(d, a, b), c, d, Add(x[3], 0xf4d50d87), 14);
    b := Stepped(F2(c, d, a), b, c, Add(x[8], 0x455a14ed), 20);
    FourLines(st, x, 24, s, State(a, b, c, d));
    s := State(a, b, c, d);
    a := Stepped(F2(b, c, d), a, b, Add(x[13], 0xa9e3e905), 5);
    d := Stepped(F2(a, b, c), d, a, Add(x[2], 0xfcefa3f8), 9);
    c := Stepped(F2(d, a, b), c, d, Add(x[7], 0x676f02d9), 14);
    b := Stepped(F2(c, d, a), b, c, Add(x[12], 0x8d2a4c8a), 20);
    FourLines(st, x, 28, s, State(a, b, c, d));
  }

  method Round3(a0: Word, b0: Word, c0: Word, d0: Word, x: seq<Word>, ghost st: State) returns (a: Word, b: Word, c: Word, d: Word)
    requires |x| == 16 && State(a0, b0, c0, d0) == Steps(st, x, 32)
    ensures State(a, b, c, d) == Steps(st, x, 48)
  {
    hide Add, Stepped, F1, F2, F3, F4, Steps, Step, Rotated, RotateLeft;
    a, b, c, d := a0, b0, c0, d0;
    ghost var s := State(a, b, c, d);
    a := Stepped(F3(b, c, d), a, b, Add(x[5], 0xfffa3942), 4);
    d := Stepped(F3(a, b, c), d, a, Add(x[8], 0x8771f681), 11);
    c := Stepped(F3(d, a, b), c, d, Add(x[11], 0x6d9d6122), 16);
    b := Stepped(F3(c, d, a), b, c, Add(x[14], 0xfde5380c), 23);
    FourLines(st, x, 32, s, State(a, b, c, d));
    s := State(a, b, c, d);
    a := Stepped(F3(b, c, d), a, b, Add(x[1], 0xa4beea44), 4);
    d := Stepped(F3(a, b, c), d, a, Add(x[4], 0x4bdecfa9), 11);
    c := Stepped(F3(d, a, b), c, d, Add(x[7], 0xf6bb4b60), 16);
    b := Stepped(F3(c, d, a), b, c, Add(x[10], 0xbebfbc70), 23);
    FourLines(st, x, 36, s, State(a, b, c, d));
    s := State(a, b, c, d);
    a := Stepped(F3(b, c, d), a, b, Add(x[13], 0x289b7ec6), 4);
    d := Stepped(F3(a, b, c), d, a, Add(x[0], 0xeaa127fa), 11);
    c := Stepped(F3(d, a, b), c, d, Add(x[3], 0xd4ef3085), 16);
    b := Stepped(F3(c, d, a), b, c, Add(x[6], 0x04881d05), 23);
    FourLines(st, x, 40, s, State(a, b, c, d));
    s := State(a, b, c, d);
    a := Stepped(F3(b, c, d), a, b, Add(x[9], 0xd9d4d039), 4);
    d := Stepped(F3(a, b, c), d, a, Add(x[12], 0xe6db99e5), 11);
    c := Stepped(F3(d, a, b), c, d, Add(x[15], 0x1fa27cf8), 16);
    b := Stepped(F3(c, d, a), b, c, Add(x[2], 0xc4ac5665), 23);
    FourLines(st, x, 44, s, State(a, b, c, d));
  }

  method Round4(a0: Word, b0: Word, c0: Word, d0: Word, x: seq<Word>, ghost st: State) returns (a: Word, b: Word, c: Word, d: Word)
    requires |x| == 16 && State(a0, b0, c0, d0) == Steps(st, x, 48)
    ensures State(a, b, c, d) == Steps(st, x, 64)
  {
    hide Add, Stepped, F1, F2, F3, F4, Steps, Step, Rotated, RotateLeft;
    a, b, c, d := a0, b0, c0, d0;
    ghost var s := State(a, b, c, d);
    a := Stepped(F4(b, c, d), a, b, Add(x[0], 0xf4292244), 6);
    d := Stepped(F4(a, b, c), d, a, Add(x[7], 0x432aff97), 10);
    c := Stepped(F4(d, a, b), c, d, Add(x[14], 0xab9423a7), 15);
    b := Stepped(F4(c, d, a), b, c, Add(x[5], 0xfc93a039), 21);
    FourLines(st, x, 48, s, State(a, b, c, d));
    s := State(a, b, c, d);
    a := Stepped(F4(b, c, d), a, b, Add(x[12], 0x655b59c3), 6);
    d := Stepped(F4(a, b, c), d, a, Add(x[3], 0x8f0ccc92), 10);
    c := Stepped(F4(d, a, b), c, d, Add(x[10], 0xffeff47d), 15);
    b := Stepped(F4(c, d, a), b, c, Add(x[1], 0x85845dd1), 21);
    FourLines(st, x, 52, s, State(a, b, c, d));
    s := State(a, b, c, d);
    a := Stepped(F4(b, c, d), a, b, Add(x[8], 0x6fa87e4f), 6);
    d := Stepped(F4(a, b, c), d, a, Add(x[15], 0xfe2ce6e0), 10);
    c := Stepped(F4(d, a, b), c, d, Add(x[6], 0xa3014314), 15);
    b := Stepped(F4(c, d, a), b, c, Add(x[13], 0x4e0811a1), 21);
    FourLines(st, x, 56, s, State(a, b, c, d));
    s := State(a, b, c, d);
    a := Stepped(F4(b, c, d), a, b, Add(x[4], 0xf7537e82), 6);
    d := Stepped(F4(a, b, c), d, a, Add(x[11], 0xbd3af235), 10);
    c := Stepped(F4(d, a, b), c, d, Add(x[2], 0x2ad7d2bb), 15);
    b := Stepped(F4(c, d, a), b, c, Add(x[9], 0xeb86d391), 21);
    FourLines(st, x, 60, s, State(a, b, c, d));
  }

  function StateOf(buf: seq<Word>): State
    requires |buf| == 4
  {
    State(buf[0], buf[1], buf[2], buf[3])
  }

  lemma NoSteps(st: State, x: seq<Word>)
    requires |x| == 16
    ensures Steps(st, x, 0) == st
  {
  }

  method Transform(buf: array<Word>, x: seq<Word>)
    requires buf.Length == 4 && |x| == 16
    modifies buf
    ensures var st := StateOf(old(buf[..]));
      var r := Steps(st, x, 64);
      StateOf(buf[..]) == State(Add(st.a, r.a), Add(st.b, r.b), Add(st.c, r.c), Add(st.d, r.d))
  {
    hide Add, Steps;
    ghost var st := StateOf(buf[..]);
    var a, b, c, d := buf[0], buf[1], buf[2], buf[3];
    NoSteps(st, x);
    a, b, c, d := Round1(a, b, c, d, x, st);
    a, b, c, d := Round2(a, b, c, d, x, st);
    a, b, c, d := Round3(a, b, c, d, x, st);
    a, b, c, d := Round4(a, b, c, d, x, st);
    buf[0] := Add(buf[0], a);
    buf[1] := Add(buf[1], b);
    buf[2] := Add(buf[2], c);
    buf[3] := Add(buf[3], d);
  }

  // --------------------------------------------------- the context

  /** The low half of the bit count, and the high half with the carry. */
  function LowBits(low: Word, len: Word): Word {
    (low + 8 * len % TWO32) % TWO32
  }

  function HighBits(low: Word, high: Word, len: Word): Word {
    var carried := if LowBits(low, len) < low then (high + 1) % TWO32 else high;
    (carried + len / 0x2000_0000) % TWO32
  }

  /** Two words count modulo 2^64. */
  lemma BitsAdd(low: Word, high: Word, len: Word)
    ensures LowBits(low, len) + TWO32 * HighBits(low, high, len) == (low + TWO32 * high + 8 * len) % TWO64
  {
    var p, q := 8 * len % TWO32, len / 0x2000_0000;
    LengthSplits(len);
    LowCarries(low, p);
    var l, carry := (low + p) % TWO32, (low + p) / TWO32;
    HighCarries(l, high + carry + q);
    HighIsSum(high, carry, q);
  }

  lemma LengthSplits(len: Word)
    ensures 8 * len == TWO32 * (len / 0x2000_0000) + 8 * len % TWO32
  {
  }

  lemma HighIsSum(high: nat, carry: nat, q: nat)
    ensures (high + carry + q) % TWO32 == ((high + carry) % TWO32 + q) % TWO32
  {
    var over := (high + carry) / TWO32;
    assert high + carry + q == (high + carry) % TWO32 + q + TWO32 * over;
  }

  lemma LowCarries(low: Word, p: Word)
    ensures (low + p) / TWO32 == if (low + p) % TWO32 < low then 1 else 0
  {
  }

  lemma HighCarries(low: Word, high: nat)
    ensures (low + TWO32 * high) % TWO64 == low + TWO32 * (high % TWO32)
  {
    assert low + TWO32 * high == low + TWO32 * (high % TWO32) + TWO64 * (high / TWO32);
  }

  /** Bytes waiting for a whole block, as the bit count tells. */
  lemma BitsTellTheRest(low: Word, high: Word, n: nat)
    requires low + TWO32 * high == 8 * n % TWO64
    ensures low / 8 % 64 == n % 64
  {
    var q := 8 * n / TWO64;
    assert 8 * n == TWO64 * q + (low + TWO32 * high);
    RestOfBits(low, high, q, n);
  }

  lemma RestOfBits(low: nat, high: nat, q: nat, n: nat)
    requires 8 * n == 0x1_0000_0000_0000_0000 * q + (low + 0x1_0000_0000 * high)
    ensures low / 8 % 64 == n % 64
  {
    var k := 0x80_0000 * high + 0x80_0000_0000_0000 * q;
    assert n == low / 8 + 64 * k;
  }

  class Md5Context {
    const buf: array<Word>
    const bits: array<Word>
    const input: array<Byte>
    ghost var message: seq<Byte>

    ghost predicate Shaped()
      reads this
    {
      buf.Length == 4 && bits.Length == 2 && input.Length == 64 && buf != bits
    }

    /** The words hash the whole blocks of what arrived, the rest of it waits in `input`, and
        the bits are counted modulo 2^64. */
    ghost predicate Valid()
      reads this, buf, bits, input
    {
      && Shaped()
      && bits[0] + TWO32 * bits[1] == 8 * |message| % TWO64
      && StateOf(buf[..]) == Blocks(message, |message| / 64)
      && input[..|message| % 64] == message[|message| - |message| % 64..]
    }

    constructor ()
      ensures Valid() && message == [] && fresh(buf) && fresh(bits) && fresh(input)
    {
      buf, bits, input := new Word[4], new Word[2], new Byte[64];
      new;
      Init();
    }

    method Init()
      requires Shaped()
      modifies this, buf, bits
      ensures Valid() && message == []
    {
      buf[0] := 0x67452301;
      buf[1] := 0xefcdab89;
      buf[2] := 0x98badcfe;
      buf[3] := 0x10325476;
      bits[0] := 0;
      bits[1] := 0;
      message := [];
    }

    method CountBits(len: Word)
      requires Shaped()
      modifies bits
      ensures bits[0] == LowBits(old(bits[0]), len) && bits[1] == HighBits(old(bits[0]), old(bits[1]), len)
    {
      var t := bits[0];
      bits[0] := (t + 8 * len % TWO32) % TWO32;
      if bits[0] < t {
        bits[1] := (bits[1] + 1) % TWO32;
      }
      bits[1] := (bits[1] + len / 0x2000_0000) % TWO32;
    }

    method CopyIn(at: nat, data: seq<Byte>, from: nat, n: nat)
      requires Shaped() && at + n <= 64 && from + n <= |data|
      modifies input
      ensures input[..] == old(input[..at]) + data[from..from + n] + old(input[at + n..])
    {
      CopyInto(input, at, data[from..from + n]);
    }

    /** Hashes the block in `input`, which is the next one of the message. */
    method Absorb(ghost m: seq<Byte>, ghost n: nat)
      requires Shaped() && 64 * n + 64 <= |m|
      requires input[..] == m[64 * n..64 * n + 64] && StateOf(buf[..]) == Blocks(m, n)
      modifies buf
      ensures StateOf(buf[..]) == Blocks(m, n + 1)
    {
      hide Steps, Words, Add;
      Transform(buf, Words(input[..]));
    }

    /** Takes in more of the message. */
    method Update(data: seq<Byte>)
      requires Valid() && |data| < TWO32
      modifies this, buf, bits, input
      ensures Valid() && message == old(message) + data
    {
      hide Blocks, StateOf, LowBits, HighBits;
      ghost var n, q := |message| / 64, |message| % 64;
      BitsTellTheRest(bits[0], bits[1], |message|);
      BitsAdd(bits[0], bits[1], |data|);
      BitsOfSum(|message|, |data|);
      BlocksOfPrefix(message, data, n);
      var t := bits[0] / 8 % 64;
      CountBits(|data|);
      Take(t, data, message, n);
      message := message + data;
    }

    method Take(t: nat, data: seq<Byte>, ghost m: seq<Byte>, ghost n: nat)
      requires Shaped() && |m| == 64 * n + t && t < 64
      requires StateOf(buf[..]) == Blocks(m + data, n) && input[..t] == m[64 * n..]
      modifies buf, input
      ensures var whole := m + data;
        && StateOf(buf[..]) == Blocks(whole, |whole| / 64)
        && input[..|whole| % 64] == whole[|whole| - |whole| % 64..]
    {
      hide Blocks, StateOf;
      ghost var whole := m + data;
      var pos := 0;
      if t > 0 {
        if |data| < 64 - t {
          CopyIn(t, data, 0, |data|);
          assert |whole| / 64 == n && |whole| % 64 == t + |data|;
          return;
        }
        CopyIn(t, data, 0, 64 - t);
        assert whole[64 * n..64 * n + 64] == m[64 * n..] + data[..64 - t];
        Absorb(whole, n);
        pos := 64 - t;
      }
      assert whole[|m|..] == data;
      TakeBlocks(pos, data, whole, |m|);
    }

    static lemma BitsOfSum(n: nat, len: nat)
      ensures (8 * n % TWO64 + 8 * len) % TWO64 == 8 * (n + len) % TWO64
    {
      var q := 8 * n / TWO64;
      assert 8 * (n + len) == 8 * n % TWO64 + 8 * len + TWO64 * q;
    }

    /** Hashes whole blocks straight from the data and keeps the rest for later. */
    method TakeBlocks(from: nat, data: seq<Byte>, ghost whole: seq<Byte>, ghost start: nat)
      requires Shaped() && from <= |data| && |whole| == start + |data| && whole[start..] == data
      requires (start + from) % 64 == 0 && StateOf(buf[..]) == Blocks(whole, (start + from) / 64)
      modifies buf, input
      ensures StateOf(buf[..]) == Blocks(whole, |whole| / 64)
      ensures input[..|whole| % 64] == whole[|whole| - |whole| % 64..]
    {
      hide Blocks, StateOf;
      var pos := from;
      while |data| - pos >= 64
        invariant pos <= |data| && (start + pos) % 64 == 0
        invariant StateOf(buf[..]) == Blocks(whole, (start + pos) / 64)
      {
        CopyIn(0, data, pos, 64);
        ghost var n := (start + pos) / 64;
        assert data[pos..pos + 64] == whole[start + pos..start + pos + 64];
        Absorb(whole, n);
        pos := pos + 64;
      }
      CopyIn(0, data, pos, |data| - pos);
    }

    /** Pads what is left and gives out the digest. Only one word of the context is wiped. */
    method Final() returns (digest: seq<Byte>)
      requires Valid()
      modifies buf, input
      ensures digest == Digest(message)
      ensures buf[0] == 0 && LowBytes(buf[1], 4) + LowBytes(buf[2], 4) + LowBytes(buf[3], 4) == digest[4..]
    {
      hide Blocks, StateOf, LowBytes, Padded, Output;
      BitsTellTheRest(bits[0], bits[1], |message|);
      LowBytesOfHalves(bits[0], bits[1]);
      var count := bits[0] / 8 % 64;
      Pad(count, |message| / 64);
      digest := Output(StateOf(buf[..]));
      WordsOfState(buf[..]);
      buf[0] := 0;
    }

    method Pad(q: nat, ghost n: nat)
      requires Shaped() && |message| == 64 * n + q && q < 64
      requires StateOf(buf[..]) == Blocks(message, n) && input[..q] == message[64 * n..]
      requires LowBytes(bits[0], 4) + LowBytes(bits[1], 4) == LowBytes(8 * |message| % TWO64, 8)
      modifies buf, input
      ensures StateOf(buf[..]) == Blocks(Padded(message), |Padded(message)| / 64)
    {
      hide Blocks, StateOf, LowBytes, Padded, Zeros;
      CopyIn(q, [0x80], 0, 1);
      var count := 64 - 1 - q;
      ghost var start := message[64 * n..] + [0x80];
      if count < 8 {
        PaddedTwo(message, n, q);
        CopyIn(64 - count, Zeros(count), 0, count);
        NextBlock(message, n, start + Zeros(count), Zeros(56) + LowBytes(8 * |message| % TWO64, 8));
        Absorb(Padded(message), n);
        CopyIn(0, Zeros(56), 0, 56);
        AppendCount(Zeros(56), n + 1);
      } else {
        PadOne(q, n, start);
      }
    }

    method PadOne(q: nat, ghost n: nat, ghost start: seq<Byte>)
      requires Shaped() && |message| == 64 * n + q && q <= 55
      requires StateOf(buf[..]) == Blocks(message, n) && start == message[64 * n..] + [0x80] && input[..q + 1] == start
      requires LowBytes(bits[0], 4) + LowBytes(bits[1], 4) == LowBytes(8 * |message| % TWO64, 8)
      modifies buf, input
      ensures StateOf(buf[..]) == Blocks(Padded(message), |Padded(message)| / 64)
    {
      hide Blocks, StateOf, LowBytes, Padded, Zeros;
      ghost var count := LowBytes(8 * |message| % TWO64, 8);
      PaddedOne(message, n, q);
      CopyIn(q + 1, Zeros(55 - q), 0, 55 - q);
      ghost var block := start + Zeros(55 - q) + count;
      NextBlock(message, n, block, []);
      assert Padded(message) == message[..64 * n] + block + [];
      AppendCount(start + Zeros(55 - q), n);
    }

    /** The last block, which ends in the bit count. */
    method AppendCount(ghost start: seq<Byte>, ghost n: nat)
      requires Shaped() && |start| == 56 && input[..56] == start
      requires LowBytes(bits[0], 4) + LowBytes(bits[1], 4) == LowBytes(8 * |message| % TWO64, 8)
      requires |Padded(message)| == 64 * n + 64 && StateOf(buf[..]) == Blocks(Padded(message), n)
      requires Padded(message)[64 * n..] == start + LowBytes(8 * |message| % TWO64, 8)
      modifies buf, input
      ensures StateOf(buf[..]) == Blocks(Padded(message), |Padded(message)| / 64)
    {
      hide Blocks, StateOf, LowBytes, Padded;
      CopyIn(56, LowBytes(bits[0], 4), 0, 4);
      CopyIn(60, LowBytes(bits[1], 4), 0, 4);
      assert input[..] == start + LowBytes(bits[0], 4) + LowBytes(bits[1], 4);
      assert start + LowBytes(bits[0], 4) + LowBytes(bits[1], 4) == start + (LowBytes(bits[0], 4) + LowBytes(bits[1], 4));
      Absorb(Padded(message), n);
      assert |Padded(message)| / 64 == n + 1;
    }

    static lemma NextBlock(m: seq<Byte>, n: nat, block: seq<Byte>, rest: seq<Byte>)
      requires 64 * n <= |m| && |block| == 64
      ensures var p := m[..64 * n] + block + rest;
        Blocks(p, n) == Blocks(m, n) && p[64 * n..64 * n + 64] == block && p[64 * n + 64..] == rest
    {
      hide Blocks;
      var head := m[..64 * n];
      assert m == head + m[64 * n..] && head + block + rest == head + (block + rest);
      BlocksOfPrefix(head, m[64 * n..], n);
      BlocksOfPrefix(head, block + rest, n);
    }

    static lemma WordsOfState(buf: seq<Word>)
      requires |buf| == 4
      ensures Output(StateOf(buf))[4..] == LowBytes(buf[1], 4) + LowBytes(buf[2], 4) + LowBytes(buf[3], 4)
    {
    }
  }

  function Joined(parts: seq<seq<Byte>>): seq<Byte> {
    if parts == [] then [] else Joined(parts[..|parts| - 1]) + parts[|parts| - 1]
  }

  /** However a message is cut into pieces, the digest is that of the whole. */
  method DigestOf(parts: seq<seq<Byte>>) returns (digest: seq<Byte>)
    requires forall i :: 0 <= i < |parts| ==> |parts[i]| < TWO32
    ensures digest == Digest(Joined(parts))
  {
    hide Blocks, StateOf, Digest, Joined;
    var context := new Md5Context();
    var i := 0;
    JoinedStarts(parts);
    while i < |parts|
      invariant i <= |parts| && context.Valid() && context.message == Joined(parts[..i])
      invariant fresh(context) && fresh(context.buf) && fresh(context.bits) && fresh(context.input)
    {
      JoinedNext(parts, i);
      context.Update(parts[i]);
      i := i + 1;
    }
    assert parts[..i] == parts;
    digest := context.Final();
  }

  lemma JoinedStarts(parts: seq<seq<Byte>>)
    ensures Joined(parts[..0]) == []
  {
  }

  lemma JoinedNext(parts: seq<seq<Byte>>, i: nat)
    requires i < |parts|
    ensures Joined(parts[..i + 1]) == Joined(parts[..i]) + parts[i]
  {
    assert parts[..i + 1][..i] == parts[..i];
  }
}
