/** The base 64 encoding of section 4 of RFC 4648: an encoder, and a decoder that is lenient
    about some characters outside the alphabet and not about others. */
module Base64 {
  import opened Wrappers
  import opened Bytes

  const FILL := '='
  const NONE := -1

  function Letter(k: int): char
    requires 0 <= k < 64
  {
    if k < 26 then 'A' + k as char
    else if k < 52 then 'a' + (k - 26) as char
    else if k < 62 then '0' + (k - 52) as char
    else if k == 62 then '+' else '/'
  }

  /** The index of a letter, or `NONE`. */
  function Value(c: char): (v: int)
    ensures v == NONE || 0 <= v < 64
  {
    if 'A' <= c <= 'Z' then c as int - 'A' as int
    else if 'a' <= c <= 'z' then 26 + c as int - 'a' as int
    else if '0' <= c <= '9' then 52 + c as int - '0' as int
    else if c == '+' then 62 else if c == '/' then 63 else NONE
  }

  /** The two tables are inverse to each other, and the fill character is in neither. */
  lemma TablesAgree(k: int, c: char)
    requires 0 <= k < 64
    ensures Value(Letter(k)) == k && Letter(k) != FILL
    ensures Value(c) != NONE ==> Letter(Value(c)) == c
  {
  }

  const UPPER := "ABCDEFGHIJKLMNOPQRSTUVWXYZ"
  const LOWER := "abcdefghijklmnopqrstuvwxyz"
  const DIGITS := "0123456789"

  /** Table 1 of RFC 4648. */
  const ALPHABET := UPPER + LOWER + DIGITS + "+/"

  function Digit(k: int): char
    requires 0 <= k < 64
  {
    ALPHABET[k]
  }

  /** The letters are those of the alphabet, in its order. */
  lemma LettersAre(k: int)
    requires 0 <= k < 64
    ensures Letter(k) == Digit(k)
  {
    if k < 26 {
      assert UPPER[k] == 'A' + k as char;
    } else if k < 52 {
      assert LOWER[k - 26] == 'a' + (k - 26) as char;
    } else if k < 62 {
      assert DIGITS[k - 52] == '0' + (k - 52) as char;
    }
  }

  // ---------------------------------------------------------------- encoding

  /** Four letters for three bytes; one or two at the end are filled up. */
  function Quad(x: seq<Byte>, i: nat): (s: string)
    requires i < |x|
    ensures |s| == 4
  {
    var b0: int, b1: int, b2: int := x[i], if i + 1 < |x| then x[i + 1] else 0, if i + 2 < |x| then x[i + 2] else 0;
    [Letter(b0 / 4), Letter(b0 % 4 * 16 + b1 / 16),
     if i + 1 < |x| then Letter(b1 % 16 * 4 + b2 / 64) else FILL,
     if i + 2 < |x| then Letter(b2 % 64) else FILL]
  }

  /** The letters stand for the base 64 digits of three bytes taken as one number, the first byte
      and the first digit being the highest; missing bytes are zeros. */
  lemma QuadIsDigits(x: seq<Byte>, i: nat)
    requires i < |x|
    ensures var b0: int, b1: int, b2: int := x[i], if i + 1 < |x| then x[i + 1] else 0, if i + 2 < |x| then x[i + 2] else 0;
      var n := 0x1_0000 * b0 + 0x100 * b1 + b2;
      Quad(x, i) == [Digit(n / 0x4_0000), Digit(n / 0x1000 % 64),
                     if i + 1 < |x| then Digit(n / 64 % 64) else FILL, if i + 2 < |x| then Digit(n % 64) else FILL]
  {
    hide Letter, Digit;
    var b0: int, b1: int, b2: int := x[i], if i + 1 < |x| then x[i + 1] else 0, if i + 2 < |x| then x[i + 2] else 0;
    DigitsOf(b0, b1, b2);
    LettersAre(b0 / 4);
    LettersAre(b0 % 4 * 16 + b1 / 16);
    LettersAre(b1 % 16 * 4 + b2 / 64);
    LettersAre(b2 % 64);
  }

  lemma DigitsOf(b0: Byte, b1: Byte, b2: Byte)
    ensures var n := 0x1_0000 * b0 + 0x100 * b1 + b2;
      && n / 0x4_0000 == b0 / 4 && n / 0x1000 % 64 == b0 % 4 * 16 + b1 / 16
      && n / 64 % 64 == b1 % 16 * 4 + b2 / 64 && n % 64 == b2 % 64
  {
    var h0: int, l0: int, h1: int, l1: int, h2: int, l2: int := b0 / 4, b0 % 4, b1 / 16, b1 % 16, b2 / 64, b2 % 64;
    var n := 0x1_0000 * b0 + 0x100 * b1 + b2;
    assert n == 0x4_0000 * h0 + 0x1_0000 * l0 + 0x1000 * h1 + 0x100 * l1 + 64 * h2 + l2;
    assert n / 0x1000 == 64 * h0 + (16 * l0 + h1);
    assert n / 64 == 64 * (64 * h0 + 16 * l0 + h1) + (4 * l1 + h2);
  }

  function Encoded(x: seq<Byte>, i: nat := 0): (s: string)
    decreases |x| - i
  {
    if i >= |x| then "" else Quad(x, i) + Encoded(x, i + 3)
  }

  /** The encoder as it steps through the bytes. */
  method Encode(data: seq<Byte>) returns (ret: string)
    ensures ret == Encoded(data)
  {
    hide Quad;
    var i := 0;
    ret := "";
    while i < |data|
      invariant ret + Encoded(data, i) == Encoded(data)
      decreases |data| - i
    {
      var quad;
      quad, i := EncodeQuad(data, i);
      ret := ret + quad;
    }
  }

  method EncodeQuad(data: seq<Byte>, from: nat) returns (quad: string, i: nat)
    requires from < |data|
    ensures quad == Quad(data, from) && i == from + 3
  {
    i := from;
    var c: int := data[i] / 4;
    quad := [Letter(c)];
    c := data[i] % 4 * 16;
    i := i + 1;
    if i < |data| {
      c := c + data[i] / 16;
    }
    quad := quad + [Letter(c)];
    if i < |data| {
      c := data[i] % 16 * 4;
      i := i + 1;
      if i < |data| {
        c := c + data[i] / 64;
      }
      quad := quad + [Letter(c)];
    } else {
      i := i + 1;
      quad := quad + [FILL];
    }
    if i < |data| {
      c := data[i] % 64;
      quad := quad + [Letter(c)];
    } else {
      quad := quad + [FILL];
    }
    i := i + 1;
  }

  predicate IsLetter(c: char) { Value(c) != NONE }

  lemma QuadShape(x: seq<Byte>, i: nat)
    requires i < |x|
    ensures var q := Quad(x, i);
      && IsLetter(q[0]) && IsLetter(q[1])
      && (if i + 1 < |x| then IsLetter(q[2]) else q[2] == FILL)
      && (if i + 2 < |x| then IsLetter(q[3]) else q[3] == FILL)
  {
    var b0: int, b1: int, b2: int := x[i], if i + 1 < |x| then x[i + 1] else 0, if i + 2 < |x| then x[i + 2] else 0;
    TablesAgree(b0 / 4, FILL);
    TablesAgree(b0 % 4 * 16 + b1 / 16, FILL);
    TablesAgree(b1 % 16 * 4 + b2 / 64, FILL);
    TablesAgree(b2 % 64, FILL);
  }

  /** Four letters for every three bytes begun, and fill characters only at the end: as many
      as bytes are missing there. */
  lemma {:induction false} EncodedShape(x: seq<Byte>, i: nat := 0)
    requires i <= |x|
    ensures var s, n := Encoded(x, i), |x| - i;
      && |s| == (n + 2) / 3 * 4
      && var fill := if n % 3 == 0 then 0 else 3 - n % 3;
      forall k :: 0 <= k < |s| ==> if k < |s| - fill then IsLetter(s[k]) else s[k] == FILL
    decreases |x| - i
  {
    hide Quad, IsLetter;
    if i < |x| {
      QuadShape(x, i);
      if i + 3 <= |x| {
        EncodedShape(x, i + 3);
        var q, s := Quad(x, i), Encoded(x, i + 3);
        assert Encoded(x, i) == q + s;
        forall k | 0 <= k < 4 + |s| ensures (q + s)[k] == if k < 4 then q[k] else s[k - 4] {
        }
      }
    }
  }

  // ---------------------------------------------------------------- decoding

  /** A run of the decoder. `Overrun`: it reads behind the end of its input. */
  datatype Decoding = Done(bytes: seq<Byte>) | Overrun(bytes: seq<Byte>)

  function Before(bytes: seq<Byte>, d: Decoding): Decoding {
    d.(bytes := bytes + d.bytes)
  }

  /** The next letter from `i` on. */
  function Skip(data: string, i: nat): (j: nat)
    requires i <= |data|
    ensures i <= j <= |data| && (j < |data| ==> IsLetter(data[j]))
    ensures forall k :: i <= k < j ==> !IsLetter(data[k])
    decreases |data| - i
  {
    if i < |data| && !IsLetter(data[i]) then Skip(data, i + 1) else i
  }

  /** The value at a position; the terminator that follows the text has none. */
  function ValueAt(data: string, i: nat): (v: int)
    requires i <= |data|
    ensures v == NONE || 0 <= v < 64
  {
    if i < |data| then Value(data[i]) else NONE
  }

  /** The bytes made of two values each; `NONE` is the number -1, all of whose bits are set. */
  function First(v0: int, v1: int): Byte { v0 % 64 * 4 + v1 / 16 % 4 }
  function Second(v1: int, v2: int): Byte { v1 % 16 * 16 + v2 / 4 % 16 }
  function Third(v2: int, v3: int): Byte
    requires v3 == NONE || 0 <= v3 < 64
  {
    if v3 == NONE then 255 else v2 % 4 * 64 + v3
  }

  datatype Group = More(bytes: seq<Byte>, next: nat) | Last(bytes: seq<Byte>) | Bad

  /** A group of four. In the first and third place the decoder looks for the next letter, in
      the second and fourth it takes what is there. */
  function GroupAt(data: string, i: nat): (g: Group)
    requires i < |data|
    ensures g.More? ==> i < g.next
  {
    var j := Skip(data, i);
    if j == |data| then Bad
    else
      var v0, v1 := ValueAt(data, j), ValueAt(data, j + 1);
      if j + 2 >= |data| || data[j + 2] == FILL then Last([First(v0, v1)])
      else
        var k := Skip(data, j + 2);
        var v2 := ValueAt(data, k);
        if k + 1 >= |data| || data[k + 1] == FILL then Last([First(v0, v1), Second(v1, v2)])
        else More([First(v0, v1), Second(v1, v2), Third(v2, ValueAt(data, k + 1))], k + 2)
  }

  function DecodedFrom(data: string, i: nat): (r: Decoding)
    decreases |data| - i
  {
    if i >= |data| then Done([])
    else
      match GroupAt(data, i)
      case Bad => Overrun([])
      case Last(bytes) => Done(bytes)
      case More(bytes, next) => Before(bytes, DecodedFrom(data, next))
  }

  function Decoded(data: string): Decoding {
    DecodedFrom(data, 0)
  }

  /** The first and third loops of a group. */
  method Scan(data: string, from: nat) returns (c: int, i: nat)
    requires from < |data|
    ensures i == Skip(data, from) && c == ValueAt(data, i)
  {
    i := from;
    c := Value(data[i]);
    while c == NONE && i < |data|
      invariant from <= i <= |data| && Skip(data, from) == Skip(data, i) && c == ValueAt(data, i)
    {
      i := i + 1;
      if i < |data| {
        c := Value(data[i]);
      }
    }
  }

  /** The decoder as it steps through the text. */
  method Decode(data: string) returns (r: Decoding)
    ensures r == Decoded(data)
  {
    hide GroupAt;
    var i := 0;
    var ret: seq<Byte> := [];
    while i < |data|
      invariant Before(ret, DecodedFrom(data, i)) == Decoded(data)
      decreases |data| - i
    {
      var group := DecodeGroup(data, i);
      match group {
        case Bad =>
          return Overrun(ret);
        case Last(bytes) =>
          return Done(ret + bytes);
        case More(bytes, next) =>
          assert ret + bytes + DecodedFrom(data, next).bytes == ret + (bytes + DecodedFrom(data, next).bytes);
          ret := ret + bytes;
          i := next;
      }
    }
    return Done(ret);
  }

  method DecodeGroup(data: string, from: nat) returns (group: Group)
    requires from < |data|
    ensures group == GroupAt(data, from)
  {
    hide First, Second, Third, Skip, ValueAt;
    var c, i := Scan(data, from);
    if i == |data| {
      return Bad;
    }
    i := i + 1;
    var c1 := ValueAt(data, i);
    var ret := [First(c, c1)];
    i := i + 1;
    if i < |data| {
      if data[i] == FILL {
        return Last(ret);
      }
      c, i := Scan(data, i);
      ret := ret + [Second(c1, c)];
    }
    i := i + 1;
    if i < |data| {
      if data[i] == FILL {
        return Last(ret);
      }
      c1 := ValueAt(data, i);
      ret := ret + [Third(c, c1)];
      return More(ret, i + 1);
    }
    return Last(ret);
  }

  // ---------------------------------------------------------------- the round trip

  /** Every encoding decodes to what was encoded. */
  lemma RoundTrip(x: seq<Byte>)
    ensures Decoded(Encoded(x)) == Done(x)
  {
    hide Encoded, DecodedFrom;
    RoundTripFrom(x, 0, "");
    assert "" + Encoded(x, 0) == Encoded(x, 0);
  }

  lemma {:induction false} RoundTripFrom(x: seq<Byte>, i: nat, done: string)
    requires i <= |x|
    ensures DecodedFrom(done + Encoded(x, i), |done|) == Done(x[i..])
    decreases |x| - i
  {
    hide Quad, GroupAt, Encoded, DecodedFrom;
    EncodedStep(x, i);
    if i == |x| {
      DecodedStep(done, |done|);
      assert done + "" == done;
    } else {
      var quad := Quad(x, i);
      var data := done + Encoded(x, i);
      assert data[|done|..|done| + 4] == quad;
      QuadReadsBack(x, i, data, |done|);
      DecodedStep(data, |done|);
      if i + 3 <= |x| {
        var rest := Encoded(x, i + 3);
        assert done + (quad + rest) == (done + quad) + rest;
        RoundTripFrom(x, i + 3, done + quad);
        ThreeMore(x, i);
      }
    }
  }

  lemma ThreeMore(x: seq<Byte>, i: nat)
    requires i + 3 <= |x|
    ensures x[i..] == [x[i], x[i + 1], x[i + 2]] + x[i + 3..]
  {
  }

  lemma EncodedStep(x: seq<Byte>, i: nat)
    requires i <= |x|
    ensures Encoded(x, i) == if i == |x| then "" else Quad(x, i) + (if i + 3 <= |x| then Encoded(x, i + 3) else "")
  {
  }

  lemma DecodedStep(data: string, i: nat)
    ensures DecodedFrom(data, i) ==
      if i >= |data| then Done([]) else
      match GroupAt(data, i)
      case Bad => Overrun([])
      case Last(bytes) => Done(bytes)
      case More(bytes, next) => Before(bytes, DecodedFrom(data, next))
  {
  }

  lemma QuadReadsBack(x: seq<Byte>, i: nat, data: string, at: nat)
    requires i < |x| && at + 4 <= |data| && data[at..at + 4] == Quad(x, i)
    requires i + 3 > |x| ==> |data| == at + 4
    ensures GroupAt(data, at) == if i + 3 <= |x| then More([x[i], x[i + 1], x[i + 2]], at + 4) else Last(x[i..])
  {
    var b0: int, b1: int, b2: int := x[i], if i + 1 < |x| then x[i + 1] else 0, if i + 2 < |x| then x[i + 2] else 0;
    var q := data[at..at + 4];
    assert data[at] == q[0] && data[at + 1] == q[1] && data[at + 2] == q[2] && data[at + 3] == q[3];
    TablesAgree(b0 / 4, FILL);
    TablesAgree(b0 % 4 * 16 + b1 / 16, FILL);
    TablesAgree(b1 % 16 * 4 + b2 / 64, FILL);
    TablesAgree(b2 % 64, FILL);
    BitsMeet(b0, b1, b2);
  }

  lemma BitsMeet(b0: Byte, b1: Byte, b2: Byte)
    ensures First(b0 / 4, b0 % 4 * 16 + b1 / 16) == b0
    ensures Second(b0 % 4 * 16 + b1 / 16, b1 % 16 * 4 + b2 / 64) == b1
    ensures Third(b1 % 16 * 4 + b2 / 64, b2 % 64) == b2
  {
    FirstBits(b0, b1);
    SecondBits(b1, b0 % 4, b2 / 64);
  }

  lemma FirstBits(b0: Byte, b1: Byte)
    ensures First(b0 / 4, b0 % 4 * 16 + b1 / 16) == b0
  {
    var high, low := b0 / 4, b0 % 4;
    assert b0 == 4 * high + low;
    assert (low * 16 + b1 / 16) / 16 == low;
  }

  lemma SecondBits(b1: Byte, above: int, below: int)
    requires 0 <= above < 4 && 0 <= below < 4
    ensures Second(above * 16 + b1 / 16, b1 % 16 * 4 + below) == b1
  {
    var high, low := b1 / 16, b1 % 16;
    assert b1 == 16 * high + low;
    assert (above * 16 + high) % 16 == high;
    assert (low * 4 + below) / 4 == low;
  }

  // ---------------------------------------------------------------- text that was not encoded

  predicate Letters(s: string) {
    forall k :: 0 <= k < |s| ==> IsLetter(s[k])
  }

  /** No letter: foreign characters like line ends, and fill characters. */
  predicate NoLetters(s: string) {
    forall k :: 0 <= k < |s| ==> !IsLetter(s[k])
  }

  /** Where the `n`-th group begins, if the decoder comes to it. */
  function StartOf(data: string, n: nat): (i: Option<nat>)
    ensures i.Some? ==> n <= i.value
  {
    if n == 0 then Some(0)
    else
      var i := StartOf(data, n - 1);
      if i.Some? && i.value < |data| && GroupAt(data, i.value).More? then Some(GroupAt(data, i.value).next) else None
  }

  /** A group that the decoder begins with no letter left. */
  predicate BeginsInVain(data: string, n: nat) {
    StartOf(data, n).Some? && StartOf(data, n).value < |data| && NoLetters(data[StartOf(data, n).value..])
  }

  /** The decoder reads past the end of a text exactly if it begins a group with no letter left. */
  lemma OverrunIff(data: string)
    ensures Decoded(data).Overrun? <==> exists n :: 0 <= n < |data| && BeginsInVain(data, n)
  {
    OverrunFrom(data, 0);
    if n :| 0 <= n < |data| && BeginsInVain(data, n) {
      VainIsOverrun(data, 0, n);
    }
  }

  lemma {:induction false} OverrunFrom(data: string, n: nat)
    requires StartOf(data, n).Some?
    ensures DecodedFrom(data, StartOf(data, n).value).Overrun? ==> exists m :: n <= m < |data| && BeginsInVain(data, m)
    decreases |data| - StartOf(data, n).value
  {
    hide GroupAt, DecodedFrom;
    var i := StartOf(data, n).value;
    DecodedStep(data, i);
    if i < |data| {
      BadIff(data, i);
      if GroupAt(data, i).More? {
        OverrunFrom(data, n + 1);
      } else if GroupAt(data, i).Bad? {
        assert BeginsInVain(data, n);
      }
    }
  }

  lemma {:induction false} VainIsOverrun(data: string, n: nat, m: nat)
    requires n <= m && StartOf(data, n).Some? && BeginsInVain(data, m)
    ensures DecodedFrom(data, StartOf(data, n).value).Overrun?
    decreases m - n
  {
    hide GroupAt, DecodedFrom, NoLetters;
    var i := StartOf(data, n).value;
    DecodedStep(data, i);
    if n == m {
      BadIff(data, i);
    } else {
      StartIsReached(data, n, m);
      VainIsOverrun(data, n + 1, m);
    }
  }

  lemma {:induction false} StartIsReached(data: string, n: nat, m: nat)
    requires n < m && StartOf(data, m).Some?
    ensures StartOf(data, n).Some? && StartOf(data, n).value < |data| && GroupAt(data, StartOf(data, n).value).More?
    ensures StartOf(data, n + 1).Some?
    decreases m - n
  {
    if n + 1 < m {
      StartIsReached(data, n + 1, m);
    }
  }

  lemma BadIff(data: string, i: nat)
    requires i < |data|
    ensures GroupAt(data, i).Bad? <==> NoLetters(data[i..])
  {
    hide First, Second, Third, ValueAt, IsLetter;
    var j := Skip(data, i);
    if j < |data| {
      assert data[i..][j - i] == data[j];
    }
  }

  /** A text that ends in a letter can be decoded safely. */
  lemma EndsInLetterIsSafe(data: string)
    requires data != "" && IsLetter(data[|data| - 1])
    ensures !Decoded(data).Overrun?
  {
    hide DecodedFrom, NoLetters, IsLetter;
    OverrunIff(data);
    forall n: nat | n < |data| ensures !BeginsInVain(data, n) {
      if StartOf(data, n).Some? && StartOf(data, n).value < |data| {
        LetterIsLeft(data, StartOf(data, n).value);
      }
    }
  }

  lemma LetterIsLeft(data: string, i: nat)
    requires i < |data| && IsLetter(data[|data| - 1])
    ensures !NoLetters(data[i..])
  {
    var rest := data[i..];
    assert rest[|rest| - 1] == data[|data| - 1];
  }

  /** What follows the letters, with no letter in it, makes the decoder read past the end
      exactly if a group begins there: behind whole groups, or behind the one character that
      completes a group, which is not the fill character. */
  predicate Spoils(letters: string, tail: string) {
    (|letters| % 4 == 0 && tail != "") || (|letters| % 4 == 3 && |tail| > 1 && tail[0] != FILL)
  }

  lemma TailOverrunIff(letters: string, tail: string)
    requires Letters(letters) && NoLetters(tail)
    ensures Decoded(letters + tail).Overrun? <==> Spoils(letters, tail)
  {
    TailOverrunFrom(letters, tail, 0);
  }

  lemma {:induction false} TailOverrunFrom(letters: string, tail: string, i: nat)
    requires Letters(letters) && NoLetters(tail) && i <= |letters| && i % 4 == 0
    ensures DecodedFrom(letters + tail, i).Overrun? <==> Spoils(letters, tail)
    decreases |letters| - i
  {
    hide GroupAt, DecodedFrom;
    var data, n := letters + tail, |letters|;
    DecodedStep(data, i);
    if i < |data| {
      GroupAmong(letters, tail, i);
      if i + 4 <= n {
        TailOverrunFrom(letters, tail, i + 4);
      } else if i + 3 == n && i + 4 <= |data| {
        DecodedStep(data, i + 4);
        if i + 4 < |data| {
          GroupAmong(letters, tail, i + 4);
        }
      }
    }
  }

  lemma GroupAmong(letters: string, tail: string, i: nat)
    requires Letters(letters) && NoLetters(tail) && i < |letters + tail|
    ensures var g, n := GroupAt(letters + tail, i), |letters|;
      && (g.Bad? <==> i >= n)
      && (g.More? <==> i < n && (i + 4 <= n || (i + 3 == n && tail != "" && tail[0] != FILL)))
      && (g.More? ==> g.next == i + 4)
  {
    assert !IsLetter(FILL);
    hide IsLetter, First, Second, Third, ValueAt;
    var data, n := letters + tail, |letters|;
    SkipAmong(letters, tail, i);
    if i + 2 < |data| {
      assert data[i + 2] == if i + 2 < n then letters[i + 2] else tail[i + 2 - n];
      SkipAmong(letters, tail, i + 2);
    }
    if i + 3 < |data| {
      assert data[i + 3] == if i + 3 < n then letters[i + 3] else tail[i + 3 - n];
    }
  }

  lemma {:induction false} SkipAmong(letters: string, tail: string, i: nat)
    requires Letters(letters) && NoLetters(tail) && i <= |letters + tail|
    ensures Skip(letters + tail, i) == if i < |letters| then i else |letters + tail|
  {
    var data := letters + tail;
    assert forall k :: |letters| <= k < |data| ==> !IsLetter(data[k]);
    if i < |letters| {
      assert data[i] == letters[i];
    }
  }

  // ---------------------------------------------------------------- lines

  /** A line of whole groups, and what stands between it and the next. */
  datatype Line = Line(letters: string, break_: string)

  predicate WholeLines(lines: seq<Line>) {
    forall i :: 0 <= i < |lines| ==> Letters(lines[i].letters) && |lines[i].letters| % 4 == 0 && NoLetters(lines[i].break_)
  }

  function Broken(lines: seq<Line>): string {
    if lines == [] then "" else lines[0].letters + lines[0].break_ + Broken(lines[1..])
  }

  function Unbroken(lines: seq<Line>): string {
    if lines == [] then "" else lines[0].letters + Unbroken(lines[1..])
  }

  /** Where a group is looked at does not matter, only what follows. */
  lemma {:induction false} SkipShifts(front: string, s: string, i: nat)
    requires i <= |s|
    ensures Skip(front + s, |front| + i) == |front| + Skip(s, i)
    decreases |s| - i
  {
    if i < |s| && !IsLetter(s[i]) {
      SkipShifts(front, s, i + 1);
    }
  }

  function Shifted(g: Group, n: nat): Group {
    if g.More? then g.(next := g.next + n) else g
  }

  lemma GroupShifts(front: string, s: string, i: nat)
    requires i < |s|
    ensures GroupAt(front + s, |front| + i) == Shifted(GroupAt(s, i), |front|)
  {
    hide First, Second, Third, IsLetter, ValueAt;
    var data, n := front + s, |front|;
    SkipShifts(front, s, i);
    var j := Skip(s, i);
    if j < |s| {
      ValueShifts(front, s, j);
      ValueShifts(front, s, j + 1);
    }
    if j + 2 < |s| {
      assert data[n + j + 2] == s[j + 2];
      SkipShifts(front, s, j + 2);
      var k := Skip(s, j + 2);
      ValueShifts(front, s, k);
      if k + 1 < |s| {
        assert data[n + k + 1] == s[k + 1];
        ValueShifts(front, s, k + 1);
      }
    }
  }

  lemma ValueShifts(front: string, s: string, i: nat)
    requires i <= |s|
    ensures ValueAt(front + s, |front| + i) == ValueAt(s, i)
  {
  }

  lemma {:induction false} DecodingShifts(front: string, s: string, i: nat)
    ensures DecodedFrom(front + s, |front| + i) == DecodedFrom(s, i)
    decreases |s| - i
  {
    hide GroupAt, DecodedFrom;
    DecodedStep(front + s, |front| + i);
    DecodedStep(s, i);
    if i < |s| {
      GroupShifts(front, s, i);
      if GroupAt(s, i).More? {
        DecodingShifts(front, s, GroupAt(s, i).next);
      }
    }
  }

  lemma WholeGroup(letters: string, rest: string, i: nat)
    requires Letters(letters) && i + 4 <= |letters|
    ensures GroupAt(letters + rest, i) == GroupAt(letters, i) && GroupAt(letters, i).More? && GroupAt(letters, i).next == i + 4
  {
    assert !IsLetter(FILL);
    hide IsLetter, First, Second, Third, Value;
    var data := letters + rest;
    assert forall k :: i <= k < i + 4 ==> data[k] == letters[k];
    assert Skip(data, i) == i && Skip(data, i + 2) == i + 2 && Skip(letters, i) == i && Skip(letters, i + 2) == i + 2;
  }

  lemma {:induction false} WholeFront(letters: string, rest: string, i: nat)
    requires Letters(letters) && |letters| % 4 == 0 && i <= |letters| && i % 4 == 0
    ensures DecodedFrom(letters + rest, i) == Before(DecodedFrom(letters, i).bytes, DecodedFrom(rest, 0))
    decreases |letters| - i
  {
    hide GroupAt, DecodedFrom;
    DecodedStep(letters, i);
    if i == |letters| {
      DecodingShifts(letters, rest, 0);
    } else {
      DecodedStep(letters + rest, i);
      WholeGroup(letters, rest, i);
      WholeFront(letters, rest, i + 4);
      var bytes := GroupAt(letters, i).bytes;
      assert bytes + (DecodedFrom(letters, i + 4).bytes + DecodedFrom(rest, 0).bytes)
        == (bytes + DecodedFrom(letters, i + 4).bytes) + DecodedFrom(rest, 0).bytes;
    }
  }

  lemma {:induction false} SkipsBreak(front: string, rest: string, i: nat)
    requires NoLetters(front) && i <= |front|
    ensures Skip(front + rest, i) == Skip(front + rest, |front|)
    decreases |front| - i
  {
    if i < |front| {
      SkipsBreak(front, rest, i + 1);
    }
  }

  lemma BreakIsSkipped(front: string, rest: string)
    requires NoLetters(front) && rest != ""
    ensures DecodedFrom(front + rest, 0) == DecodedFrom(rest, 0)
  {
    hide DecodedFrom, First, Second, Third, ValueAt;
    SkipsBreak(front, rest, 0);
    DecodedStep(front + rest, 0);
    DecodedStep(front + rest, |front|);
    DecodingShifts(front, rest, 0);
  }

  lemma LinesAreWhole(lines: seq<Line>)
    requires WholeLines(lines) && lines != []
    ensures WholeLines(lines[1..])
    ensures Letters(lines[0].letters) && |lines[0].letters| % 4 == 0 && NoLetters(lines[0].break_)
  {
  }

  /** Breaks between whole groups do not matter to a text that goes on with a letter: it is
      decoded as if they were not there, and reads past the end exactly if it would without. */
  lemma {:induction false} BreaksDoNotMatter(lines: seq<Line>, rest: string)
    requires WholeLines(lines) && rest != ""
    ensures Decoded(Broken(lines) + rest) == Decoded(Unbroken(lines) + rest)
  {
    hide DecodedFrom, WholeLines;
    if lines != [] {
      LinesAreWhole(lines);
      var first, more := lines[0], lines[1..];
      BreaksDoNotMatter(more, rest);
      var broken, unbroken := Broken(more) + rest, Unbroken(more) + rest;
      assert Broken(lines) + rest == first.letters + (first.break_ + broken);
      assert Unbroken(lines) + rest == first.letters + unbroken;
      WholeFront(first.letters, first.break_ + broken, 0);
      WholeFront(first.letters, unbroken, 0);
      BreakIsSkipped(first.break_, broken);
    }
  }

  /** An encoding that is broken into lines between groups decodes to what was encoded. */
  lemma LinesReadBack(x: seq<Byte>, lines: seq<Line>, rest: string)
    requires WholeLines(lines) && rest != "" && Unbroken(lines) + rest == Encoded(x)
    ensures Decoded(Broken(lines) + rest) == Done(x)
  {
    BreaksDoNotMatter(lines, rest);
    RoundTrip(x);
  }

  lemma {:induction false} UnbrokenIsWhole(lines: seq<Line>)
    requires WholeLines(lines)
    ensures Letters(Unbroken(lines)) && |Unbroken(lines)| % 4 == 0
  {
    if lines != [] {
      UnbrokenIsWhole(lines[1..]);
    }
  }

  /** Lines of whole groups, a last line of any length, and what follows it without a letter:
      the decoder reads past the end exactly if what follows the last line makes it. */
  lemma LinesOverrunIff(lines: seq<Line>, letters: string, tail: string)
    requires WholeLines(lines) && Letters(letters) && NoLetters(tail) && letters + tail != ""
    ensures Decoded(Broken(lines) + (letters + tail)).Overrun? <==> Spoils(letters, tail)
  {
    hide Decoded;
    BreaksDoNotMatter(lines, letters + tail);
    UnbrokenIsWhole(lines);
    var all := Unbroken(lines) + letters;
    assert Unbroken(lines) + (letters + tail) == all + tail;
    TailOverrunIff(all, tail);
  }
}
