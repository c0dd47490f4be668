/** What is written to a configuration file is read back, for marks of one character. */
module ConfigRoundTrip {
  import opened Blanks
  import opened ConfigText

  lemma AddTwice(f: Fields, a: string, b: string)
    ensures f.Add(a).Add(b) == f.Add(a + b) && f.Add("") == f
  {
    assert f.key + a + b == f.key + (a + b) && f.value + a + b == f.value + (a + b);
    assert f.key + "" == f.key && f.value + "" == f.value;
  }

  lemma AtOne(line: string, i: nat, mark: string)
    requires |mark| == 1 && i < |line|
    ensures At(line, i, mark) <==> line[i] == mark[0]
    ensures At(line, i, mark) ==> mark == [line[i]]
  {
  }

  /** One step between quotes: a doubled quote, the last quote, or anything else. */
  lemma QuotedStep(line: string, m: Marks, i: nat, f: Fields)
    requires Simple(m) && i < |line|
    ensures Scan(line, m, i, true, f) ==
      if line[i] != QUOTE then Scan(line, m, i + 1, true, f.Add([line[i]]))
      else if i + 1 < |line| && line[i + 1] == QUOTE then Scan(line, m, i + 2, true, f.Add([QUOTE]))
      else Scan(line, m, i + 1, false, f)
  {
    AtOne(line, i, m.comment);
    AtOne(line, i, m.delimiter);
  }

  /** One step outside quotes. */
  lemma OpenStep(line: string, m: Marks, i: nat, f: Fields)
    requires Simple(m) && i < |line|
    ensures Scan(line, m, i, false, f) ==
      if line[i] == QUOTE then Scan(line, m, i + 1, true, f)
      else if line[i] == m.comment[0] then (if f.flag == 1 then f.(flag := 2) else f, i)
      else if line[i] == m.delimiter[0] && f.flag == 0 then Scan(line, m, i + 1, false, f.(flag := 1))
      else Scan(line, m, i + 1, false, f.Add([line[i]]))
  {
    AtOne(line, i, m.comment);
    AtOne(line, i, m.delimiter);
  }

  predicate Special(c: char, m: Marks)
    requires Simple(m)
  {
    c == QUOTE || c == m.comment[0] || c == m.delimiter[0]
  }

  predicate Plain(s: string, m: Marks)
    requires Simple(m)
  {
    forall k :: 0 <= k < |s| ==> !Special(s[k], m)
  }

  predicate NoQuote(s: string) { forall k :: 0 <= k < |s| ==> s[k] != QUOTE }

  /** Characters that mean nothing are read as they are. */
  lemma {:induction false} ReadPlain(line: string, m: Marks, i: nat, s: string, f: Fields)
    requires Simple(m) && Plain(s, m) && i + |s| <= |line| && line[i..i + |s|] == s
    ensures Scan(line, m, i, false, f) == Scan(line, m, i + |s|, false, f.Add(s))
    decreases |s|
  {
    hide Scan;
    AddTwice(f, "", "");
    if s != "" {
      assert line[i] == s[0];
      OpenStep(line, m, i, f);
      ReadPlain(line, m, i + 1, s[1..], f.Add([s[0]]));
      AddTwice(f, [s[0]], s[1..]);
      assert [s[0]] + s[1..] == s;
    }
  }

  function Doubled(s: string): string {
    if s == "" then "" else (if s[0] == QUOTE then [QUOTE, QUOTE] else [s[0]]) + Doubled(s[1..])
  }

  /** Between quotes only a single quote means something. */
  lemma {:induction false} ReadQuoted(line: string, m: Marks, i: nat, s: string, f: Fields)
    requires Simple(m) && i + |Doubled(s)| < |line| && line[i..i + |Doubled(s)|] == Doubled(s)
    requires line[i + |Doubled(s)|] == QUOTE
    requires i + |Doubled(s)| + 1 < |line| ==> line[i + |Doubled(s)| + 1] != QUOTE
    ensures Scan(line, m, i, true, f) == Scan(line, m, i + |Doubled(s)| + 1, false, f.Add(s))
    decreases |s|
  {
    hide Scan, Doubled;
    AddTwice(f, "", "");
    QuotedStep(line, m, i, f);
    DoubledStep(s);
    if s != "" {
      var d, k := Doubled(s), if s[0] == QUOTE then 2 else 1;
      assert forall j :: 0 <= j < |d| ==> line[i + j] == d[j];
      assert line[i + k..i + |d|] == d[k..];
      ReadQuoted(line, m, i + k, s[1..], f.Add([s[0]]));
      AddTwice(f, [s[0]], s[1..]);
      assert [s[0]] + s[1..] == s;
    }
  }

  lemma DoubledStep(s: string)
    ensures s == "" ==> Doubled(s) == ""
    ensures s != "" ==>
      var d, k := Doubled(s), if s[0] == QUOTE then 2 else 1;
      |d| == k + |Doubled(s[1..])| && d[k..] == Doubled(s[1..]) && d[0] == s[0] && (k == 2 ==> d[1] == QUOTE)
  {
    if s != "" {
      var first := if s[0] == QUOTE then [QUOTE, QUOTE] else [s[0]];
      assert Doubled(s) == first + Doubled(s[1..]);
    }
  }

  lemma {:induction false} DoubledIsFaithful(a: string, b: string)
    requires Doubled(a) == Doubled(b)
    ensures a == b
  {
    hide Doubled;
    DoubledStep(a);
    DoubledStep(b);
    if a != "" && b != "" {
      DoubledIsFaithful(a[1..], b[1..]);
      assert a == [a[0]] + a[1..] && b == [b[0]] + b[1..];
    }
  }

  // ---------------------------------------------------------------- what survives

  /** Quotes stand only at the start or at the end. */
  predicate QuotesAtEnds(s: string) {
    forall k :: 0 < k < |s| - 1 ==> s[k] != QUOTE
  }

  predicate HasMark(s: string, m: Marks)
    requires Simple(m)
  {
    exists k :: 0 <= k < |s| && (s[k] == m.delimiter[0] || s[k] == m.comment[0])
  }

  /** A key or value that comes back: without quotes, or with quotes at its ends only and with
      a mark, so that it is written in quotes. */
  predicate Storable(s: string, m: Marks)
    requires Simple(m)
  {
    NoQuote(s) || (QuotesAtEnds(s) && HasMark(s, m))
  }

  lemma ContainsIff(s: string, m: Marks)
    requires Simple(m)
    ensures HasMark(s, m) <==> Contains(s, m.delimiter) || Contains(s, m.comment)
  {
    forall k | 0 <= k < |s|
      ensures s[k] == m.delimiter[0] <==> At(s, k, m.delimiter)
      ensures s[k] == m.comment[0] <==> At(s, k, m.comment)
    {
    }
  }

  lemma {:induction false} DoubledOfPlain(s: string)
    requires NoQuote(s)
    ensures Doubled(s) == s
  {
    if s != "" {
      DoubledOfPlain(s[1..]);
      assert [s[0]] + s[1..] == s;
    }
  }

  lemma {:induction false} DoubledOfTwo(a: string, b: string)
    ensures Doubled(a + b) == Doubled(a) + Doubled(b)
  {
    if a == "" {
      assert a + b == b;
    } else {
      assert (a + b)[1..] == a[1..] + b;
      DoubledOfTwo(a[1..], b);
    }
  }

  lemma {:induction false} DoubledKeepsMarks(s: string, m: Marks)
    requires Simple(m)
    ensures HasMark(Doubled(s), m) <==> HasMark(s, m)
  {
    if s != "" {
      var t := s[1..];
      DoubledKeepsMarks(t, m);
      MarkInTwo([s[0]], t, m);
      MarkInTwo(if s[0] == QUOTE then [QUOTE, QUOTE] else [s[0]], Doubled(t), m);
      assert [s[0]] + t == s;
    }
  }

  lemma MarkInTwo(a: string, b: string, m: Marks)
    requires Simple(m)
    ensures HasMark(a + b, m) <==> HasMark(a, m) || HasMark(b, m)
  {
    forall k | 0 <= k < |a| ensures (a + b)[k] == a[k] {
    }
    forall k | 0 <= k < |b| ensures (a + b)[|a| + k] == b[k] {
    }
  }

  /** With quotes at the ends only, replacing does what it should. */
  lemma ReplacedIsDoubled(s: string)
    requires NoQuote(s) || QuotesAtEnds(s)
    ensures Replaced(s, 0) == Doubled(s)
  {
    if NoQuote(s) {
      DoubledOfPlain(s);
    } else if s[0] == QUOTE {
      var t := [QUOTE, QUOTE] + s[1..];
      assert s[..0] + [QUOTE, QUOTE] + s[1..] == t;
      ReplaceLast(t, 2);
      assert t[..2] == [QUOTE, QUOTE] && t[2..] == s[1..];
      assert Doubled(s) == [QUOTE, QUOTE] + Doubled(s[1..]);
    } else {
      ReplaceLast(s, 0);
      assert s[..0] == "" && s[0..] == s;
    }
  }

  lemma ReplaceLast(s: string, i: nat)
    requires i <= |s| && forall k :: i <= k < |s| - 1 ==> s[k] != QUOTE
    ensures Replaced(s, i) == s[..i] + Doubled(s[i..])
  {
    hide Doubled;
    var n := FindQuote(s, i);
    if n == |s| {
      DoubledOfPlain(s[i..]);
      assert s[..i] + s[i..] == s;
    } else {
      assert n == |s| - 1;
      var t := s[..n] + [QUOTE, QUOTE];
      ReplaceAtEnd(s, i, t);
      DoubledOfTwo(s[i..n], [QUOTE]);
      DoubledOfPlain(s[i..n]);
      DoubledOfQuote();
      assert s[i..] == s[i..n] + [QUOTE];
      assert s[..i] + (s[i..n] + [QUOTE, QUOTE]) == t;
    }
  }

  lemma DoubledOfQuote()
    ensures Doubled([QUOTE]) == [QUOTE, QUOTE]
  {
    assert [QUOTE][1..] == "";
  }

  lemma ReplaceAtEnd(s: string, i: nat, t: string)
    requires i < |s| && FindQuote(s, i) == |s| - 1 && t == s[..|s| - 1] + [QUOTE, QUOTE]
    ensures Replaced(s, i) == t
  {
    var n := |s| - 1;
    var rest := if 2 * n + 1 <= |s| then s[2 * n + 1..] else "";
    assert rest == "";
    assert s[..n] + [QUOTE, QUOTE] + rest == t;
    assert FindQuote(t, n + 2) == |t|;
  }

  // ---------------------------------------------------------------- what is read of it

  /** What replacing leaves of a text from `i` on: a quote takes what stands behind it along. */
  function Left(s: string, i: nat): string
    requires i <= |s|
    decreases |s| - i
  {
    var n := FindQuote(s, i);
    if n == |s| then s[i..] else s[i..n] + [QUOTE] + Left(Next(s, n), n + 2)
  }

  lemma LeftStep(s: string, i: nat)
    requires i <= |s|
    ensures var n := FindQuote(s, i);
      if n == |s| then Replaced(s, i) == s && Left(s, i) == s[i..]
      else
        && n + 2 <= |Next(s, n)| && |Next(s, n)| - (n + 2) < |s| - i
        && Replaced(s, i) == Replaced(Next(s, n), n + 2) && Left(s, i) == s[i..n] + [QUOTE] + Left(Next(s, n), n + 2)
        && Next(s, n)[..n + 2] == s[..i] + (s[i..n] + [QUOTE, QUOTE])
  {
  }

  /** Replacing doubles the quotes of what it leaves. */
  lemma {:induction false} ReplacedIsLeft(s: string, i: nat)
    requires i <= |s|
    ensures Replaced(s, i) == s[..i] + Doubled(Left(s, i))
    decreases |s| - i
  {
    hide Doubled, Left, Replaced, Next;
    var n := FindQuote(s, i);
    LeftStep(s, i);
    if n == |s| {
      DoubledOfPlain(s[i..]);
      assert s[..i] + s[i..] == s;
    } else {
      var t := Next(s, n);
      ReplacedIsLeft(t, n + 2);
      DoubledOfRow(s[..i], s[i..n], Left(t, n + 2));
    }
  }

  lemma DoubledOfRow(front: string, plain: string, left: string)
    requires NoQuote(plain)
    ensures front + (plain + [QUOTE, QUOTE]) + Doubled(left) == front + Doubled(plain + [QUOTE] + left)
  {
    hide Doubled;
    DoubledOfPlain(plain);
    DoubledOfTwo(plain, [QUOTE]);
    DoubledOfTwo(plain + [QUOTE], left);
    DoubledOfQuote();
  }

  /** Doubled quotes that do not stand between quotes: each row of them loses one. */
  function Bare(s: string): string {
    if s == "" then ""
    else (if s[0] == QUOTE && !(|s| > 1 && s[1] == QUOTE) then "" else [s[0]]) + Bare(s[1..])
  }

  lemma {:induction false} ReadBare(line: string, m: Marks, i: nat, s: string, f: Fields)
    requires Simple(m) && !HasMark(s, m)
    requires i + |Doubled(s)| <= |line| && line[i..i + |Doubled(s)|] == Doubled(s)
    requires i + |Doubled(s)| < |line| ==> line[i + |Doubled(s)|] != QUOTE
    ensures Scan(line, m, i, false, f) == Scan(line, m, i + |Doubled(s)|, false, f.Add(Bare(s)))
    decreases |s|, 1
  {
    hide Scan, Doubled;
    AddTwice(f, "", "");
    DoubledStep(s);
    if s != "" {
      var d := Doubled(s);
      assert forall j :: 0 <= j < |d| ==> line[i + j] == d[j];
      OpenStep(line, m, i, f);
      MarkInTwo([s[0]], s[1..], m);
      assert s == [s[0]] + s[1..];
      if s[0] == QUOTE {
        ReadRow(line, m, i + 1, s, f);
      } else {
        assert line[i + 1..i + |d|] == d[1..];
        assert !HasMark([s[0]], m) && [s[0]][0] == s[0];
        ReadBare(line, m, i + 1, s[1..], f.Add([s[0]]));
        AddTwice(f, [s[0]], Bare(s[1..]));
      }
    }
  }

  /** Inside a row of quotes, at the second of a pair. */
  lemma {:induction false} ReadRow(line: string, m: Marks, i: nat, s: string, f: Fields)
    requires Simple(m) && !HasMark(s, m) && s != "" && s[0] == QUOTE
    requires i - 1 + |Doubled(s)| <= |line| && i > 0 && line[i - 1..i - 1 + |Doubled(s)|] == Doubled(s)
    requires i - 1 + |Doubled(s)| < |line| ==> line[i - 1 + |Doubled(s)|] != QUOTE
    ensures Scan(line, m, i, true, f) == Scan(line, m, i - 1 + |Doubled(s)|, false, f.Add(Bare(s)))
    decreases |s|, 0
  {
    hide Scan, Doubled;
    var d, t := Doubled(s), s[1..];
    DoubledStep(s);
    DoubledStep(t);
    AddTwice(f, "", "");
    assert forall j :: 0 <= j < |d| ==> line[i - 1 + j] == d[j];
    assert d[2..] == Doubled(t) && line[i + 1..i - 1 + |d|] == Doubled(t);
    assert s == [s[0]] + t;
    MarkInTwo([s[0]], t, m);
    QuotedStep(line, m, i, f);
    if t != "" && t[0] == QUOTE {
      assert line[i + 1] == d[2];
      ReadRow(line, m, i + 2, t, f.Add([QUOTE]));
      AddTwice(f, [QUOTE], Bare(t));
    } else {
      assert t != "" ==> line[i + 1] == d[2];
      ReadBare(line, m, i + 1, t, f);
      assert "" + Bare(t) == Bare(t);
    }
  }

  /** What is read of a text that was written: what replacing left of it, and if that is not
      put in quotes, less a quote of every row. */
  function ReadOf(s: string, m: Marks): string
    requires Simple(m)
  {
    if HasMark(Left(s, 0), m) then Left(s, 0) else Bare(Left(s, 0))
  }

  lemma WrittenIs(s: string, m: Marks)
    requires Simple(m)
    ensures var d := Doubled(Left(s, 0));
      Written(s, m) == if HasMark(Left(s, 0), m) then [QUOTE] + d + [QUOTE] else d
  {
    ReplacedIsLeft(s, 0);
    assert s[..0] + Doubled(Left(s, 0)) == Doubled(Left(s, 0));
    DoubledKeepsMarks(Left(s, 0), m);
    ContainsIff(Doubled(Left(s, 0)), m);
  }

  lemma ReadInQuotes(line: string, m: Marks, i: nat, s: string, f: Fields)
    requires Simple(m)
    requires i + |Doubled(s)| + 2 <= |line| && line[i..i + |Doubled(s)| + 2] == [QUOTE] + Doubled(s) + [QUOTE]
    requires i + |Doubled(s)| + 2 < |line| ==> line[i + |Doubled(s)| + 2] != QUOTE
    ensures Scan(line, m, i, false, f) == Scan(line, m, i + |Doubled(s)| + 2, false, f.Add(s))
  {
    hide Scan, Doubled;
    BetweenQuotes(line, i, Doubled(s));
    OpenStep(line, m, i, f);
    ReadQuoted(line, m, i + 1, s, f);
  }

  lemma BetweenQuotes(line: string, i: nat, d: string)
    requires i + |d| + 2 <= |line| && line[i..i + |d| + 2] == [QUOTE] + d + [QUOTE]
    ensures line[i] == line[i + |d| + 1] == QUOTE && line[i + 1..i + 1 + |d|] == d
  {
    var w := [QUOTE] + d + [QUOTE];
    assert forall k :: 0 <= k < |d| + 2 ==> line[i + k] == w[k];
    assert w[1..1 + |d|] == d;
  }

  /** Any text is read back as `ReadOf` says, wherever it is written on a line. */
  lemma ReadWritten(line: string, m: Marks, i: nat, s: string, f: Fields)
    requires Simple(m)
    requires i + |Written(s, m)| <= |line| && line[i..i + |Written(s, m)|] == Written(s, m)
    requires i + |Written(s, m)| < |line| ==> line[i + |Written(s, m)|] != QUOTE
    ensures Scan(line, m, i, false, f) == Scan(line, m, i + |Written(s, m)|, false, f.Add(ReadOf(s, m)))
  {
    hide Scan, Written, Left, Doubled, Bare, HasMark;
    WrittenIs(s, m);
    var u := Left(s, 0);
    if HasMark(u, m) {
      ReadInQuotes(line, m, i, u, f);
    } else {
      ReadBare(line, m, i, u, f);
    }
  }

  lemma {:induction false} BareOfPlain(s: string)
    requires NoQuote(s)
    ensures Bare(s) == s
  {
    if s != "" {
      BareOfPlain(s[1..]);
      assert [s[0]] + s[1..] == s;
    }
  }

  /** What is storable is read as it is. */
  lemma StorableIsRead(s: string, m: Marks)
    requires Simple(m) && Storable(s, m)
    ensures ReadOf(s, m) == s
  {
    hide Left, Doubled, Bare;
    ReplacedIsLeft(s, 0);
    ReplacedIsDoubled(s);
    assert s[..0] + Doubled(Left(s, 0)) == Doubled(Left(s, 0));
    DoubledIsFaithful(Left(s, 0), s);
    if NoQuote(s) {
      BareOfPlain(s);
    }
  }

  // ---------------------------------------------------------------- a line

  lemma BlankIsPlain(s: string, m: Marks)
    requires Simple(m) && AllBlank(s)
    ensures Plain(s, m)
  {
  }

  /** The parts of an entry line. */
  datatype Parts = Parts(key: string, p: string, q: string, value: string, r: string, tail: string)

  function Line(t: Parts, m: Marks): string {
    Written(t.key, m) + t.p + m.delimiter + t.q + Written(t.value, m) + t.r + t.tail
  }

  predicate Proper(t: Parts, m: Marks)
    requires Simple(m)
  {
    && Trimmed(t.key) && Trimmed(t.value)
    && AllBlank(t.p) && AllBlank(t.q) && AllBlank(t.r)
    && (t.tail != "" ==> t.tail[0] == m.comment[0])
  }

  /** The scan of an entry line, part by part. */
  lemma ScanLine(t: Parts, m: Marks)
    requires Simple(m) && Proper(t, m)
    ensures var (f, i) := Scan(Line(t, m), m, 0, false, Fields(0, "", ""));
      && f == Fields(if t.tail == "" then 1 else 2, ReadOf(t.key, m) + t.p, t.q + ReadOf(t.value, m) + t.r)
      && i == |Line(t, m)| - |t.tail|
  {
    hide Scan, Written, ReadOf;
    var line, k, v := Line(t, m), Written(t.key, m), Written(t.value, m);
    PartsOf(k, t.p, m.delimiter, t.q, v, t.r, t.tail, line);
    ScanKey(line, t.key, t.p, m, |k|);
    ScanValue(line, |k| + |t.p| + 1, t, m, Fields(1, ReadOf(t.key, m) + t.p, ""));
    assert "" + t.q == t.q;
  }

  /** The key and the delimiter. */
  lemma ScanKey(line: string, key: string, p: string, m: Marks, i: nat)
    requires Simple(m) && AllBlank(p) && i == |Written(key, m)|
    requires i + |p| < |line| && line[0..i] == Written(key, m) && line[i..i + |p|] == p && line[i + |p|] == m.delimiter[0]
    ensures Scan(line, m, 0, false, Fields(0, "", "")) == Scan(line, m, i + |p| + 1, false, Fields(1, ReadOf(key, m) + p, ""))
  {
    hide Scan, Written, ReadOf;
    var read := ReadOf(key, m);
    BlankIsPlain(p, m);
    assert p != "" ==> line[i] == p[0];
    ReadWritten(line, m, 0, key, Fields(0, "", ""));
    FieldsOfKey(read, p);
    ReadPlain(line, m, i, p, Fields(0, read, ""));
    OpenStep(line, m, i + |p|, Fields(0, read + p, ""));
  }

  lemma FieldsOfKey(key: string, p: string)
    ensures Fields(0, "", "").Add(key) == Fields(0, key, "") && Fields(0, key, "").Add(p) == Fields(0, key + p, "")
  {
    assert "" + key == key;
  }

  /** The value, and the comment if there is one. */
  lemma ScanValue(line: string, i: nat, t: Parts, m: Marks, g: Fields)
    requires Simple(m) && Proper(t, m) && g.flag == 1
    requires var i3 := i + |t.q|;
      var i4 := i3 + |Written(t.value, m)|;
      var i5 := i4 + |t.r|;
      && |line| == i5 + |t.tail| && line[i..i3] == t.q && line[i3..i4] == Written(t.value, m)
      && line[i4..i5] == t.r && line[i5..] == t.tail
    ensures Scan(line, m, i, false, g) ==
      (Fields(if t.tail == "" then 1 else 2, g.key, g.value + t.q + ReadOf(t.value, m) + t.r), |line| - |t.tail|)
  {
    hide Scan, Written, ReadOf;
    var read := ReadOf(t.value, m);
    var i3 := i + |t.q|;
    var i4 := i3 + |Written(t.value, m)|;
    var i5 := i4 + |t.r|;
    BlankIsPlain(t.q, m);
    BlankIsPlain(t.r, m);
    assert t.r != "" ==> line[i4] == t.r[0];
    assert t.tail != "" ==> line[i5] == t.tail[0];
    ReadPlain(line, m, i, t.q, g);
    ReadWritten(line, m, i3, t.value, g.Add(t.q));
    ReadPlain(line, m, i4, t.r, g.Add(t.q).Add(read));
    ScanEnds(line, m, i5, g.Add(t.q).Add(read).Add(t.r));
  }

  lemma ScanEnds(line: string, m: Marks, i: nat, f: Fields)
    requires Simple(m) && f.flag == 1 && i <= |line| && (i < |line| ==> line[i] == m.comment[0])
    ensures Scan(line, m, i, false, f) == (if i == |line| then f else f.(flag := 2), i)
  {
    if i < |line| {
      OpenStep(line, m, i, f);
    }
  }

  lemma PartsOf(k: string, p: string, d: string, q: string, v: string, r: string, tail: string, line: string)
    requires line == k + p + d + q + v + r + tail && |d| == 1
    ensures var i1, i2 := |k|, |k| + |p|;
      var i3 := i2 + 1 + |q|;
      var i4 := i3 + |v|;
      var i5 := i4 + |r|;
      && |line| == i5 + |tail| && line[..i1] == k && line[i1..i2] == p && line[i2] == d[0]
      && line[i2 + 1..i3] == q && line[i3..i4] == v && line[i4..i5] == r && line[i5..] == tail
  {
  }

  /** Blanks around a text make no difference to trimming. */
  lemma TrimIgnores(before: string, s: string, after: string)
    requires AllBlank(before) && AllBlank(after)
    ensures Trim(before + s + after) == Trim(s)
  {
    hide Trim;
    var front, back := TrimSplits(s);
    var t := Trim(s);
    BlanksJoin(before, front);
    BlanksJoin(back, after);
    Regrouped(before, front, t, back, after);
    TrimIs(before + front, t, back + after);
  }

  lemma Regrouped(a: string, b: string, c: string, d: string, e: string)
    ensures a + (b + c + d) + e == (a + b) + c + (d + e)
  {
  }

  lemma BlanksJoin(a: string, b: string)
    requires AllBlank(a) && AllBlank(b)
    ensures AllBlank(a + b)
  {
  }

  lemma ParseLine(t: Parts, m: Marks)
    requires Simple(m) && Proper(t, m)
    ensures Parse(Line(t, m), m)
      == Entry(Trim(ReadOf(t.key, m)), Data(Trim(ReadOf(t.value, m)), if t.tail == "" then "" else t.tail[1..]))
  {
    hide Scan, Written, Trim, ReadOf, Line, At;
    var line := Line(t, m);
    ScanLine(t, m);
    TailOfLine(t, m);
    FirstOfLine(t, m);
    AtOne(line, 0, m.comment);
    TrimIgnores("", ReadOf(t.key, m), t.p);
    TrimIgnores(t.q, ReadOf(t.value, m), t.r);
    assert "" + ReadOf(t.key, m) + t.p == ReadOf(t.key, m) + t.p;
  }

  lemma TailOfLine(t: Parts, m: Marks)
    ensures var n := |Line(t, m)| - |t.tail|;
      0 <= n && (t.tail != "" ==> Line(t, m)[n + 1..] == t.tail[1..])
  {
    hide Written;
    var front := Written(t.key, m) + t.p + m.delimiter + t.q + Written(t.value, m) + t.r;
    assert Line(t, m) == front + t.tail;
  }

  /** Replacing leaves the first character, and the last one or a quote in its place. */
  lemma {:induction false} ReplacedEnds(s: string, i: nat)
    requires i <= |s| && s != ""
    ensures var r := Replaced(s, i);
      r != "" && r[0] == s[0] && (r[|r| - 1] == s[|s| - 1] || r[|r| - 1] == QUOTE)
    decreases |s| - i
  {
    hide Replaced;
    LeftStep(s, i);
    var n := FindQuote(s, i);
    if n < |s| {
      ReplacedEnds(Next(s, n), n + 2);
    }
  }

  /** A written key or value starts and ends with ink, and does not start like a comment. */
  lemma WrittenEnds(s: string, m: Marks)
    requires Simple(m) && Trimmed(s)
    ensures Trimmed(Written(s, m)) && (Written(s, m) == "" <==> s == "")
    ensures s != "" ==> Written(s, m)[0] != m.comment[0]
  {
    hide Replaced;
    if s != "" {
      ReplacedEnds(s, 0);
      ContainsIff(Replaced(s, 0), m);
    } else {
      NothingReplaced(m);
    }
  }

  lemma NothingReplaced(m: Marks)
    requires Simple(m)
    ensures Written("", m) == ""
  {
    ContainsIff("", m);
  }

  lemma FirstOfLine(t: Parts, m: Marks)
    requires Simple(m) && Proper(t, m)
    ensures Line(t, m) != "" && Line(t, m)[0] != m.comment[0]
  {
    hide Written;
    WrittenEnds(t.key, m);
    var k := Written(t.key, m);
    var rest := t.q + Written(t.value, m) + t.r + t.tail;
    assert Line(t, m) == k + t.p + m.delimiter + rest;
    var line := k + t.p + m.delimiter + rest;
    assert line[0] == if k != "" then k[0] else if t.p != "" then t.p[0] else m.delimiter[0];
  }

  /** What a saved entry says when it is read, whatever the widths of the columns. */
  lemma EntryReadsAs(key: string, data: Data, m: Marks, keyWidth: int, dataWidth: int)
    requires Simple(m) && Trimmed(key) && Trimmed(data.value) && RightTrimmed(data.comment)
    ensures Parse(Trim(EntryLine(key, data, m, keyWidth, dataWidth) + "\r"), m)
      == Entry(Trim(ReadOf(key, m)), Data(Trim(ReadOf(data.value, m)), data.comment))
  {
    hide Written, Trim, Parse, ReadOf, EntryLine, Line;
    var (before, t, after) := PartsOfEntry(key, data, m, keyWidth, dataWidth);
    EntryIsLine(key, data, m, keyWidth, dataWidth);
    WrittenEnds(key, m);
    WrittenEnds(data.value, m);
    InkAround(t, m);
    TrimIs(before, Line(t, m), after);
    ParseLine(t, m);
    assert t.tail != "" ==> t.tail[1..] == data.comment;
  }

  lemma TrimOfTrimmed(s: string)
    requires Trimmed(s)
    ensures Trim(s) == s
  {
    TrimIs("", s, "");
    assert "" + s + "" == s;
  }

  /** A saved entry says what it said before, if its key and value are storable. */
  lemma EntryReadsBack(key: string, data: Data, m: Marks, keyWidth: int, dataWidth: int)
    requires Simple(m) && Storable(key, m) && Storable(data.value, m) && Trimmed(key) && Trimmed(data.value)
    requires RightTrimmed(data.comment)
    ensures Parse(Trim(EntryLine(key, data, m, keyWidth, dataWidth) + "\r"), m) == Entry(key, data)
  {
    hide Trim, Parse, Storable, EntryLine, ReadOf;
    EntryReadsAs(key, data, m, keyWidth, dataWidth);
    StorableIsRead(key, m);
    StorableIsRead(data.value, m);
    TrimOfTrimmed(key);
    TrimOfTrimmed(data.value);
  }

  /** The line of an entry, and the blanks that trimming takes away. */
  function PartsOfEntry(key: string, data: Data, m: Marks, keyWidth: int, dataWidth: int): (r: (string, Parts, string))
    ensures AllBlank(r.0) && AllBlank(r.2) && AllBlank(r.1.p) && AllBlank(r.1.q) && AllBlank(r.1.r)
    ensures r.1.key == key && r.1.value == data.value
    ensures r.1.tail == if data.comment == "" then "" else m.comment + data.comment
    ensures (key == "" ==> r.1.p == "") && (r.1.tail == "" ==> r.1.r == "" && (data.value == "" ==> r.1.q == ""))
  {
    var k, v := Written(key, m), Written(data.value, m);
    var s := k + Padding(keyWidth, |k|) + " " + m.delimiter + " " + v;
    PaddingIsBlank(keyWidth, |k|);
    PaddingIsBlank(dataWidth, |s|);
    var pad := Padding(keyWidth, |k|) + " ";
    var pad2 := if data.comment == "" then "" else Padding(dataWidth, |s|) + " ";
    var tail := if data.comment == "" then "" else m.comment + data.comment;
    var bare := data.comment == "" && data.value == "";
    (if key == "" then pad else "",
     Parts(key, if key == "" then "" else pad, if bare then "" else " ", data.value, pad2, tail),
     if bare then " \r" else "\r")
  }

  lemma EntryIsLine(key: string, data: Data, m: Marks, keyWidth: int, dataWidth: int)
    requires Simple(m) && Trimmed(key) && Trimmed(data.value)
    ensures var (before, t, after) := PartsOfEntry(key, data, m, keyWidth, dataWidth);
      EntryLine(key, data, m, keyWidth, dataWidth) + "\r" == before + Line(t, m) + after
  {
    hide Written, Padding;
    var k, v := Written(key, m), Written(data.value, m);
    var s := k + Padding(keyWidth, |k|) + " " + m.delimiter + " " + v;
    var (before, t, after) := PartsOfEntry(key, data, m, keyWidth, dataWidth);
    WrittenEnds(key, m);
    WrittenEnds(data.value, m);
    EntryLineIs(k, v, Padding(keyWidth, |k|), Padding(dataWidth, |s|), m, data.comment);
    SurroundedLine(k, Padding(keyWidth, |k|) + " ", m.delimiter, v, t.r, t.tail, key == "", data.comment == "" && data.value == "");
  }

  lemma PaddingIsBlank(width: int, n: nat)
    ensures AllBlank(Padding(width, n))
  {
  }

  lemma EntryLineIs(k: string, v: string, pad: string, pad2: string, m: Marks, comment: string)
    ensures var s := k + pad + " " + m.delimiter + " " + v;
      && s == k + (pad + " ") + m.delimiter + " " + v
      && s + pad2 + " " + m.comment + comment == k + (pad + " ") + m.delimiter + " " + v + (pad2 + " ") + (m.comment + comment)
  {
  }

  /** The blanks at either end of a line belong to its parts or stand around it. */
  lemma SurroundedLine(k: string, p: string, d: string, v: string, r: string, tail: string, noKey: bool, bare: bool)
    requires (noKey ==> k == "") && (bare ==> v == "" && r == "" && tail == "")
    ensures k + p + d + " " + v + r + tail + "\r" ==
      (if noKey then p else "") + (k + (if noKey then "" else p) + d + (if bare then "" else " ") + v + r + tail)
      + (if bare then " \r" else "\r")
  {
  }

  lemma InkAround(t: Parts, m: Marks)
    requires Simple(m) && Proper(t, m) && RightTrimmed(t.tail)
    requires t.key == "" ==> t.p == ""
    requires t.tail == "" ==> t.r == "" && (t.value == "" ==> t.q == "")
    ensures Trimmed(Line(t, m))
  {
    hide Written;
    WrittenEnds(t.key, m);
    WrittenEnds(t.value, m);
    var k, v := Written(t.key, m), Written(t.value, m);
    var line := Line(t, m);
    PartsOf(k, t.p, m.delimiter, t.q, v, t.r, t.tail, line);
    assert line[0] == if k != "" then k[0] else m.delimiter[0];
    var n := |line|;
    assert line[n - 1] == if t.tail != "" then t.tail[|t.tail| - 1] else if v != "" then v[|v| - 1] else m.delimiter[0];
  }
}
