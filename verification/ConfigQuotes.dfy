/** Which texts survive being written and read: the quotes in them are the only trouble. */
module ConfigQuotes {
  import opened Blanks
  import opened ConfigText
  import opened ConfigRoundTrip

  function Quotes(s: string): nat { multiset(s)[QUOTE] }

  function Others(s: string): int { |s| - Quotes(s) }

  lemma CountsOfTwo(a: string, b: string)
    ensures Quotes(a + b) == Quotes(a) + Quotes(b) && Others(a + b) == Others(a) + Others(b)
  {
  }

  lemma CountsOfOne(c: char)
    ensures Quotes([c]) == (if c == QUOTE then 1 else 0) && Others([c]) == if c == QUOTE then 0 else 1
  {
  }

  lemma OthersAreSome(s: string)
    ensures Quotes(s) <= |s|
  {
    if s != "" {
      OthersAreSome(s[1..]);
      CountsOfOne(s[0]);
      CountsOfTwo([s[0]], s[1..]);
      assert s == [s[0]] + s[1..];
    }
  }

  /** The value read in has no more of anything than the line, and at most half of the quotes:
      outside quotes the first one only opens. */
  lemma {:induction false} ScanCounts(line: string, m: Marks, i: nat, quoted: bool, f: Fields)
    requires Simple(m) && i <= |line| && f.flag == 1
    ensures var r, q := Scan(line, m, i, quoted, f).0, Quotes(line[i..]);
      && Others(r.value) <= Others(f.value) + Others(line[i..])
      && 2 * Quotes(r.value) + (if !quoted && q > 0 then 1 else 0) <= 2 * Quotes(f.value) + q
    decreases |line| - i
  {
    hide Scan, Quotes, Others;
    CountsAreSmall(line[i..]);
    if i == |line| {
      ScanAtEnd(line, m, i, quoted, f);
    } else {
      var c, rest := line[i], line[i + 1..];
      CountsAreSmall(rest);
      assert line[i..] == [c] + rest;
      CountsOfOne(c);
      CountsOfTwo([c], rest);
      CountsOfTwo(f.value, [c]);
      if quoted {
        QuotedStep(line, m, i, f);
        if c != QUOTE {
          ScanCounts(line, m, i + 1, true, f.Add([c]));
        } else if i + 1 < |line| && line[i + 1] == QUOTE {
          assert rest == [QUOTE] + line[i + 2..];
          CountsOfTwo([QUOTE], line[i + 2..]);
          ScanCounts(line, m, i + 2, true, f.Add([QUOTE]));
        } else {
          ScanCounts(line, m, i + 1, false, f);
        }
      } else {
        OpenStep(line, m, i, f);
        if c == QUOTE {
          ScanCounts(line, m, i + 1, true, f);
        } else if c != m.comment[0] {
          ScanCounts(line, m, i + 1, false, f.Add([c]));
        }
      }
    }
  }

  lemma ScanAtEnd(line: string, m: Marks, i: nat, quoted: bool, f: Fields)
    requires Simple(m) && i == |line|
    ensures Scan(line, m, i, quoted, f).0 == f
  {
  }

  /** Replacing the quotes loses nothing: each one is the first or the last character. */
  predicate Lossless(s: string, i: nat)
    requires i <= |s|
    decreases |s| - i
  {
    var n := FindQuote(s, i);
    n == |s| || ((n == 0 || n == |s| - 1) && Lossless(Next(s, n), n + 2))
  }

  /** At most twice the quotes and as much of the rest; less of either if something is lost. */
  lemma {:induction false} ReplacedCounts(s: string, i: nat)
    requires i <= |s|
    ensures var r, most := Replaced(s, i), Quotes(s[..i]) + 2 * Quotes(s[i..]);
      && Quotes(r) <= most && Others(r) <= Others(s)
      && (Lossless(s, i) || Quotes(r) <= most - 2 || Others(r) < Others(s))
      && (Quotes(s) > 0 ==> Quotes(r) > 0)
    decreases |s| - i
  {
    hide Quotes, Others, Lossless, Replaced, Next, Lost;
    var n := FindQuote(s, i);
    ReplacedStep(s, i);
    if n == |s| {
      CountsOfTwo(s[..i], s[i..]);
      assert s == s[..i] + s[i..];
    } else {
      NextCounts(s, i, n);
      ReplacedCounts(Next(s, n), n + 2);
    }
  }

  lemma NextCounts(s: string, i: nat, n: nat)
    requires i <= n < |s| && n == FindQuote(s, i)
    ensures var s', lost := Next(s, n), Lost(s, n);
      && n + 2 <= |s'| && Quotes(s'[..n + 2]) == Quotes(s[..i]) + 2
      && Quotes(s[i..]) == 1 + Quotes(lost) + Quotes(s'[n + 2..])
      && Others(s) == Others(s') + Others(lost) && Others(lost) >= 0
      && (lost != "" ==> Quotes(lost) + Others(lost) >= 1) && Quotes(s') > 0
  {
    hide Quotes, Others;
    var lost, rest, s' := Lost(s, n), Rest(s, n), Next(s, n);
    assert s'[..n + 2] == s[..i] + s[i..n] + [QUOTE] + [QUOTE] && s'[n + 2..] == rest && s' == s'[..n + 2] + rest;
    assert s[i..] == s[i..n] + [QUOTE] + lost + rest;
    assert s == s[..i] + s[i..];
    CountsOfReplacement(s[..i], s[i..n], lost, rest);
    CountsOfTwo(s[..i], s[i..]);
    CountsOfTwo(s'[..n + 2], rest);
    CountsOfPlain(s[i..n]);
    CountsAreSmall(lost);
  }

  /** What goes with a quote at position n. */
  function Lost(s: string, n: nat): string
    requires n < |s|
  {
    if 2 * n + 1 <= |s| then s[n + 1..2 * n + 1] else s[n + 1..]
  }

  lemma ReplacedStep(s: string, i: nat)
    requires i <= |s|
    ensures var n := FindQuote(s, i);
      if n == |s| then Replaced(s, i) == s && Lossless(s, i)
      else
        && n + 2 <= |Next(s, n)| && Replaced(s, i) == Replaced(Next(s, n), n + 2)
        && (Lossless(s, i) <==> Lost(s, n) == "" && Lossless(Next(s, n), n + 2))
        && |Next(s, n)| - (n + 2) < |s| - i
  {
    hide Replaced, Next, Lost;
    ReplacedUnfolds(s, i);
    var n := FindQuote(s, i);
    if n < |s| {
      LostNone(s, n);
    }
  }

  lemma LostNone(s: string, n: nat)
    requires n < |s|
    ensures Lost(s, n) == "" <==> n == 0 || n == |s| - 1
  {
  }

  lemma CountsOfPlain(s: string)
    requires forall k :: 0 <= k < |s| ==> s[k] != QUOTE
    ensures Quotes(s) == 0 && Others(s) == |s|
  {
  }

  lemma CountsOfReplacement(a: string, plain: string, lost: string, rest: string)
    ensures var before, t := a + plain + [QUOTE] + [QUOTE], plain + [QUOTE] + lost + rest;
      && Quotes(before) == Quotes(a) + Quotes(plain) + 2 && Others(before) == Others(a) + Others(plain)
      && Quotes(t) == Quotes(plain) + 1 + Quotes(lost) + Quotes(rest)
      && Others(t) == Others(plain) + Others(lost) + Others(rest)
  {
    hide Quotes, Others;
    CountsOfOne(QUOTE);
    CountsOfTwo(a + plain + [QUOTE], [QUOTE]);
    CountsOfTwo(a + plain, [QUOTE]);
    CountsOfTwo(a, plain);
    CountsOfTwo(plain + [QUOTE] + lost, rest);
    CountsOfTwo(plain + [QUOTE], lost);
    CountsOfTwo(plain, [QUOTE]);
  }

  lemma CountsAreSmall(s: string)
    ensures Quotes(s) + Others(s) == |s| && Others(s) >= 0
  {
    OthersAreSome(s);
  }

  lemma LosslessIsAtEnds(s: string)
    requires Lossless(s, 0)
    ensures QuotesAtEnds(s)
  {
    hide Lossless, Lost, QuotesAtEnds, Replaced;
    ReplacedStep(s, 0);
    var n := FindQuote(s, 0);
    if n < |s| {
      LostNone(s, n);
    }
    if n == 0 < |s| {
      var s' := Next(s, 0);
      assert s' == [QUOTE, QUOTE] + s[1..];
      ReplacedStep(s', 2);
      OnlyLast(s, s');
    } else {
      NoneBefore(s);
    }
  }

  lemma NoneBefore(s: string)
    requires FindQuote(s, 0) >= |s| - 1
    ensures QuotesAtEnds(s)
  {
  }

  lemma OnlyLast(s: string, s': string)
    requires s != "" && s' == [QUOTE, QUOTE] + s[1..]
    requires var k := FindQuote(s', 2);
      k < |s'| ==> Lost(s', k) == ""
    ensures QuotesAtEnds(s)
  {
    var k := FindQuote(s', 2);
    if k < |s'| {
      LostNone(s', k);
    }
    forall j | 0 < j < |s| - 1 ensures s[j] != QUOTE {
      assert s[j] == s'[j + 1];
    }
  }

  /** Trimming takes no quotes. */
  lemma TrimCounts(s: string)
    ensures Quotes(Trim(s)) == Quotes(s) && Others(Trim(s)) <= Others(s)
  {
    hide Quotes, Others, Trim;
    var front, back := TrimSplits(s);
    CountsOfPlain(front);
    CountsOfPlain(back);
    CountsOfTwo(front + Trim(s), back);
    CountsOfTwo(front, Trim(s));
  }

  /** A key or value survives being written and read, wherever it stands on a line, exactly if
      it has no quote, or has quotes at its ends only and a mark: a quote elsewhere takes
      characters with it, and quotes without a mark are doubled but not put in quotes. */
  lemma SurvivesIff(s: string, m: Marks)
    requires Simple(m) && Trimmed(s)
    ensures Trim(ReadOf(s, m)) == s <==> Storable(s, m)
  {
    hide Trim, Storable, ReadOf;
    if Storable(s, m) {
      StorableIsRead(s, m);
      TrimOfTrimmed(s);
    } else {
      OthersDoNot(s, m);
    }
  }

  /** An entry survives being saved and loaded, with or without a comment, exactly if its key
      and its value are storable. */
  lemma EntrySurvivesIff(key: string, data: Data, m: Marks, keyWidth: int, dataWidth: int)
    requires Simple(m) && Trimmed(key) && Trimmed(data.value) && RightTrimmed(data.comment)
    ensures Parse(Trim(EntryLine(key, data, m, keyWidth, dataWidth) + "\r"), m) == Entry(key, data)
      <==> Storable(key, m) && Storable(data.value, m)
  {
    hide Trim, Parse, Storable, EntryLine, ReadOf;
    EntryReadsAs(key, data, m, keyWidth, dataWidth);
    SurvivesIff(key, m);
    SurvivesIff(data.value, m);
  }

  lemma OthersDoNot(s: string, m: Marks)
    requires Simple(m) && Trimmed(s) && !Storable(s, m)
    ensures Trim(ReadOf(s, m)) != s
  {
    hide Scan, Replaced, Lossless, Quotes, Others, Trim, Doubled, ReadOf;
    var t, w, f := Replaced(s, 0), Written(s, m), Fields(1, "", "");
    var r := ReadOf(s, m);
    ReadAlone(s, m);
    HasQuotes(s);
    ReplacedCounts(s, 0);
    CountsAreSmall(s[..0]);
    assert s[0..] == s && w[0..] == w;
    ScanCounts(w, m, 0, false, f);
    CountsAreSmall("");
    TrimCounts(r);
    if w == t {
      assert Quotes(r) < Quotes(s);
    } else {
      CountsOfTwo([QUOTE] + t, [QUOTE]);
      CountsOfTwo([QUOTE], t);
      CountsOfOne(QUOTE);
      if Lossless(s, 0) {
        LosslessIsAtEnds(s);
        ReplacedIsDoubled(s);
        ContainsIff(t, m);
        DoubledKeepsMarks(s, m);
      }
    }
  }

  lemma ReadAlone(s: string, m: Marks)
    requires Simple(m)
    ensures Scan(Written(s, m), m, 0, false, Fields(1, "", "")).0.value == ReadOf(s, m)
  {
    hide Scan, Written, ReadOf;
    var w, f := Written(s, m), Fields(1, "", "");
    assert w[0..|w|] == w;
    ReadWritten(w, m, 0, s, f);
    ScanEnds(w, m, |w|, f.Add(ReadOf(s, m)));
    assert "" + ReadOf(s, m) == ReadOf(s, m);
  }

  lemma HasQuotes(s: string)
    requires !NoQuote(s)
    ensures Quotes(s) > 0
  {
    var k :| 0 <= k < |s| && s[k] == QUOTE;
    assert s[k] in multiset(s);
  }

  /** A quote in the middle takes as many characters with it as there are in front of it. */
  lemma QuoteInTheMiddle()
    ensures Replaced("ab\"cdef", 0) == "ab\"\"ef"
  {
    var s := "ab\"cdef";
    assert FindQuote(s, 2) == 2 && FindQuote(s, 1) == 2 && FindQuote(s, 0) == 2;
    var t := "ab\"\"ef";
    assert s[..2] + [QUOTE, QUOTE] + s[5..] == t;
    assert FindQuote(t, 6) == 6 && FindQuote(t, 5) == 6 && FindQuote(t, 4) == 6;
  }
}
