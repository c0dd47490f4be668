/** Case does not matter: a message whose verb, header names and transfer coding are written in
    any mix of cases is read as the same message. */
module HttpSpelling {
  import opened Wrappers
  import opened Bytes
  import opened HttpText
  import opened HttpStartLine
  import opened HttpMachine
  import opened HttpReceiver
  import opened HttpSender
  import opened HttpRoundTrip

  // ------------------------------------------------------------------ headers

  /** The same header: its name in any case, and its value if that names a transfer coding. */
  predicate SameHeader(h: (string, string), h': (string, string)) {
    && Respells(h'.0, h.0)
    && (h'.1 == h.1 || (Respells(h.0, "Transfer-Encoding") && Respells(h'.1, h.1)))
  }

  predicate SameHeaders(hs: seq<(string, string)>, hs': seq<(string, string)>) {
    |hs'| == |hs| && forall i :: 0 <= i < |hs| ==> SameHeader(hs[i], hs'[i])
  }

  lemma RespellsIsTransitive(a: string, b: string, c: string)
    requires Respells(a, b)
    ensures Respells(b, c) <==> Respells(a, c)
    ensures Respells(b, a)
  {
  }

  /** A header that the parser knows by its name is known in every spelling. */
  lemma SameMeaning(h: (string, string), h': (string, string), f: Framing)
    requires SameHeader(h, h')
    ensures Announce(f, h') == Announce(f, h)
  {
    hide EqualNoCase, ScanInt;
    EqualNoCaseIff(h.0, "Content-Length");
    EqualNoCaseIff(h'.0, "Content-Length");
    EqualNoCaseIff(h.0, "Transfer-Encoding");
    EqualNoCaseIff(h'.0, "Transfer-Encoding");
    EqualNoCaseIff(h.1, "chunked");
    EqualNoCaseIff(h'.1, "chunked");
    RespellsIsTransitive(h'.0, h.0, "Content-Length");
    RespellsIsTransitive(h'.0, h.0, "Transfer-Encoding");
    NamesDiffer(h.0);
    if h'.1 != h.1 {
      RespellsIsTransitive(h'.1, h.1, "chunked");
    }
  }

  lemma NamesDiffer(s: string)
    ensures !(Respells(s, "Content-Length") && Respells(s, "Transfer-Encoding"))
  {
  }

  /** No letter is a colon, a line end or a blank. */
  lemma StaysClean(h: (string, string), h': (string, string))
    requires SameHeader(h, h') && CleanHeader(h)
    ensures CleanHeader(h')
  {
    hide EqualNoCase, ScanInt;
    EqualNoCaseIff(h.0, "Content-Length");
    EqualNoCaseIff(h'.0, "Content-Length");
    EqualNoCaseIff(h.0, "Transfer-Encoding");
    EqualNoCaseIff(h'.0, "Transfer-Encoding");
    EqualNoCaseIff(h.1, "chunked");
    EqualNoCaseIff(h'.1, "chunked");
    EqualNoCaseIff(h.1, "identity");
    EqualNoCaseIff(h'.1, "identity");
    RespellsIsTransitive(h'.0, h.0, "Content-Length");
    RespellsIsTransitive(h'.0, h.0, "Transfer-Encoding");
    NamesDiffer(h.0);
    if h'.1 != h.1 {
      RespellsIsTransitive(h'.1, h.1, "chunked");
      RespellsIsTransitive(h'.1, h.1, "identity");
    }
    hide SameHeader;
    SameOthers(h.0, h'.0);
    if h'.1 != h.1 {
      SameOthers(h.1, h'.1);
    }
  }

  lemma SameOthers(s: string, t: string)
    requires Respells(t, s)
    ensures forall k :: 0 <= k < |s| && !('A' <= s[k] <= 'Z' || 'a' <= s[k] <= 'z') ==> t[k] == s[k]
    ensures forall k :: 0 <= k < |s| && ('A' <= s[k] <= 'Z' || 'a' <= s[k] <= 'z') ==> 'A' <= t[k] <= 'Z' || 'a' <= t[k] <= 'z'
  {
  }

  lemma {:induction false} SameFraming(f: Framing, hs: seq<(string, string)>, hs': seq<(string, string)>)
    requires SameHeaders(hs, hs')
    ensures AnnounceAll(f, hs') == AnnounceAll(f, hs)
    decreases |hs|
  {
    hide SameHeader, Announce;
    if hs != [] {
      SameMeaning(hs[0], hs'[0], f);
      SameFraming(Announce(f, hs[0]), hs[1..], hs'[1..]);
    }
  }

  // ------------------------------------------------------------------ bodies

  function WithHeaders(m: Machine, hs: seq<(string, string)>): Machine {
    m.(msg := m.msg.(headers := hs))
  }

  /** Behind the head the headers that were told do not matter any more. */
  lemma {:induction false} BodyIgnoresHeaders(c: Client, m: Machine, hs: seq<(string, string)>, s: string)
    requires !m.state.Leader? && !m.state.Headers?
    ensures Feed(c, WithHeaders(m, hs), s) == WithHeaders(Feed(c, m, s), hs)
    decreases s
  {
    hide Step;
    if s != "" {
      StepIgnoresHeaders(c, m, hs, s[0]);
      BodyIgnoresHeaders(c, Step(c, m, s[0]), hs, s[1..]);
    }
  }

  lemma StepIgnoresHeaders(c: Client, m: Machine, hs: seq<(string, string)>, b: char)
    requires !m.state.Leader? && !m.state.Headers?
    ensures Step(c, WithHeaders(m, hs), b) == WithHeaders(Step(c, m, b), hs)
    ensures !Step(c, m, b).state.Leader? && !Step(c, m, b).state.Headers?
  {
    hide LineCore, TrimRight;
    if m.done.None? && OnLine(m.state) && b == '\n' {
      LineIgnoresHeaders(c, m.(line := ""), hs, TrimRight(m.line));
    }
  }

  lemma LineIgnoresHeaders(c: Client, m: Machine, hs: seq<(string, string)>, line: string)
    requires OnLine(m.state) && !m.state.Leader? && !m.state.Headers?
    ensures var r := LineCore(c, m, line, "");
      && LineCore(c, WithHeaders(m, hs), line, "") == r.(m := WithHeaders(r.m, hs))
      && !r.m.state.Leader? && !r.m.state.Headers?
  {
    hide HexLine;
  }

  // ------------------------------------------------------------------ messages

  /** Two heads that differ in the case of header names and transfer codings only, and maybe in
      how the verb is written, in front of any body: the same start line, framing, body and
      result, with the headers as they were written. */
  lemma AnySpelling(c: Client, start: StartLine, leader: string, leader': string,
                    hs: seq<(string, string)>, hs': seq<(string, string)>, body: string)
    requires Says(leader, start) && Says(leader', start) && Accepting(c, start) && SameHeaders(hs, hs')
    requires forall h :: h in hs ==> CleanHeader(h) && Kept(h)
    ensures var m := Reference(c, WellFormedHead(leader, hs) + body);
      m.msg.headers == hs && Reference(c, WellFormedHead(leader', hs') + body) == WithHeaders(m, hs')
  {
    hide Feed, CleanHeader, Kept, AnnounceAll, HeadersText, Says, Accepting, SameHeader;
    forall h' | h' in hs' ensures CleanHeader(h') && Kept(h') {
      var i :| 0 <= i < |hs'| && hs'[i] == h';
      assert hs[i] in hs;
      StaysClean(hs[i], hs'[i]);
      StaysKept(hs[i], hs'[i]);
    }
    AllAreKept(hs);
    AllAreKept(hs');
    HeadReadsBack(c, leader, start, hs);
    HeadReadsBack(c, leader', start, hs');
    SameFraming(Framing(false, SIZE_UNKNOWN), hs, hs');
    FeedConcat(c, Start(), WellFormedHead(leader, hs), body);
    FeedConcat(c, Start(), WellFormedHead(leader', hs'), body);
    var m := Feed(c, Start(), WellFormedHead(leader, hs));
    BodyIgnoresHeaders(c, m, hs', body);
    BodyIgnoresHeaders(c, m, hs, body);
    assert WithHeaders(m, hs) == m;
  }

  lemma StaysKept(h: (string, string), h': (string, string))
    requires SameHeader(h, h') && CleanHeader(h) && CleanHeader(h') && Kept(h)
    ensures Kept(h')
  {
    hide EqualNoCase, ScanInt;
    NoNul(h.0, 0);
    NoNul(h.1, 0);
    NoNul(h'.0, 0);
    NoNul(h'.1, 0);
  }

  lemma {:induction false} AllAreKept(hs: seq<(string, string)>)
    requires forall h :: h in hs ==> Kept(h)
    ensures KeptHeaders(hs) == hs
  {
    hide Kept;
    if hs != [] {
      AllAreKept(hs[1..]);
      assert hs == [hs[0]] + hs[1..];
    }
  }

  /** A request line says the same with its verb in any mix of cases. */
  lemma VerbAnyCase(name: string, verb: Verb, path: string, version: Version)
    requires Respells(name, VerbName(verb)) && Tellable(RequestLine(verb, path, version))
    ensures Says(RequestText(name, path, version), RequestLine(verb, path, version))
  {
    hide VerbOf, VerbName, ScanRequest;
    VerbSpelledIff(name, verb);
    VerbIsLetters(verb);
    SameOthers(VerbName(verb), name);
    RequestReadsBack(name, verb, path, version);
  }

  lemma VerbIsLetters(v: Verb)
    ensures VerbName(v) != "" && forall k :: 0 <= k < |VerbName(v)| ==> 'A' <= VerbName(v)[k] <= 'Z'
  {
  }

  // ------------------------------------------------------------------ what the headers are known by

  /** A length under its name in any mix of cases: so many bytes are the body, and the message
      ends with them. */
  lemma LengthAnyCase(c: Client, start: StartLine, leader: string, name: string, body: string)
    requires Says(leader, start) && Accepting(c, start) && Respells(name, "Content-Length") && |body| < SIZE_UNKNOWN
    ensures var h := (name, ToDecimal(|body|));
      var m := Reference(c, WellFormedHead(leader, [h]) + body);
      m.done == Some(NoError) && m.rest == "" && !m.loose && m.msg == Message(Some(start), [h], body)
  {
    hide Feed, HeadersText, Says, Accepting, Kept, CleanHeader, AnnounceAll, ToDecimal, Respells, WellFormedHead, Step, LineCore;
    var h := (name, ToDecimal(|body|));
    LengthIsClean(name, |body|);
    OneHeaderReadsBack(c, leader, start, h);
    LengthIsTold(name, |body|);
    FeedConcat(c, Start(), WellFormedHead(leader, [h]), body);
    var m := Feed(c, Start(), WellFormedHead(leader, [h]));
    Unlimited(c, start);
    BodyOfLength(c, Start().(msg := Message(Some(start), [h], "")), body);
  }

  lemma BodyOfLength(c: Client, m: Machine, body: string)
    requires c.capacity.None? && m.done.None? && !m.chunked && m.rest == "" && m.msg.body == "" && |body| < SIZE_UNKNOWN
    ensures var r := Feed(c, Settle(m.(state := Data, size := |body|)), body);
      r.done == Some(NoError) && r.rest == "" && r.loose == m.loose && r.msg == m.msg.(body := body)
  {
    hide Step, Feed;
    var m1 := m.(state := Data, size := |body|);
    if body == "" {
      FeedAfterEnd(c, Settle(m1), "");
    } else {
      FeedData(c, m1, body);
    }
  }

  lemma OneHeaderReadsBack(c: Client, leader: string, start: StartLine, h: (string, string))
    requires Says(leader, start) && Accepting(c, start) && CleanHeader(h) && Kept(h)
    ensures var f := AnnounceAll(Framing(false, SIZE_UNKNOWN), [h]);
      Feed(c, Start(), WellFormedHead(leader, [h]))
      == Settle(Start().(state := if f.chunked then ChunkSize else Data, chunked := f.chunked, size := f.size,
                         msg := Message(Some(start), [h], "")))
  {
    hide Feed, HeadersText, Says, Accepting, Kept, CleanHeader, AnnounceAll, WellFormedHead;
    AllAreKept([h]);
    HeadReadsBack(c, leader, start, [h]);
  }

  lemma Unlimited(c: Client, start: StartLine)
    requires Accepting(c, start)
    ensures c.capacity.None?
  {
  }

  lemma LengthIsClean(name: string, n: Word)
    requires Respells(name, "Content-Length")
    ensures CleanHeader((name, ToDecimal(n))) && Kept((name, ToDecimal(n))) && ScanInt(ToDecimal(n)) == Some(n)
  {
    hide ToDecimal, EqualNoCase, ScanInt;
    EqualNoCaseIff(name, "Transfer-Encoding");
    NamesDiffer(name);
    DecimalReadsBack(n);
    DecimalIsShort(n, 10);
  }

  function Power10(k: nat): nat {
    if k == 0 then 1 else 10 * Power10(k - 1)
  }

  lemma {:induction false} DecimalIsShort(n: nat, k: nat)
    requires n < Power10(k) && k > 0
    ensures |ToDecimal(n)| <= k
  {
    if n >= 10 {
      DecimalIsShort(n / 10, k - 1);
    }
  }

  lemma LengthIsTold(name: string, n: Word)
    requires Respells(name, "Content-Length") && ScanInt(ToDecimal(n)) == Some(n)
    ensures AnnounceAll(Framing(false, SIZE_UNKNOWN), [(name, ToDecimal(n))]) == Framing(false, n)
  {
    hide ToDecimal, EqualNoCase, ScanInt;
    EqualNoCaseIff(name, "Content-Length");
    assert [(name, ToDecimal(n))][1..] == [];
  }

  /** The chunked coding under its name, both in any mix of cases: the chunks are the body. */
  lemma ChunkedAnyCase(c: Client, start: StartLine, leader: string, name: string, value: string, blocks: seq<string>)
    requires Says(leader, start) && Accepting(c, start)
    requires Respells(name, "Transfer-Encoding") && Respells(value, "chunked")
    requires forall i :: 0 <= i < |blocks| ==> 1 <= |blocks[i]| < SIZE_UNKNOWN
    ensures var h, body := (name, value), ChunksText(blocks) + LAST_CHUNK;
      var m := Reference(c, WellFormedHead(leader, [h]) + body);
      m.done == Some(NoError) && m.rest == "" && !m.loose && m.msg == Message(Some(start), [h], Concat(blocks))
  {
    hide Feed, HeadersText, Says, Accepting, Kept, ChunksText, CleanHeader, AnnounceAll, Respells, WellFormedHead, Step, LineCore;
    var h, body := (name, value), ChunksText(blocks) + LAST_CHUNK;
    CodingIsClean(name, value);
    OneHeaderReadsBack(c, leader, start, h);
    FeedConcat(c, Start(), WellFormedHead(leader, [h]), body);
    var m := Feed(c, Start(), WellFormedHead(leader, [h]));
    Unlimited(c, start);
    NoTrailers();
    ChunksReadBack(c, m, blocks, []);
  }

  lemma CodingIsClean(name: string, value: string)
    requires Respells(name, "Transfer-Encoding") && Respells(value, "chunked")
    ensures CleanHeader((name, value)) && Kept((name, value))
    ensures AnnounceAll(Framing(false, SIZE_UNKNOWN), [(name, value)]) == Framing(true, SIZE_UNKNOWN)
  {
    hide EqualNoCase, ScanInt;
    EqualNoCaseIff(name, "Transfer-Encoding");
    EqualNoCaseIff(name, "Content-Length");
    EqualNoCaseIff(value, "chunked");
    NamesDiffer(name);
    assert [(name, value)][1..] == [];
  }
}
