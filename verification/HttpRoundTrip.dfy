/** What the sender prints, the parser reads back: start line, headers and document. */
module HttpRoundTrip {
  import opened Wrappers
  import opened Bytes
  import opened HttpText
  import opened HttpStartLine
  import opened HttpMachine
  import opened HttpReceiver
  import opened HttpSender

  /** A text that survives as one line of the head: no line ends, no blanks at its end. */
  predicate CleanEnd(s: string) {
    '\n' !in s && (s != "" ==> !IsSpace(s[|s| - 1]))
  }

  /** A header that is one line with one name and one value, and that the parser accepts. */
  predicate CleanHeader(h: (string, string)) {
    && ':' !in h.0 && '\n' !in h.0 && '\0' !in h.0
    && CleanEnd(h.1) && '\0' !in h.1 && (h.1 != "" ==> !IsSpace(h.1[0]))
    && (EqualNoCase(h.0, "Content-Length") ==> ScanInt(h.1).Some?)
    && (EqualNoCase(h.0, "Transfer-Encoding") ==> EqualNoCase(h.1, "chunked") || EqualNoCase(h.1, "identity"))
  }

  function KeptHeaders(hs: seq<(string, string)>): seq<(string, string)> {
    if hs == [] then [] else (if Kept(hs[0]) then [hs[0]] else []) + KeptHeaders(hs[1..])
  }

  datatype Framing = Framing(chunked: bool, size: Word)

  function Announce(f: Framing, h: (string, string)): Framing {
    if EqualNoCase(h.0, "Content-Length") then
      var scan := ScanInt(h.1);
      if scan.None? then f else f.(size := scan.value)
    else if EqualNoCase(h.0, "Transfer-Encoding") then f.(chunked := EqualNoCase(h.1, "chunked"))
    else f
  }

  /** The framing that a list of headers announces; the last word counts. */
  function AnnounceAll(f: Framing, hs: seq<(string, string)>): Framing
    decreases hs
  {
    if hs == [] then f else AnnounceAll(Announce(f, hs[0]), hs[1..])
  }

  // ------------------------------------------------------------------ lines

  lemma {:induction false} TrimEndStops(s: string, i: nat, j: nat)
    requires i <= j <= |s| && (i > 0 ==> !IsSpace(s[i - 1]))
    requires forall k :: i <= k < j ==> IsSpace(s[k])
    ensures TrimEnd(s, j) == i
    decreases j
  {
    if i < j {
      TrimEndStops(s, i, j - 1);
    }
  }

  lemma FeedTextLine(c: Client, m: Machine, s: string)
    requires m.done.None? && OnLine(m.state) && m.line == "" && CleanEnd(s)
    ensures Feed(c, m, s + CRLF) == Close(LineCore(c, m, s, ""))
  {
    hide Step, LineCore;
    var l := s + "\r";
    assert s + CRLF == l + ['\n'] + "";
    FeedLine(c, m, l, "");
    TrimEndStops(l, |s|, |l|);
    assert l[..|s|] == s;
  }

  lemma {:induction false} ColonAt(s: string, i: nat, k: nat)
    requires i <= k < |s| && s[k] == ':'
    requires forall j :: i <= j < k ==> s[j] != ':' && s[j] != '\0'
    ensures FindColon(s, i) == Some(k)
    decreases k - i
  {
    if i < k {
      ColonAt(s, i + 1, k);
    }
  }

  /** One printed header line is read as the name and the value it was printed from. */
  lemma HeaderReadsBack(c: Client, m: Machine, h: (string, string))
    requires m.done.None? && m.state.Headers? && m.line == "" && CleanHeader(h)
    ensures Feed(c, m, HeaderText(h)) == HeaderField(m, h.0, h.1, "").m
    ensures HeaderField(m, h.0, h.1, "").m.state.Headers?
  {
    hide Step, HeaderField, EqualNoCase, ScanInt;
    NoNul(h.0, 0);
    NoNul(h.1, 0);
    assert Printed(h.0) == h.0 && Printed(h.1) == h.1;
    var k := |h.0|;
    var full := h.0 + ": " + h.1;
    assert HeaderText(h) == full + CRLF;
    assert full[k] == ':' && full[k + 1] == ' ' && full[..k] == h.0;
    if h.1 == "" {
      var l := full + "\r";
      assert full + CRLF == l + ['\n'] + "";
      FeedLine(c, m, l, "");
      TrimEndStops(l, k + 1, |l|);
      LineIsHeader(c, m, l[..k + 1], h);
    } else {
      assert full[|full| - 1] == h.1[|h.1| - 1] && full[k + 2] == h.1[0];
      FeedTextLine(c, m, full);
      LineIsHeader(c, m, full, h);
    }
  }

  lemma LineIsHeader(c: Client, m: Machine, line: string, h: (string, string))
    requires m.done.None? && m.state.Headers? && m.line == "" && CleanHeader(h)
    requires |line| > |h.0| && line[..|h.0|] == h.0 && line[|h.0|] == ':'
    requires if h.1 == "" then |line| == |h.0| + 1
             else line == h.0 + ": " + h.1
    ensures Close(LineCore(c, m, line, "")) == HeaderField(m, h.0, h.1, "").m
    ensures HeaderField(m, h.0, h.1, "").m.state.Headers?
  {
    var k := |h.0|;
    assert forall j :: 0 <= j < k ==> line[j] == h.0[j];
    ColonAt(line, 0, k);
    if h.1 == "" {
      assert line[k + 1..] == "";
    } else {
      assert line[k + 2] == h.1[0] && SkipSpace(line, k + 2) == k + 2;
      assert SkipSpace(line, k + 1) == k + 2 && line[k + 2..] == h.1;
    }
    FieldAccepted(m, h);
    HeaderLineFrame(m, line, "");
  }

  lemma FieldAccepted(m: Machine, h: (string, string))
    requires CleanHeader(h)
    ensures HeaderField(m, h.0, h.1, "") == LineResult(HeaderField(m, h.0, h.1, "").m, true, NoError)
  {
    assert h.1 + "" == h.1;
  }

  /** The parser after a list of clean headers. */
  function AfterHeaders(m: Machine, hs: seq<(string, string)>): Machine {
    var f := AnnounceAll(Framing(m.chunked, m.size), hs);
    m.(chunked := f.chunked, size := f.size, msg := m.msg.(headers := m.msg.headers + hs))
  }

  lemma OneHeader(m: Machine, h: (string, string))
    requires CleanHeader(h)
    ensures HeaderField(m, h.0, h.1, "").m == AfterHeaders(m, [h])
  {
    assert h.1 + "" == h.1;
    assert [h][1..] == [];
    assert AnnounceAll(Framing(m.chunked, m.size), [h]) == Announce(Framing(m.chunked, m.size), h);
  }

  lemma AfterTwo(m: Machine, h: (string, string), hs: seq<(string, string)>)
    ensures AfterHeaders(AfterHeaders(m, [h]), hs) == AfterHeaders(m, [h] + hs)
  {
    hide Announce;
    assert ([h] + hs)[1..] == hs && [h][1..] == [];
    assert AnnounceAll(Framing(m.chunked, m.size), [h]) == Announce(Framing(m.chunked, m.size), h);
    assert m.msg.headers + [h] + hs == m.msg.headers + ([h] + hs);
  }

  lemma {:induction false} HeadersReadBack(c: Client, m: Machine, hs: seq<(string, string)>)
    requires m.done.None? && m.state.Headers? && m.line == ""
    requires forall h :: h in KeptHeaders(hs) ==> CleanHeader(h)
    ensures Feed(c, m, HeadersText(hs)) == AfterHeaders(m, KeptHeaders(hs))
    decreases hs
  {
    hide Step, HeaderText, HeaderField, CleanHeader;
    if hs == [] {
      assert m.msg.headers + [] == m.msg.headers;
    } else if Kept(hs[0]) {
      var h, rest := hs[0], KeptHeaders(hs[1..]);
      assert KeptHeaders(hs) == [h] + rest;
      assert forall x :: x in rest ==> x in KeptHeaders(hs);
      FeedConcat(c, m, HeaderText(h), HeadersText(hs[1..]));
      HeaderReadsBack(c, m, h);
      OneHeader(m, h);
      HeadersReadBack(c, AfterHeaders(m, [h]), hs[1..]);
      AfterTwo(m, h, rest);
    } else {
      assert "" + HeadersText(hs[1..]) == HeadersText(hs[1..]);
      assert KeptHeaders(hs) == KeptHeaders(hs[1..]);
      HeadersReadBack(c, m, hs[1..]);
    }
  }

  // --------------------------------------------------------------- document

  /** The parser in front of a chunk-size line. */
  predicate AtChunk(c: Client, m: Machine) {
    && m.done.None? && m.state.ChunkSize? && m.chunked && m.line == "" && m.rest == ""
    && c.capacity.None?
  }

  function WithBody(m: Machine, data: string): Machine {
    m.(msg := m.msg.(body := m.msg.body + data), size := 0)
  }

  lemma ToHexIsClean(n: nat)
    ensures CleanEnd(ToHex(n, 8)) && ToHex(n, 8) != ""
  {
    assert '\n' !in ToHex(n, 8);
  }

  /** One chunk is read as its data. */
  lemma ChunkReadsBack(c: Client, m: Machine, block: string)
    requires AtChunk(c, m) && 1 <= |block| < SIZE_UNKNOWN
    ensures Feed(c, m, ChunkText(block)) == WithBody(m, block)
  {
    hide Step, ToHex, HexLine;
    var size := ToHex(|block|, 8);
    ToHexIsClean(|block|);
    ChunkSizeReadsBack(|block|);
    assert ChunkText(block) == (size + CRLF) + (block + CRLF);
    FeedConcat(c, m, size + CRLF, block + CRLF);
    FeedTextLine(c, m, size);
    var m1 := m.(size := |block|, state := Data);
    FeedConcat(c, m1, block, CRLF);
    FeedData(c, m1, block);
    var m2 := WithBody(m, block).(state := ChunkTerm);
    assert "" + CRLF == CRLF;
    FeedTextLine(c, m2, "");
  }

  /** A line that may stand among the trailers: it holds something. */
  predicate TrailerLine(l: string) { '\n' !in l && TrimRight(l) != "" }

  function TrailerText(lines: seq<string>): string {
    if lines == [] then "" else lines[0] + ['\n'] + TrailerText(lines[1..])
  }

  /** The chunk of no bytes, trailers, and a blank line. */
  function LastChunk(lines: seq<string>): string {
    "0" + CRLF + (TrailerText(lines) + CRLF)
  }

  lemma {:induction false} TrailersAreSkipped(c: Client, m: Machine, lines: seq<string>)
    requires m.done.None? && m.state.Trailers? && m.line == "" && forall i :: 0 <= i < |lines| ==> TrailerLine(lines[i])
    ensures Feed(c, m, TrailerText(lines) + CRLF) == Finish(m, NoError)
    decreases lines
  {
    hide Step, LineCore, TrailerLine;
    if lines == [] {
      assert TrailerText([]) + CRLF == "" + CRLF;
      FeedTextLine(c, m, "");
      TrailerIsSkipped(c, m, "");
    } else {
      var rest := TrailerText(lines[1..]) + CRLF;
      assert TrailerText(lines) + CRLF == lines[0] + ['\n'] + rest;
      TrailerIsSkipped(c, m, lines[0]);
      FeedLine(c, m, lines[0], rest);
      TrailersAreSkipped(c, m, lines[1..]);
    }
  }

  lemma TrailerIsSkipped(c: Client, m: Machine, l: string)
    requires m.done.None? && m.state.Trailers? && m.line == ""
    ensures TrailerLine(l) ==> '\n' !in l && Close(LineCore(c, m, TrimRight(l), "")) == m
    ensures Close(LineCore(c, m, "", "")) == Finish(m, NoError)
  {
    hide TrimRight;
  }

  lemma LastChunkReadsBack(c: Client, m: Machine, lines: seq<string>)
    requires AtChunk(c, m) && forall i :: 0 <= i < |lines| ==> TrailerLine(lines[i])
    ensures Feed(c, m, LastChunk(lines)) == Finish(m.(size := 0), NoError)
  {
    hide Step, HexLine, TrailerLine;
    FeedConcat(c, m, "0" + CRLF, TrailerText(lines) + CRLF);
    ZeroLine();
    FeedTextLine(c, m, "0");
    TrailersAreSkipped(c, m.(size := 0, state := Trailers), lines);
  }

  lemma NoTrailers()
    ensures LastChunk([]) == LAST_CHUNK
  {
  }

  lemma ZeroLine()
    ensures HexLine("0") == Some(0)
  {
    assert HexEnd("0", 0) == 1;
    assert HexValue("0", 0, 1) == 0;
  }

  /** A chunked body is read as its blocks put together again, whatever trailers it has, and
      nothing is left over. */
  lemma {:induction false} ChunksReadBack(c: Client, m: Machine, blocks: seq<string>, lines: seq<string>)
    requires AtChunk(c, m) && forall i :: 0 <= i < |lines| ==> TrailerLine(lines[i])
    requires forall i :: 0 <= i < |blocks| ==> 1 <= |blocks[i]| < SIZE_UNKNOWN
    ensures Feed(c, m, ChunksText(blocks) + LastChunk(lines)) == Finish(WithBody(m, Concat(blocks)), NoError)
    decreases blocks
  {
    hide Step, ChunkText, LastChunk, TrailerLine;
    if blocks == [] {
      assert ChunksText(blocks) + LastChunk(lines) == LastChunk(lines);
      assert m.msg.body + "" == m.msg.body;
      LastChunkReadsBack(c, m, lines);
    } else {
      var rest := ChunksText(blocks[1..]) + LastChunk(lines);
      assert ChunksText(blocks) + LastChunk(lines) == ChunkText(blocks[0]) + rest;
      FeedConcat(c, m, ChunkText(blocks[0]), rest);
      ChunkReadsBack(c, m, blocks[0]);
      ChunksReadBack(c, WithBody(m, blocks[0]), blocks[1..], lines);
      assert m.msg.body + blocks[0] + Concat(blocks[1..]) == m.msg.body + Concat(blocks);
    }
  }

  // ---------------------------------------------------------------- message

  /** A client that lets every well-formed message of its kind through. */
  predicate Accepting(c: Client, start: StartLine) {
    && c.capacity.None? && c.kind == KindOf(start)
    && forall chunked, size: Word :: c.headersDone(chunked, size) == (NoError, size)
  }

  function FramingOf(headers: seq<(string, string)>): Framing {
    AnnounceAll(Framing(false, SIZE_UNKNOWN), KeptHeaders(headers))
  }

  function BodyOf(d: Option<Document>): string {
    if d.None? then "" else Concat(d.value.blocks)
  }

  /** The headers announce the framing that the sender uses for this document; without one
      nothing is sent, not even a last chunk. */
  predicate Announced(headers: seq<(string, string)>, d: Option<Document>) {
    var f, body := FramingOf(headers), BodyOf(d);
    if d.Some? && SendsChunks(headers) then f.chunked
    else !f.chunked && f.size == |body| && |body| < SIZE_UNKNOWN
  }

  /** The headers announce nothing: the body goes on until the stream is closed. */
  predicate UntilClose(headers: seq<(string, string)>) {
    !SendsChunks(headers) && FramingOf(headers) == Framing(false, SIZE_UNKNOWN)
  }

  /** A message that can be sent whole and told again. */
  predicate Sendable(start: StartLine, headers: seq<(string, string)>, d: Option<Document>) {
    && Tellable(start) && LeaderFits(FormatLeader(start), headers)
    && (forall h :: h in KeptHeaders(headers) ==> CleanHeader(h))
    && (d.Some? ==> !d.value.broken && Readable(d.value.blocks, SendsChunks(headers)))
  }

  /** A line that is read as the start line, and decided alone. */
  predicate Says(leader: string, start: StartLine) {
    ParseLeader(KindOf(start), leader, "") == HttpStartLine.Leader.Parsed(start) && !RunsOn(KindOf(start), leader) && CleanEnd(leader)
  }

  lemma HeadReadsBack(c: Client, leader: string, start: StartLine, headers: seq<(string, string)>)
    requires Says(leader, start) && Accepting(c, start)
    requires forall h :: h in KeptHeaders(headers) ==> CleanHeader(h)
    ensures var f := FramingOf(headers);
      Feed(c, Start(), WellFormedHead(leader, headers))
      == Settle(Start().(state := if f.chunked then ChunkSize else Data, chunked := f.chunked, size := f.size,
                         msg := Message(Some(start), KeptHeaders(headers), "")))
  {
    hide Step, CleanHeader, HeadersText, AnnounceAll, ParseLeader, RunsOn;
    var hs := HeadersText(headers);
    assert WellFormedHead(leader, headers) == (leader + CRLF) + (hs + ("" + CRLF));
    FeedConcat(c, Start(), leader + CRLF, hs + ("" + CRLF));
    FeedTextLine(c, Start(), leader);
    var m := Start().(state := Headers, msg := Message(Some(start), [], ""));
    FeedConcat(c, m, hs, "" + CRLF);
    HeadersReadBack(c, m, headers);
    assert [] + KeptHeaders(headers) == KeptHeaders(headers);
    FeedTextLine(c, AfterHeaders(m, KeptHeaders(headers)), "");
  }

  /** A message that the sender has put on the wire is read back whole: same start line, the
      headers it kept, in order, and the document, with no byte left over. A body that is
      announced ends there, one that is not goes on. */
  lemma MessageReadsBack(c: Client, start: StartLine, headers: seq<(string, string)>, d: Option<Document>)
    requires Sendable(start, headers, d) && Accepting(c, start)
    requires Announced(headers, d) || UntilClose(headers)
    ensures var m := Reference(c, SentText(FormatLeader(start), headers, d));
      && m.rest == "" && !m.loose && m.msg == Message(Some(start), KeptHeaders(headers), BodyOf(d))
      && if Announced(headers, d) then m.done == Some(NoError) else m.done.None? && m.state.Data? && m.size == SIZE_UNKNOWN
  {
    hide Step, CleanHeader, AnnounceAll, HeadersText, ChunksText, FormatLeader;
    var leader := FormatLeader(start);
    var body := BodyText(d, if d.None? then [] else d.value.blocks, SendsChunks(headers));
    HeadIsWellFormedIff(leader, headers);
    FeedConcat(c, Start(), HeadText(leader, headers), body);
    LeaderReadsBack(start);
    HeadReadsBack(c, leader, start, headers);
    var m := Feed(c, Start(), HeadText(leader, headers));
    BodyReadsBack(c, m, headers, d, body);
  }

  lemma BodyReadsBack(c: Client, m: Machine, headers: seq<(string, string)>, d: Option<Document>, body: string)
    requires c.capacity.None? && (Announced(headers, d) || UntilClose(headers))
    requires d.Some? ==> !d.value.broken && Readable(d.value.blocks, SendsChunks(headers))
    requires body == BodyText(d, if d.None? then [] else d.value.blocks, SendsChunks(headers))
    requires var f := FramingOf(headers);
      m == Settle(Start().(state := if f.chunked then ChunkSize else Data, chunked := f.chunked, size := f.size, msg := m.msg))
    requires m.msg.body == ""
    ensures var r := Feed(c, m, body);
      && r.rest == "" && !r.loose && r.msg == m.msg.(body := BodyOf(d))
      && if Announced(headers, d) then r.done == Some(NoError) else r.done.None? && r.state.Data? && r.size == SIZE_UNKNOWN
  {
    hide Step, FramingOf, ChunksText;
    assert d.Some? ==> d.value.(blocks := d.value.blocks) == d.value;
    assert "" + BodyOf(d) == BodyOf(d);
    if d.Some? && SendsChunks(headers) {
      NoTrailers();
      ChunksReadBack(c, m, d.value.blocks, []);
    } else if BodyOf(d) != "" {
      FeedData(c, m, BodyOf(d));
    }
  }

  /** An empty read must not be sent as a chunk: it reads as the end of the message. */
  lemma EmptyChunkEndsMessage(c: Client, m: Machine)
    requires AtChunk(c, m)
    ensures Feed(c, m, ChunkText("")) == Finish(m.(size := 0), NoError)
  {
    hide Step, ToHex, HexLine, Feed;
    ToHexIsClean(0);
    ChunkSizeReadsBack(0);
    assert ToHex(0, 8) + CRLF + "" + CRLF == (ToHex(0, 8) + CRLF) + ("" + CRLF);
    FeedConcat(c, m, ToHex(0, 8) + CRLF, "" + CRLF);
    FeedTextLine(c, m, ToHex(0, 8));
    FeedTextLine(c, m.(size := 0, state := Trailers), "");
  }

  /** What a message has gained when it is read further. */
  predicate Grows(a: Message, b: Message) {
    (a.start.Some? ==> b.start == a.start) && a.headers <= b.headers && a.body <= b.body
  }

  lemma {:induction false} FeedGrows(c: Client, m: Machine, s: string)
    requires m.state.Leader? ==> m.msg.start.None?
    ensures Grows(m.msg, Feed(c, m, s).msg)
    decreases s
  {
    if s != "" {
      StepGrows(c, m, s[0]);
      FeedGrows(c, Step(c, m, s[0]), s[1..]);
    }
  }

  lemma StepGrows(c: Client, m: Machine, b: char)
    requires m.state.Leader? ==> m.msg.start.None?
    ensures var m' := Step(c, m, b);
      Grows(m.msg, m'.msg) && (m'.state.Leader? ==> m'.msg.start.None?)
  {
    hide LineCore;
    if m.done.None? && OnLine(m.state) && b == '\n' {
      LineGrows(c, m.(line := ""), TrimRight(m.line));
    }
  }

  lemma LineGrows(c: Client, m: Machine, line: string)
    requires OnLine(m.state) && (m.state.Leader? ==> m.msg.start.None?)
    ensures var r := LineCore(c, m, line, "").m;
      Grows(m.msg, r.msg) && !r.state.Leader?
  {
    hide ParseLeader, RunsOn, FindColon, HexLine, HeaderField, SkipSpace;
    if m.state.Headers? && line != "" && FindColon(line, 0).Some? {
      var colon := FindColon(line, 0).value;
      FieldGrows(m, line[..colon], line[SkipSpace(line, colon + 1)..]);
    }
  }

  lemma FieldGrows(m: Machine, name: string, value: string)
    ensures var r := HeaderField(m, name, value, "").m;
      Grows(m.msg, r.msg) && r.state == m.state
  {
    hide ScanInt, EqualNoCase;
  }

  /** What a receiver of the first bytes of a text holds, seen from the end of the text. */
  lemma PrefixIsRead(c: Client, seen: string, text: string)
    requires seen <= text && !Reference(c, text).loose
    ensures var a, b := Reference(c, seen), Reference(c, text);
      && !a.loose && Grows(a.msg, b.msg)
      && (a.done.Some? ==> b.done == a.done && b.msg == a.msg && (b.rest == "" ==> seen == text))
  {
    hide Step;
    var rest := text[|seen|..];
    assert text == seen + rest;
    FeedConcat(c, Start(), seen, rest);
    FeedFrame(c, Reference(c, seen), rest);
    StartGrows(c, seen);
    FeedGrows(c, Reference(c, seen), rest);
    if Reference(c, seen).done.Some? {
      FeedAfterEnd(c, Reference(c, seen), rest);
      assert Reference(c, seen).rest + rest == "" ==> rest == "";
    }
  }

  lemma {:induction false} StartGrows(c: Client, seen: string)
    ensures var m := Reference(c, seen);
      m.state.Leader? ==> m.msg.start.None?
  {
    LeaderIsUnread(c, Start(), seen);
  }

  lemma {:induction false} LeaderIsUnread(c: Client, m: Machine, s: string)
    requires m.state.Leader? ==> m.msg.start.None?
    ensures Feed(c, m, s).state.Leader? ==> Feed(c, m, s).msg.start.None?
    decreases s
  {
    if s != "" {
      StepGrows(c, m, s[0]);
      LeaderIsUnread(c, Step(c, m, s[0]), s[1..]);
    }
  }

  /** From end to end, whatever the sender has been able to write and the receiver to read, in
      whatever pieces: what the receiver holds are the first parts of what is sent; it finishes
      only with the whole message, and does so once it has seen all of it, or, for a body that
      is not announced, once the stream is closed as well. */
  lemma EndToEnd(sender: HttpSender.HttpBase, receiver: HttpReceiver.HttpBase)
    requires sender.Valid() && sender.text == SentText(FormatLeader(sender.start), sender.headers, sender.document)
    requires receiver.Valid() && receiver.seen <= sender.wire
    requires Sendable(sender.start, sender.headers, sender.document) && Accepting(receiver.client, sender.start)
    requires Announced(sender.headers, sender.document) || UntilClose(sender.headers)
    ensures var whole := Message(Some(sender.start), KeptHeaders(sender.headers), BodyOf(sender.document));
      && Grows(receiver.msg, whole)
      && (receiver.ending.Parsed? ==>
            Announced(sender.headers, sender.document) && receiver.outcome == Some(NoError) && receiver.msg == whole)
      && (receiver.seen == sender.text ==>
            && receiver.msg == whole
            && (Announced(sender.headers, sender.document) ==> receiver.ending.Parsed?)
            && (!Announced(sender.headers, sender.document) && receiver.ending == Closed(Clean) ==> receiver.outcome == Some(NoError)))
      && (!Announced(sender.headers, sender.document) && receiver.outcome == Some(NoError) ==> receiver.ending == Closed(Clean))
  {
    hide Sendable, SentText, Announced, Accepting, Feed, UntilClose, FormatLeader;
    MessageReadsBack(receiver.client, sender.start, sender.headers, sender.document);
    PrefixIsRead(receiver.client, receiver.seen, sender.text);
  }
}
