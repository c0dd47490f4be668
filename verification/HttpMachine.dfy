/** What the HTTP message parser computes, told one byte at a time.

    The parser of the repository works on whatever fragment of the message has arrived and
    leaves an unfinished line for the next call. The machine below has no buffer: it takes
    single bytes, so feeding it is indifferent to how the message is cut by construction.
    Module HttpReceiver proves that the buffering loop computes this machine. */
module HttpMachine {
  import opened Wrappers
  import opened Bytes
  import opened HttpText
  import opened HttpStartLine

  /** `Aborted` is not a code of the library: it stands for a start line whose reading goes
      astray in memory (`HttpStartLine.Undefined`). */
  datatype HttpError =
    | NoError | Protocol | Disconnected | Overflow | Socket | Shutdown
    | OperationCancelled | Auth | CertificateExpired | Stream | Cache | Default | Aborted

  datatype State = Leader | Headers | ChunkSize | ChunkTerm | Trailers | Data | Complete

  datatype Message = Message(start: Option<StartLine>, headers: seq<(string, string)>, body: string)

  /** The parser's client: it expects a request or a response, it sees the end of the headers
      (and may replace the announced size or stop there), and its document may be full. */
  datatype Client = Client(
    kind: Kind,
    headersDone: (bool, Word) -> (HttpError, Word),
    capacity: Option<nat>)

  /** `line` holds the bytes of an unfinished line, `rest` those that came after the end.
      `loose` records a line that is not decided alone: a start line whose scan runs on, or a
      Content-Length header without a value. */
  datatype Machine = Machine(
    state: State, chunked: bool, size: Word, line: string,
    msg: Message, done: Option<HttpError>, rest: string, loose: bool)

  function Start(): Machine {
    Machine(State.Leader, false, SIZE_UNKNOWN, "", Message(None, [], ""), None, "", false)
  }

  predicate OnLine(s: State) { !s.Data? && !s.Complete? }

  function Finish(m: Machine, err: HttpError): Machine {
    m.(state := Complete, done := Some(err))
  }

  /** The outcome of one line: the parser afterwards, whether to go on, and the error. */
  datatype LineResult = LineResult(m: Machine, more: bool, err: HttpError)

  function Go(m: Machine, err: HttpError): LineResult {
    LineResult(m, err == NoError, err)
  }

  /** A header line without its trailing blanks; `after` is what memory holds behind it. */
  function HeaderLine(m: Machine, line: string, after: string): LineResult {
    var colon := FindColon(line, 0);
    if colon.None? then Go(m, Protocol)
    else HeaderField(m, line[..colon.value], line[SkipSpace(line, colon.value + 1)..], after)
  }

  function HeaderField(m: Machine, name: string, value: string, after: string): LineResult {
    var m1 := m.(msg := m.msg.(headers := m.msg.headers + [(name, value)]));
    if EqualNoCase(name, "Content-Length") then
      var scan := ScanInt(value + after);
      var b := m.loose || value == "";
      if scan.None? then Go(m.(loose := b), Protocol)
      else Go(m1.(loose := b, size := scan.value), NoError)
    else if EqualNoCase(name, "Transfer-Encoding") then
      if EqualNoCase(value, "chunked") then Go(m1.(chunked := true), NoError)
      else if EqualNoCase(value, "identity") then Go(m1.(chunked := false), NoError)
      else Go(m, Protocol)
    else Go(m1, NoError)
  }

  function LineCore(c: Client, m: Machine, line: string, after: string): LineResult {
    match m.state
    case Leader =>
      var m1 := m.(state := Headers, loose := m.loose || RunsOn(c.kind, line));
      match ParseLeader(c.kind, line, after) {
        case Parsed(start) => Go(m1.(msg := m.msg.(start := Some(start))), NoError)
        case Rejected => Go(m1, Protocol)
        case Undefined => Go(m1, Aborted)
      }
    case Headers =>
      if line != "" then HeaderLine(m, line, after)
      else
        var (err, size) := c.headersDone(m.chunked, m.size);
        Go(m.(state := if m.chunked then ChunkSize else Data, size := size), err)
    case ChunkSize =>
      if line == "" then Go(m, Protocol)
      else
        var size := HexLine(line);
        if size.None? then Go(m, Protocol)
        else Go(m.(size := size.value, state := if size.value == 0 then Trailers else Data), NoError)
    case ChunkTerm =>
      if line != "" then Go(m, Protocol)
      else Go(m.(state := if m.chunked then ChunkSize else Data), NoError)
    case Trailers => if line == "" then LineResult(m, false, NoError) else Go(m, NoError)
    case Data => Go(m, NoError)
    case Complete => Go(m, NoError)
  }

  /** A data section of known size that has been read: next chunk, or end of message. */
  function Settle(m: Machine): Machine {
    if m.done.None? && m.state.Data? && m.size == 0 then
      if m.chunked then m.(state := ChunkTerm) else Finish(m, NoError)
    else m
  }

  function Close(r: LineResult): Machine {
    Settle(if r.more then r.m else Finish(r.m, r.err))
  }

  predicate Full(c: Client, m: Machine) {
    c.capacity.Some? && |m.msg.body| >= c.capacity.value
  }

  function TakeByte(m: Machine, data: string): Machine
    requires m.size == SIZE_UNKNOWN || |data| <= m.size
  {
    m.(msg := m.msg.(body := m.msg.body + data),
       size := if m.size == SIZE_UNKNOWN then m.size else m.size - |data|)
  }

  function Step(c: Client, m: Machine, b: char): Machine {
    if m.done.Some? then m.(rest := m.rest + [b])
    else if OnLine(m.state) then
      if b == '\n' then Close(LineCore(c, m.(line := ""), TrimRight(m.line), ""))
      else m.(line := m.line + [b])
    else if m.state.Complete? || m.size == 0 then m
    else if Full(c, m) then Finish(m, Stream).(rest := m.rest + [b])
    else Settle(TakeByte(m, [b]))
  }

  function Feed(c: Client, m: Machine, s: string): Machine
    decreases s
  {
    if s == "" then m else Feed(c, Step(c, m, s[0]), s[1..])
  }

  /** What a parser holds between bytes: no exhausted data section, no line in mid-data. */
  predicate Settled(m: Machine) {
    && Settle(m) == m
    && (m.done.None? ==> !m.state.Complete? && m.rest == "")
    && (m.state.Data? ==> m.line == "")
    && '\n' !in m.line
  }

  // ------------------------------------------------------------- fragments

  lemma {:induction false} FeedConcat(c: Client, m: Machine, a: string, b: string)
    ensures Feed(c, m, a + b) == Feed(c, Feed(c, m, a), b)
    decreases a
  {
    if a == "" {
      assert a + b == b;
    } else {
      assert (a + b)[1..] == a[1..] + b;
      FeedConcat(c, Step(c, m, a[0]), a[1..], b);
    }
  }

  lemma {:induction false} FeedAfterEnd(c: Client, m: Machine, s: string)
    requires m.done.Some?
    ensures Feed(c, m, s) == m.(rest := m.rest + s)
    decreases s
  {
    if s == "" {
      assert m.rest + s == m.rest;
    } else {
      FeedAfterEnd(c, Step(c, m, s[0]), s[1..]);
      assert m.rest + [s[0]] + s[1..] == m.rest + s;
    }
  }

  /** Bytes short of a newline only wait: presenting them again changes nothing. */
  lemma {:induction false} FeedPending(c: Client, m: Machine, s: string)
    requires m.done.None? && OnLine(m.state) && '\n' !in s
    ensures Feed(c, m, s) == m.(line := m.line + s)
    decreases s
  {
    if s == "" {
      assert m.line + s == m.line;
    } else {
      FeedPending(c, Step(c, m, s[0]), s[1..]);
      assert m.line + [s[0]] + s[1..] == m.line + s;
    }
  }

  lemma FeedLine(c: Client, m: Machine, l: string, rest: string)
    requires m.done.None? && OnLine(m.state) && m.line == "" && '\n' !in l
    ensures Feed(c, m, l + ['\n'] + rest) == Feed(c, Close(LineCore(c, m, TrimRight(l), "")), rest)
  {
    assert l + ['\n'] + rest == l + (['\n'] + rest);
    FeedConcat(c, m, l, ['\n'] + rest);
    FeedPending(c, m, l);
    assert m.line + l == l;
    var m1 := m.(line := l);
    assert (['\n'] + rest)[1..] == rest;
    assert m1.(line := "") == m;
  }

  /** A stretch of document bytes, taken in one write. */
  lemma {:induction false} FeedData(c: Client, m: Machine, d: string)
    requires m.done.None? && m.state.Data? && m.size != 0
    requires m.size == SIZE_UNKNOWN || |d| <= m.size
    requires c.capacity.Some? ==> |m.msg.body| + |d| <= c.capacity.value
    ensures Feed(c, m, d) == Settle(TakeByte(m, d))
    decreases d
  {
    if d == "" {
      assert m.msg.body + d == m.msg.body;
    } else {
      var m1 := TakeByte(m, [d[0]]);
      assert m.msg.body + [d[0]] + d[1..] == m.msg.body + d;
      if m1.size == 0 {
        assert d == [d[0]];
      } else {
        FeedData(c, m1, d[1..]);
      }
    }
  }

  lemma FieldIgnoresMemory(m: Machine, name: string, value: string, after: string)
    requires StartsBlank(after) && (value != "" ==> !IsSpace(value[0]))
    requires !HeaderField(m, name, value, "").m.loose
    ensures HeaderField(m, name, value, after) == HeaderField(m, name, value, "")
  {
    if EqualNoCase(name, "Content-Length") {
      assert value + "" == value;
      ScanStaysOnLine(value, after);
    }
  }

  /** Unless the reference run meets a start line that runs on, or a blank Content-Length, every
      line is decided alone. */
  lemma LineIgnoresMemory(c: Client, m: Machine, line: string, after: string)
    requires StartsBlank(after)
    requires !LineCore(c, m, line, "").m.loose
    ensures LineCore(c, m, line, after) == LineCore(c, m, line, "")
  {
    if m.state.Leader? {
      LeaderStaysOnLine(c.kind, line, after);
    } else if m.state.Headers? && line != "" && FindColon(line, 0).Some? {
      var colon := FindColon(line, 0).value;
      FieldIgnoresMemory(m, line[..colon], line[SkipSpace(line, colon + 1)..], after);
    }
  }

  /** A Content-Length header without a value. */
  predicate BlankLength(line: string) {
    var colon := FindColon(line, 0);
    colon.Some? && EqualNoCase(line[..colon.value], "Content-Length") && SkipSpace(line, colon.value + 1) == |line|
  }

  /** What a header line does is settled by the line alone exactly when it is not a blank
      Content-Length: that one is filled in from whatever the buffer holds behind it. */
  lemma HeaderIsLineBoundedIff(m: Machine, line: string)
    ensures (forall a, b :: StartsBlank(a) && StartsBlank(b) ==> HeaderLine(m, line, a) == HeaderLine(m, line, b))
            <==> !BlankLength(line)
  {
    if BlankLength(line) {
      ScanIsLineBoundedIff("");
      var a, b :| StartsBlank(a) && StartsBlank(b) && ScanInt("" + a) != ScanInt("" + b);
      var from := SkipSpace(line, FindColon(line, 0).value + 1);
      assert line[from..] == "";
      assert HeaderLine(m, line, a) != HeaderLine(m, line, b);
    } else if FindColon(line, 0).Some? {
      var colon := FindColon(line, 0).value;
      var name, value := line[..colon], line[SkipSpace(line, colon + 1)..];
      forall a, b | StartsBlank(a) && StartsBlank(b)
        ensures HeaderField(m, name, value, a) == HeaderField(m, name, value, b)
      {
        if EqualNoCase(name, "Content-Length") {
          ScanStaysOnLine(value, a);
          ScanStaysOnLine(value, b);
        }
      }
    }
  }

  lemma HeaderLineFrame(m: Machine, line: string, after: string)
    ensures var r := HeaderLine(m, line, after).m;
      && r.line == m.line && r.done == m.done && r.rest == m.rest
      && (m.loose ==> r.loose) && r.state == m.state
  {
    var colon := FindColon(line, 0);
    if colon.Some? {
      var name := line[..colon.value];
      if EqualNoCase(name, "Content-Length") {
      } else if EqualNoCase(name, "Transfer-Encoding") {
      }
    }
  }

  lemma LineCoreFrame(c: Client, m: Machine, line: string, after: string)
    requires OnLine(m.state)
    ensures var r := LineCore(c, m, line, after);
      && r.m.line == m.line && r.m.done == m.done && r.m.rest == m.rest
      && (m.loose ==> r.m.loose) && !r.m.state.Complete?
  {
    if m.state.Headers? && line != "" {
      HeaderLineFrame(m, line, after);
    }
  }

  lemma StepFrame(c: Client, m: Machine, b: char)
    ensures m.loose ==> Step(c, m, b).loose
    ensures Settled(m) ==> Settled(Step(c, m, b))
  {
    if m.done.None? && OnLine(m.state) && b == '\n' {
      LineCoreFrame(c, m.(line := ""), TrimRight(m.line), "");
    }
  }

  /** Between calls the parser never holds a finished line or an exhausted data section. */
  lemma {:induction false} FeedFrame(c: Client, m: Machine, s: string)
    ensures m.loose ==> Feed(c, m, s).loose
    ensures Settled(m) ==> Settled(Feed(c, m, s))
    decreases s
  {
    if s != "" {
      StepFrame(c, m, s[0]);
      FeedFrame(c, Step(c, m, s[0]), s[1..]);
    }
  }
}
