/** The receiving half of HttpBase: the buffering parser loop and the read loop around it.
    Both are proved to compute HttpMachine on the bytes taken from the stream. */
module HttpReceiver {
  import opened Wrappers
  import opened Bytes
  import opened HttpText
  import opened HttpStartLine
  import opened HttpMachine

  const BUFFER_SIZE: nat := 16384
  const MAX_READ_COUNT: nat := 20

  /** What one read of the stream comes to. */
  datatype Grant = Take(n: nat) | Block | Eos | Fail(cause: Cause)
  datatype Cause = Clean | AccessDenied | CertExpired | OtherError

  /** Why the receiver has stopped. */
  datatype Ending = Open | Parsed | Overrun | Closed(cause: Cause)

  function CauseError(cause: Cause): HttpError {
    match cause
    case Clean => Disconnected
    case AccessDenied => Auth
    case CertExpired => CertificateExpired
    case OtherError => Socket
  }

  /** What is reported when the stream has closed. Only a clean close can be a good end. */
  predicate Reported(cause: Cause, outcome: Option<HttpError>) {
    match cause
    case Clean => outcome == Some(NoError) || outcome == Some(Disconnected)
    case AccessDenied => outcome == Some(Auth)
    case CertExpired => outcome == Some(CertificateExpired)
    case OtherError => outcome == Some(Socket)
  }

  /** The verdict on a connection that closes while the message is in state `m`. */
  function CloseError(m: Machine, cause: Cause): HttpError {
    if !cause.Clean? then CauseError(cause)
    else if m.state.Data? && m.size == SIZE_UNKNOWN then NoError
    else Disconnected
  }

  lemma FeedFull(c: Client, m: Machine, s: string)
    requires m.done.None? && m.rest == "" && m.state.Data? && m.size != 0 && Full(c, m) && s != ""
    ensures Feed(c, m, s) == Finish(m, Stream).(rest := s)
  {
    FeedAfterEnd(c, Step(c, m, s[0]), s[1..]);
    assert [s[0]] + s[1..] == s;
  }

  /** Where the message is after `seen`, judged by the machine that knows no buffer. */
  function Reference(c: Client, seen: string): Machine {
    Feed(c, Start(), seen)
  }

  lemma Waits(ref: Machine, c: Client, m: Machine, s: string)
    requires ref.loose || ref == Feed(c, m, s)
    requires m.done.None? && OnLine(m.state) && m.line == "" && '\n' !in s
    ensures ref.loose || ref == m.(line := s)
  {
    FeedPending(c, m, s);
    assert "" + s == s;
  }

  lemma Ends(ref: Machine, c: Client, m: Machine, err: HttpError, s: string)
    requires ref.loose || ref == Feed(c, Finish(m, err), s)
    requires m.rest == ""
    ensures ref.loose || ref == Finish(m, err).(rest := s)
  {
    FeedAfterEnd(c, Finish(m, err), s);
    assert "" + s == s;
  }

  lemma SplitSuffix(s: string, i: nat, j: nat)
    requires i <= j <= |s|
    ensures s[i..] == s[i..j] + s[j..]
  {
  }

  /** A line read out of the buffer moves the parser as the machine's newline does, whatever
      stands behind it, unless the reference run meets a line that is not decided alone. */
  lemma LineDecided(c: Client, m: Machine, l: string, rest: string, after: string)
    requires m.done.None? && OnLine(m.state) && m.line == "" && '\n' !in l && StartsBlank(after)
    ensures var ref := Feed(c, m, l + ['\n'] + rest);
      ref.loose || ref == Feed(c, Close(LineCore(c, m, TrimRight(l), after)), rest)
  {
    var r := LineCore(c, m, TrimRight(l), "");
    FeedLine(c, m, l, rest);
    if m.loose || r.m.loose {
      LineCoreFrame(c, m, TrimRight(l), "");
      FeedFrame(c, Close(r), rest);
    } else {
      LineIgnoresMemory(c, m, TrimRight(l), after);
    }
  }

  class HttpBase {
    const client: Client
    var state: State
    var chunked: bool
    var size: Word
    var msg: Message
    ghost var loose: bool

    const buffer: array<char>
    var len: nat
    var outcome: Option<HttpError>
    /** Bytes the peer has sent and nobody has read. */
    var wire: string

    ghost const sent: string
    ghost var seen: string
    ghost var ending: Ending

    ghost function Parser(line: string): Machine
      reads this
    {
      Machine(state, chunked, size, line, msg, None, "", loose)
    }

    ghost predicate Valid()
      reads this, buffer
    {
      && buffer.Length == BUFFER_SIZE && len <= BUFFER_SIZE
      && (ending.Open? <==> outcome.None?)
      && sent == seen + wire
      && (outcome.None? ==> Settled(Parser(buffer[..len])))
      && var ref := Reference(client, seen);
         ref.loose ||
         match ending
         case Open => ref == Parser(buffer[..len])
         case Parsed => ref.done == outcome && ref.msg == msg && ref.rest == buffer[..len]
         case Overrun => ref == Parser(buffer[..len]) && len == BUFFER_SIZE && outcome == Some(Overflow)
         case Closed(cause) => ref.done.None? && ref.msg == msg && outcome == Some(CloseError(ref, cause))
    }

    constructor (client: Client, wire: string)
      ensures Valid() && outcome.None? && seen == "" && sent == wire && this.client == client
    {
      this.client := client;
      state, chunked, size := State.Leader, false, SIZE_UNKNOWN;
      msg, loose := Message(None, [], ""), false;
      buffer, len, outcome := new char[BUFFER_SIZE], 0, None;
      this.wire, sent := wire, wire;
      seen, ending := "", Open;
    }

    method ProcessHeader(mem: string, start: nat, n: nat) returns (more: bool, err: HttpError)
      requires start + n < |mem|
      modifies this`chunked, this`size, this`msg, this`loose
      ensures HeaderLine(old(Parser("")), mem[start..start + n], mem[start + n..]) == LineResult(Parser(""), more, err)
    {
      hide HeaderField;
      var line := mem[start..start + n];
      var colon := FindColon(line, 0);
      if colon.None? { return false, Protocol; }
      var value := SkipSpace(line, colon.value + 1);
      assert line[value..] == mem[start + value..start + n];
      more, err := ProcessField(mem, line[..colon.value], start + value, start + n);
    }

    /** The field `name` whose value stands in the buffer from `from` up to `eol`. */
    method ProcessField(mem: string, name: string, from: nat, eol: nat) returns (more: bool, err: HttpError)
      requires from <= eol < |mem|
      modifies this`chunked, this`size, this`msg, this`loose
      ensures HeaderField(old(Parser("")), name, mem[from..eol], mem[eol..]) == LineResult(Parser(""), more, err)
    {
      var value := mem[from..eol];
      if EqualNoCase(name, "Content-Length") {
        loose := loose || value == "";
        SplitSuffix(mem, from, eol);
        var scan := ScanInt(mem[from..]);
        if scan.None? { return false, Protocol; }
        size := scan.value;
      } else if EqualNoCase(name, "Transfer-Encoding") {
        if EqualNoCase(value, "chunked") {
          chunked := true;
        } else if EqualNoCase(value, "identity") {
          chunked := false;
        } else {
          return false, Protocol;
        }
      }
      msg := msg.(headers := msg.headers + [(name, value)]);
      return true, NoError;
    }

    method ProcessLine(mem: string, start: nat, n: nat) returns (more: bool, err: HttpError)
      requires start + n < |mem| && OnLine(state)
      modifies this`state, this`chunked, this`size, this`msg, this`loose
      ensures LineCore(client, old(Parser("")), mem[start..start + n], mem[start + n..]) == LineResult(Parser(""), more, err)
    {
      err := NoError;
      match state {
        case Leader =>
          var line := mem[start..start + n];
          state, loose := Headers, loose || RunsOn(client.kind, line);
          var leader := ParseLeader(client.kind, line, mem[start + n..]);
          match leader {
            case Parsed(parsed) => msg := msg.(start := Some(parsed));
            case Rejected => err := Protocol;
            case Undefined => err := Aborted;
          }
        case Headers =>
          if n > 0 {
            more, err := ProcessHeader(mem, start, n);
            return;
          } else {
            state := if chunked then ChunkSize else Data;
            var (e, s) := client.headersDone(chunked, size);
            err, size := e, s;
          }
        case ChunkSize =>
          if n > 0 {
            var value := HexLine(mem[start..start + n]);
            if value.None? { return false, Protocol; }
            size := value.value;
            state := if size == 0 then Trailers else Data;
          } else {
            err := Protocol;
          }
        case ChunkTerm =>
          if n > 0 {
            err := Protocol;
          } else {
            state := if chunked then ChunkSize else Data;
          }
        case Trailers =>
          if n == 0 { return false, NoError; }
        case _ =>
      }
      more := err == NoError;
    }

    /** A write to the document takes some of the offered bytes, or fails when it is full. */
    method ReceiveData(mem: string, start: nat, available: nat) returns (err: HttpError, read: nat)
      requires 0 < available && start + available <= |mem|
      modifies this`msg
      ensures old(Full(client, Parser(""))) ==> err == Stream && msg == old(msg)
      ensures !old(Full(client, Parser(""))) ==>
        (&& err == NoError && 1 <= read <= available
         && msg == old(msg).(body := old(msg).body + mem[start..start + read])
         && (client.capacity.Some? ==> |msg.body| <= client.capacity.value))
    {
      if client.capacity.Some? && |msg.body| >= client.capacity.value {
        return Stream, 0;
      }
      err := NoError;
      var most := if client.capacity.Some? && client.capacity.value - |msg.body| < available
                  then client.capacity.value - |msg.body| else available;
      read :| 1 <= read <= most;
      msg := msg.(body := msg.body + mem[start..start + read]);
    }

    method FindNewline(mem: string, start: nat, n: nat) returns (pos: nat)
      requires start <= n <= |mem|
      ensures start <= pos <= n && '\n' !in mem[start..pos]
      ensures pos < n ==> mem[pos] == '\n'
    {
      pos := start;
      while pos < n && mem[pos] != '\n'
        invariant start <= pos <= n && '\n' !in mem[start..pos]
      {
        pos := pos + 1;
      }
    }

    /** Parses as much of `mem[..n]` as is complete. On success the bytes from `processed`
        on must be presented again; otherwise the message has ended with `err`. */
    method Process(mem: string, n: nat) returns (more: bool, processed: nat, err: HttpError)
      requires n <= |mem| && !state.Complete? && Settled(Parser(""))
      modifies this`state, this`chunked, this`size, this`msg, this`loose
      ensures processed <= n
      ensures more ==> Settled(Parser(mem[processed..n]))
      ensures var ref := Feed(client, old(Parser("")), mem[..n]);
        ref.loose ||
        if more then ref == Parser(mem[processed..n])
        else ref == Finish(Parser(""), err).(rest := mem[processed..n])
    {
      hide LineCore;
      ghost var ref := Feed(client, Parser(""), mem[..n]);
      processed, err := 0, NoError;
      assert mem[0..n] == mem[..n];
      while true
        invariant processed <= n && !state.Complete?
        invariant ref.loose || ref == Feed(client, Settle(Parser("")), mem[processed..n])
        decreases n - processed, if state.Data? && size == 0 then 1 else 0
      {
        if !state.Data? {
          var pos := FindNewline(mem, processed, n);
          if pos >= n {
            Waits(ref, client, Parser(""), mem[processed..n]);
            return true, processed, NoError;
          }
          more, err := TakeLine(ref, mem, n, processed, pos);
          processed := pos + 1;
          if !more {
            Ends(ref, client, Parser(""), err, mem[processed..n]);
            return false, processed, err;
          }
        } else if size == 0 {
          if chunked {
            state := ChunkTerm;
          } else {
            Ends(ref, client, Parser(""), NoError, mem[processed..n]);
            return false, processed, NoError;
          }
        } else {
          if n - processed <= 0 {
            assert mem[processed..n] == "";
            return true, processed, NoError;
          }
          var read;
          err, read := TakeData(ref, mem, n, processed);
          if err != NoError {
            return false, processed, err;
          }
          processed := processed + read;
        }
      }
    }

    method TrimmedLength(mem: string, start: nat, pos: nat) returns (count: nat)
      requires start <= pos < |mem| && mem[pos] == '\n'
      ensures start + count <= pos && mem[start..start + count] == TrimRight(mem[start..pos])
      ensures IsSpace(mem[start + count])
    {
      count := pos - start;
      while count > 0 && IsSpace(mem[start + count - 1])
        invariant count <= pos - start && IsSpace(mem[start + count])
        invariant TrimEnd(mem[start..pos], pos - start) == TrimEnd(mem[start..pos], count)
      {
        count := count - 1;
      }
      assert mem[start..pos][..count] == mem[start..start + count];
    }

    /** One line of the buffer, from `start` up to the newline at `pos`. */
    method TakeLine(ghost ref: Machine, mem: string, n: nat, start: nat, pos: nat) returns (more: bool, err: HttpError)
      requires start <= pos < n <= |mem| && OnLine(state)
      requires mem[pos] == '\n' && '\n' !in mem[start..pos]
      requires ref.loose || ref == Feed(client, Parser(""), mem[start..n])
      modifies this`state, this`chunked, this`size, this`msg, this`loose
      ensures !state.Complete?
      ensures ref.loose || ref == Feed(client, Settle(if more then Parser("") else Finish(Parser(""), err)), mem[pos + 1..n])
    {
      hide LineCore;
      var count := TrimmedLength(mem, start, pos);
      ghost var m, line, after := Parser(""), mem[start..start + count], mem[start + count..];
      LineCoreFrame(client, m, line, after);
      more, err := ProcessLine(mem, start, count);
      if !ref.loose {
        ghost var l, rest := mem[start..pos], mem[pos + 1..n];
        assert mem[start..n] == l + ['\n'] + rest;
        LineDecided(client, m, l, rest, after);
      }
    }

    /** One write of document bytes from `start` on. */
    method TakeData(ghost ref: Machine, mem: string, n: nat, start: nat) returns (err: HttpError, read: nat)
      requires start < n <= |mem| && state.Data? && size != 0
      requires ref.loose || ref == Feed(client, Parser(""), mem[start..n])
      modifies this`size, this`msg
      ensures err != NoError ==> ref.loose || ref == Finish(Parser(""), err).(rest := mem[start..n])
      ensures err == NoError ==> 1 <= read <= n - start
      ensures err == NoError ==> ref.loose || ref == Feed(client, Settle(Parser("")), mem[start + read..n])
    {
      hide LineCore;
      var available := n - start;
      if size != SIZE_UNKNOWN && available > size {
        available := size;
      }
      ghost var before := Parser("");
      err, read := ReceiveData(mem, start, available);
      if err != NoError {
        FeedFull(client, before, mem[start..n]);
        return;
      }
      ghost var data, left := mem[start..start + read], mem[start + read..n];
      assert mem[start..n] == data + left;
      FeedConcat(client, before, data, left);
      FeedData(client, before, data);
      if size != SIZE_UNKNOWN {
        size := size - read;
      }
      assert Parser("") == TakeByte(before, data);
    }

    /** The parser's own end of message: the state is closed and the client is told. */
    method Complete(err: HttpError, ghost why: Ending)
      modifies this`state, this`outcome, this`ending
      ensures state.Complete? && outcome == Some(err) && ending == why
    {
      state := State.Complete;
      outcome := Some(err);
      ending := why;
    }

    method Consume(count: nat)
      requires buffer.Length == BUFFER_SIZE && count <= len <= BUFFER_SIZE
      modifies buffer, this`len
      ensures len == old(len) - count && buffer[..len] == old(buffer[count..len])
    {
      var left := buffer[count..len];
      len := len - count;
      forall i | 0 <= i < len {
        buffer[i] := left[i];
      }
      assert buffer[..len] == left;
    }

    /** One successful read of at most `most` bytes, appended to what is pending. */
    method Fill(most: nat) returns (ghost fragment: string)
      requires buffer.Length == BUFFER_SIZE && len < BUFFER_SIZE && most > 0 && wire != ""
      modifies buffer, this`len, this`wire, this`seen
      ensures len <= BUFFER_SIZE && fragment != "" && buffer[..len] == old(buffer[..len]) + fragment
      ensures old(wire) == fragment + wire && seen == old(seen) + fragment
    {
      var read := if most < |wire| then most else |wire|;
      if read > BUFFER_SIZE - len {
        read := BUFFER_SIZE - len;
      }
      ghost var pending := buffer[..len];
      fragment := wire[..read];
      forall i | 0 <= i < read {
        buffer[len + i] := wire[i];
      }
      seen, wire, len := seen + wire[..read], wire[read..], len + read;
      assert buffer[..len] == pending + fragment;
    }

    /** One read of at most `most` bytes and the parse that follows it. */
    method ReadAndParse(most: nat)
      requires Valid() && outcome.None? && len < BUFFER_SIZE && most > 0 && wire != ""
      modifies this, buffer
      ensures Valid()
      ensures |old(seen)| < |seen|
      ensures outcome.None? || ending == Ending.Parsed
    {
      hide Step;
      ghost var pending, parser := buffer[..len], Parser("");
      ghost var fragment := Fill(most);
      FragmentArrives(client, old(seen), parser, pending, fragment);
      var mem := buffer[..];
      assert mem[..len] == pending + fragment;
      var more, processed, err := Process(mem, len);
      assert mem[processed..len] == buffer[processed..len];
      Consume(processed);
      if !more {
        Complete(err, Ending.Parsed);
      }
    }

    /** A readable stream is read until it blocks, ends, fails, or has been read often enough.
        The first `granted` reads have brought something; what came of it is told by the next. */
    method OnReadable(grants: seq<Grant>) returns (granted: nat)
      requires Valid() && outcome.None?
      modifies this, buffer
      ensures Valid() && |old(seen)| + granted <= |seen|
      ensures granted <= |grants| && granted <= MAX_READ_COUNT + 1
      ensures forall k :: 0 <= k < granted ==> grants[k].Take? && grants[k].n > 0
      ensures ending.Parsed? ==> granted > 0
      ensures ending.Overrun? ==> outcome == Some(Overflow) && len == BUFFER_SIZE
      ensures !ending.Parsed? && !ending.Overrun? && granted <= MAX_READ_COUNT && granted < |grants| ==>
        match grants[granted]
        case Fail(cause) => ending == Closed(cause)
        case Take(n) => ending.Open? && (n == 0 || wire == "")
        case Block => ending.Open?
        case Eos => ending.Open?
      ensures !ending.Parsed? && !ending.Overrun? && (granted > MAX_READ_COUNT || granted == |grants|) ==> ending.Open?
      ensures ending.Closed? ==> Reported(ending.cause, outcome)
      ensures old(len) == BUFFER_SIZE ==> ending.Overrun? && granted == 0
    {
      granted := 0;
      while granted <= MAX_READ_COUNT
        invariant Valid() && outcome.None? && granted <= |grants| && granted <= MAX_READ_COUNT + 1
        invariant |old(seen)| + granted <= |seen| && (granted > 0 ==> old(len) < BUFFER_SIZE)
        invariant granted == 0 ==> len == old(len)
        invariant forall k :: 0 <= k < granted ==> grants[k].Take? && grants[k].n > 0
      {
        if len >= BUFFER_SIZE {
          outcome, ending := Some(Overflow), Overrun;
          return;
        }
        var grant := if granted < |grants| then grants[granted] else Block;
        if grant.Fail? {
          OnClose(grant.cause);
          return;
        }
        if !grant.Take? || grant.n == 0 || wire == "" {
          return;
        }
        ReadAndParse(grant.n);
        granted := granted + 1;
        if outcome.Some? {
          return;
        }
      }
    }

    /** The stream closes in mid-message: only a body of unknown length ends well so. */
    method OnClose(cause: Cause)
      requires Valid() && outcome.None?
      modifies this`state, this`outcome, this`ending
      ensures Valid() && ending == Closed(cause) && Reported(cause, outcome)
      ensures outcome == Some(NoError) <==> cause.Clean? && old(state).Data? && size == SIZE_UNKNOWN
    {
      if cause.Clean? {
        var err := if state.Data? && size == SIZE_UNKNOWN then NoError else Disconnected;
        Complete(err, Closed(cause));
      } else {
        outcome, ending := Some(CauseError(cause)), Closed(cause);
      }
    }
  }

  datatype Event = Ready(grants: seq<Grant>) | Gone(cause: Cause)

  /** What the stream has said is that it closed for this cause. */
  predicate ClosedBy(e: Event, cause: Cause) {
    match e
    case Ready(grants) => Fail(cause) in grants
    case Gone(other) => other == cause
  }

  /** Whatever happens to the stream, until the message has ended: it ends as closed only when
      the stream has closed, for that cause, and well only if that was a clean one. */
  method Listen(base: HttpBase, events: seq<Event>) returns (handled: nat)
    requires base.Valid() && base.outcome.None?
    modifies base, base.buffer
    ensures base.Valid() && handled <= |events| && (handled < |events| ==> base.outcome.Some?)
    ensures base.ending.Closed? ==>
      handled > 0 && ClosedBy(events[handled - 1], base.ending.cause) && Reported(base.ending.cause, base.outcome)
    ensures forall k :: 0 <= k < handled && events[k].Gone? ==> k == handled - 1 && base.ending == Closed(events[k].cause)
  {
    handled := 0;
    while handled < |events| && base.outcome.None?
      invariant handled <= |events| && base.Valid()
      invariant base.ending.Closed? ==>
        handled > 0 && ClosedBy(events[handled - 1], base.ending.cause) && Reported(base.ending.cause, base.outcome)
      invariant forall k :: 0 <= k < handled && events[k].Gone? ==> k == handled - 1 && base.ending == Closed(events[k].cause)
    {
      match events[handled] {
        case Ready(grants) => var granted := base.OnReadable(grants);
        case Gone(cause) => base.OnClose(cause);
      }
      handled := handled + 1;
    }
  }

  /** Bytes that were left over and are presented again in front of a new fragment lead to
      the state of the whole byte stream. */
  lemma PresentAgain(c: Client, parser: Machine, pending: string, fragment: string)
    requires parser.line == "" && parser.done.None? && Settled(parser.(line := pending))
    ensures Feed(c, parser.(line := pending), fragment) == Feed(c, parser, pending + fragment)
  {
    hide Step;
    if parser.state.Data? {
      assert pending + fragment == fragment;
    } else {
      FeedConcat(c, parser, pending, fragment);
      FeedPending(c, parser, pending);
      assert "" + pending == pending;
    }
  }

  lemma FragmentArrives(c: Client, seen: string, parser: Machine, pending: string, fragment: string)
    requires parser.line == "" && parser.done.None? && Settled(parser.(line := pending))
    requires Reference(c, seen).loose || Reference(c, seen) == parser.(line := pending)
    ensures Reference(c, seen + fragment).loose || Reference(c, seen + fragment) == Feed(c, parser, pending + fragment)
  {
    hide Step;
    FeedConcat(c, Start(), seen, fragment);
    if Reference(c, seen).loose {
      FeedFrame(c, Reference(c, seen), fragment);
    } else {
      PresentAgain(c, parser, pending, fragment);
    }
  }

  /** Two receivers of the same bytes, however the stream was cut and whenever it was read,
      hold the same message and have ended, if they have, in the same way. */
  lemma SameBytesSameMessage(a: HttpBase, b: HttpBase)
    requires a.Valid() && b.Valid() && a.client == b.client && a.seen == b.seen
    requires !Reference(a.client, a.seen).loose
    ensures a.msg == b.msg
    ensures a.ending.Parsed? <==> b.ending.Parsed?
    ensures a.ending.Parsed? ==> a.outcome == b.outcome && a.buffer[..a.len] == b.buffer[..b.len]
    ensures a.ending == b.ending ==> a.outcome == b.outcome
    ensures a.ending.Open? && b.ending.Open? ==> a.state == b.state && a.size == b.size && a.buffer[..a.len] == b.buffer[..b.len]
  {
  }

  /** At position `n` ends a line that is not decided by the bytes before it: two contents of the
      memory behind it have different outcomes. */
  ghost predicate Undecided(c: Client, seen: string, n: nat)
    requires n < |seen|
  {
    var m := Reference(c, seen[..n]);
    && seen[n] == '\n' && m.done.None? && OnLine(m.state)
    && exists a, b :: StartsBlank(a) && StartsBlank(b)
         && LineCore(c, m.(line := ""), TrimRight(m.line), a) != LineCore(c, m.(line := ""), TrimRight(m.line), b)
  }

  /** The condition of `SameBytesSameMessage` shuts out nothing but what is open: it fails exactly
      if one of the lines seen is not decided by the bytes before it. */
  lemma LooseIff(c: Client, seen: string)
    ensures Reference(c, seen).loose <==> exists n :: 0 <= n < |seen| && Undecided(c, seen, n)
  {
    if Reference(c, seen).loose {
      assert seen[..|seen|] == seen;
      LooseIsUndecided(c, seen, |seen|);
    }
    forall n | 0 <= n < |seen| && Undecided(c, seen, n) ensures Reference(c, seen).loose {
      UndecidedIsLoose(c, seen, n);
    }
  }

  lemma OneMoreByte(c: Client, seen: string, n: nat)
    requires n < |seen|
    ensures Reference(c, seen[..n + 1]) == Step(c, Reference(c, seen[..n]), seen[n])
  {
    hide Step;
    assert seen[..n + 1] == seen[..n] + [seen[n]];
    FeedConcat(c, Start(), seen[..n], [seen[n]]);
  }

  lemma {:induction false} LooseIsUndecided(c: Client, seen: string, n: nat)
    requires n <= |seen| && Reference(c, seen[..n]).loose
    ensures exists k :: 0 <= k < n && Undecided(c, seen, k)
  {
    hide LineCore, Feed;
    if n > 0 {
      OneMoreByte(c, seen, n - 1);
      var m := Reference(c, seen[..n - 1]);
      if m.loose {
        LooseIsUndecided(c, seen, n - 1);
      } else {
        LineIsOpen(c, m.(line := ""), TrimRight(m.line));
        assert Undecided(c, seen, n - 1);
      }
    } else {
      assert seen[..0] == "";
      NothingSeen(c);
    }
  }

  lemma NothingSeen(c: Client)
    ensures Reference(c, "") == Start()
  {
  }

  lemma LineIsOpen(c: Client, m: Machine, line: string)
    requires OnLine(m.state) && !m.loose && LineCore(c, m, line, "").m.loose
    ensures exists a, b :: StartsBlank(a) && StartsBlank(b) && LineCore(c, m, line, a) != LineCore(c, m, line, b)
  {
    hide ParseLeader, RunsOn;
    if m.state.Leader? {
      LeaderIsLineBoundedIff(c.kind, line);
      var a, b :| StartsBlank(a) && StartsBlank(b) && ParseLeader(c.kind, line, a) != ParseLeader(c.kind, line, b);
      assert LineCore(c, m, line, a) != LineCore(c, m, line, b);
    } else {
      HeaderIsLineBoundedIff(m, line);
      var a, b :| StartsBlank(a) && StartsBlank(b) && HeaderLine(m, line, a) != HeaderLine(m, line, b);
      assert LineCore(c, m, line, a) != LineCore(c, m, line, b);
    }
  }

  lemma UndecidedIsLoose(c: Client, seen: string, n: nat)
    requires n < |seen| && Undecided(c, seen, n)
    ensures Reference(c, seen).loose
  {
    hide LineCore, Feed;
    var m := Reference(c, seen[..n]);
    var bare, line := m.(line := ""), TrimRight(m.line);
    var a, b :| StartsBlank(a) && StartsBlank(b) && LineCore(c, bare, line, a) != LineCore(c, bare, line, b);
    if !LineCore(c, bare, line, "").m.loose {
      LineIgnoresMemory(c, bare, line, a);
      LineIgnoresMemory(c, bare, line, b);
    }
    OneMoreByte(c, seen, n);
    assert seen == seen[..n + 1] + seen[n + 1..];
    FeedConcat(c, Start(), seen[..n + 1], seen[n + 1..]);
    FeedFrame(c, Reference(c, seen[..n + 1]), seen[n + 1..]);
  }
}
