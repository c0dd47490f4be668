/** The sending half of HttpBase: headers and document are queued into one fixed buffer that
    a stream empties as it pleases. What the stream has accepted is at every moment a prefix
    of one text that depends on the message alone. */
module HttpSender {
  import opened Wrappers
  import opened HttpText
  import opened HttpStartLine
  import opened HttpMachine
  import opened HttpReceiver

  const CRLF: string := "\r\n"
  const LAST_CHUNK: string := "0\r\n\r\n"

  datatype WriteResult = Wrote(n: nat) | WriteBlock | WriteFail(cause: Cause)

  /** How a round of filling and emptying the buffer ends. */
  datatype Round = Again | Stopped | Drained

  predicate Willing(writes: seq<WriteResult>) {
    forall i :: 0 <= i < |writes| ==> writes[i].Wrote?
  }

  /** `hasHeader(HH_TRANSFER_ENCODING, &encoding) && encoding == "chunked"`: the first such
      header decides. */
  predicate SendsChunks(headers: seq<(string, string)>) {
    headers != [] &&
    if EqualNoCase(headers[0].0, "Transfer-Encoding") then headers[0].1 == "chunked" else SendsChunks(headers[1..])
  }

  /** A document is read in non-empty blocks up to its end, or up to an error. */
  datatype Document = Document(blocks: seq<string>, broken: bool)

  function HeaderText(h: (string, string)): string {
    Printed(h.0) + ": " + Printed(h.1) + CRLF
  }

  /** A header is sent unless it is too long for the whole buffer. */
  predicate Kept(h: (string, string)) {
    |HeaderText(h)| < BUFFER_SIZE - 3
  }

  function HeadersText(hs: seq<(string, string)>): string {
    if hs == [] then ""
    else (if Kept(hs[0]) then HeaderText(hs[0]) else "") + HeadersText(hs[1..])
  }

  function ChunkText(block: string): string {
    ToHex(|block|, 8) + CRLF + block + CRLF
  }

  function ChunksText(blocks: seq<string>): string {
    if blocks == [] then "" else ChunkText(blocks[0]) + ChunksText(blocks[1..])
  }

  function Concat(parts: seq<string>): string {
    if parts == [] then "" else parts[0] + Concat(parts[1..])
  }

  function DocumentText(d: Document, chunk: bool): string {
    if chunk then ChunksText(d.blocks) + (if d.broken then "" else LAST_CHUNK) else Concat(d.blocks)
  }

  /** `strcpyn(buffer + used, sizeof(buffer) - used, "\r\n")` */
  function LineEnd(used: nat): string
    requires used < BUFFER_SIZE
  {
    CRLF[..Min(2, BUFFER_SIZE - used - 1)]
  }

  /** The start line as it enters the buffer: cut to what fits, then a line end if it does. */
  function Opening(leader: string): (s: string)
    ensures |s| < BUFFER_SIZE
  {
    var text := leader[..Min(|leader|, BUFFER_SIZE - 1)];
    text + LineEnd(|text|)
  }

  function HeadText(leader: string, headers: seq<(string, string)>): string {
    var open := Opening(leader);
    if headers == [] then open + LineEnd(|open|) else open + HeadersText(headers) + CRLF
  }

  /** The message head of section 5 of RFC 2616. */
  function WellFormedHead(leader: string, headers: seq<(string, string)>): string {
    leader + CRLF + HeadersText(headers) + CRLF
  }

  predicate LeaderFits(leader: string, headers: seq<(string, string)>) {
    |leader| <= BUFFER_SIZE - (if headers == [] then 5 else 3)
  }

  /** The head on the wire is the well-formed one exactly when the start line leaves room
      for the line ends queued together with it. */
  lemma HeadIsWellFormedIff(leader: string, headers: seq<(string, string)>)
    ensures HeadText(leader, headers) == WellFormedHead(leader, headers) <==> LeaderFits(leader, headers)
  {
    var open := Opening(leader);
    var text := leader[..Min(|leader|, BUFFER_SIZE - 1)];
    if |leader| <= BUFFER_SIZE - 3 {
      assert text == leader && LineEnd(|text|) == CRLF && open == leader + CRLF;
      if headers == [] {
        assert WellFormedHead(leader, headers) == open + CRLF;
        assert |HeadText(leader, headers)| == |open| + |LineEnd(|open|)|;
      }
    } else {
      assert |open| < |leader| + 2;
      assert |HeadText(leader, headers)| < |WellFormedHead(leader, headers)|;
    }
  }

  /** Moving the front of what is unqueued into the buffer leaves the whole text alone. */
  lemma Requeue(text: string, wire: string, queued: string, s: string, rest: string)
    requires text == (wire + queued) + (s + rest)
    ensures text == (wire + (queued + s)) + rest
  {
  }

  /** So does moving the front of the buffer onto the wire. */
  lemma Accept(text: string, wire: string, s: string, queued: string, rest: string)
    requires text == (wire + (s + queued)) + rest
    ensures text == ((wire + s) + queued) + rest
    ensures wire + s <= text
  {
  }

  lemma NextHeader(headers: seq<(string, string)>, next: nat, tail: string)
    requires next < |headers|
    ensures HeadersText(headers[next..]) + tail
      == (if Kept(headers[next]) then HeaderText(headers[next]) else "") + (HeadersText(headers[next + 1..]) + tail)
  {
    assert headers[next..][1..] == headers[next + 1..];
  }

  function BodyText(document: Option<Document>, unread: seq<string>, chunk: bool): string {
    if document.None? then "" else DocumentText(document.value.(blocks := unread), chunk)
  }

  /** Everything that a message puts on the wire. */
  function SentText(leader: string, headers: seq<(string, string)>, document: Option<Document>): string {
    HeadText(leader, headers)
    + BodyText(document, if document.None? then [] else document.value.blocks, SendsChunks(headers))
  }

  /** What is sent from the header `next` on. */
  function RestText(headers: seq<(string, string)>, next: nat, document: Option<Document>, unread: seq<string>, chunk: bool): string
    requires next <= |headers|
  {
    if next < |headers| then HeadersText(headers[next..]) + (CRLF + BodyText(document, unread, chunk))
    else BodyText(document, unread, chunk)
  }

  /** A read returns at least one byte and at most what the buffer has room for. */
  predicate Readable(blocks: seq<string>, chunk: bool) {
    forall i :: 0 <= i < |blocks| ==> 1 <= |blocks[i]| <= BUFFER_SIZE - (if chunk then 12 else 0)
  }

  lemma NextBlock(d: Option<Document>, blocks: seq<string>, chunk: bool)
    requires blocks != [] && d.Some?
    ensures BodyText(d, blocks, chunk)
      == (if chunk then ChunkText(blocks[0]) else blocks[0]) + BodyText(d, blocks[1..], chunk)
  {
  }

  class HttpBase {
    const start: StartLine
    const headers: seq<(string, string)>
    const document: Option<Document>
    ghost const text: string

    var next: nat
    var unread: seq<string>
    var chunkData: bool
    var buffer: array<char>
    var len: nat
    var wire: string
    var outcome: Option<HttpError>
    ghost var queued: string

    ghost predicate Buffered()
      reads this, buffer
    {
      buffer.Length == BUFFER_SIZE && len <= BUFFER_SIZE && queued == buffer[..len]
    }

    /** What has still to enter the buffer. */
    ghost function Unqueued(): string
      requires next <= |headers|
      reads this
    {
      RestText(headers, next, document, unread, chunkData)
    }

    /** Wire, buffer and unqueued parts make up the whole text; a message that completes has
        put all of it on the wire. */
    ghost predicate Valid()
      reads this, buffer
    {
      && Buffered() && next <= |headers|
      && Readable(unread, chunkData)
      && wire <= text
      && (outcome.None? ==> text == (wire + queued) + Unqueued())
      && (outcome == Some(NoError) ==> text == wire && (document.Some? ==> !document.value.broken))
    }

    constructor (start: StartLine, headers: seq<(string, string)>, document: Option<Document>)
      requires document.Some? ==> Readable(document.value.blocks, SendsChunks(headers))
      ensures Valid() && outcome.None? && wire == ""
      ensures text == SentText(FormatLeader(start), headers, document)
      ensures this.start == start && this.headers == headers && this.document == document
    {
      this.start, this.headers, this.document := start, headers, document;
      var leader := FormatLeader(start);
      text := SentText(leader, headers, document);
      var chunk := SendsChunks(headers);
      next, chunkData, wire, outcome := 0, chunk, "", None;
      unread := if document.None? then [] else document.value.blocks;
      buffer, len, queued := new char[BUFFER_SIZE], 0, "";
      new;
      QueueLeader(leader);
    }

    /** The start line, cut to what fits, and as many headers as there is room for. */
    method QueueLeader(leader: string)
      requires Buffered() && len == 0 && wire == "" && next == 0 && outcome.None? && Readable(unread, chunkData)
      requires text == HeadText(leader, headers) + BodyText(document, unread, chunkData)
      modifies buffer, this`len, this`next, this`queued
      ensures Valid()
    {
      hide HeadersText, DocumentText, Opening, HeadText;
      OpeningText(leader, headers, BodyText(document, unread, chunkData));
      assert headers[0..] == headers;
      Append(Opening(leader), if headers == [] then LineEnd(|Opening(leader)|) + BodyText(document, unread, chunkData) else Unqueued());
      if headers == [] {
        Append(LineEnd(len), Unqueued());
      } else {
        QueueHeaders();
      }
    }

    static lemma OpeningText(leader: string, headers: seq<(string, string)>, body: string)
      ensures HeadText(leader, headers) + body
        == ("" + "") + (Opening(leader) + (if headers == [] then LineEnd(|Opening(leader)|) + body
                                           else HeadersText(headers) + (CRLF + body)))
    {
      hide Opening, LineEnd, HeadersText;
      var open := Opening(leader);
      if headers == [] {
        assert open + LineEnd(|open|) + body == open + (LineEnd(|open|) + body);
      } else {
        assert open + HeadersText(headers) + CRLF + body == open + (HeadersText(headers) + (CRLF + body));
      }
    }

    /** Appends `s`, the front of the text that is not yet queued, to the buffer. */
    method Append(s: string, ghost rest: string)
      requires Buffered() && len + |s| <= BUFFER_SIZE
      requires text == (wire + queued) + (s + rest)
      modifies buffer, this`len, this`queued
      ensures Buffered() && len == old(len) + |s| && queued == old(queued) + s
      ensures text == (wire + queued) + rest
    {
      Requeue(text, wire, queued, s, rest);
      forall i | 0 <= i < |s| {
        buffer[len + i] := s[i];
      }
      len := len + |s|;
      queued := queued + s;
      assert buffer[..len] == queued;
    }

    /** `sprintfn` prints a header behind the queued bytes, cut to the room there is; it
        counts only if it was not cut. One that does not fit an empty buffer is dropped. */
    method QueueHeaders()
      requires Valid() && outcome.None? && next < |headers|
      modifies buffer, this`len, this`next, this`queued
      ensures Valid() && old(next) <= next
      ensures old(len) == 0 ==> old(next) < next
    {
      hide HeaderText, DocumentText, HeadersText, BodyText, Readable;
      ghost var body := BodyText(document, unread, chunkData);
      while next < |headers|
        invariant Buffered() && old(next) <= next <= |headers|
        invariant text == (wire + queued) + (HeadersText(headers[next..]) + (CRLF + body))
        invariant old(len) == 0 ==> len == 0 || old(next) < next
        invariant next == |headers| ==> old(next) < next && len < BUFFER_SIZE - 3
        decreases |headers| - next
      {
        var line := HeaderText(headers[next]);
        var printed := if len < BUFFER_SIZE then Min(|line|, BUFFER_SIZE - len - 1) else 0;
        ghost var rest := HeadersText(headers[next + 1..]) + (CRLF + body);
        NextHeader(headers, next, CRLF + body);
        if len + printed < BUFFER_SIZE - 3 {
          Append(line, rest);
          next := next + 1;
        } else if len == 0 {
          assert "" + rest == rest;
          next := next + 1;
        } else {
          return;
        }
      }
      NoHeaders(headers[next..], CRLF + body);
      assert LineEnd(len) == CRLF;
      Append(LineEnd(len), body);
    }

    static lemma NoHeaders(headers: seq<(string, string)>, tail: string)
      requires headers == []
      ensures HeadersText(headers) + tail == tail
    {
    }

    /** Offers the queued bytes to the stream until they are gone, or it blocks or fails.
        Returns how many results have been used, and whether the buffer has been emptied. */
    method WriteBuffer(writes: seq<WriteResult>, from: nat) returns (i: nat, empty: bool)
      requires Valid() && outcome.None? && from <= |writes|
      modifies this`wire, this`len, this`outcome, this`queued, buffer
      ensures Valid() && from <= i <= |writes| && old(wire) <= wire
      ensures empty <==> outcome.None? && len == 0
      ensures outcome != Some(NoError)
      ensures Willing(writes) ==> outcome.None? && i - from <= |wire| - |old(wire)| && (empty || i == |writes|)
      ensures old(len) == 0 ==> empty && i == from && wire == old(wire)
      ensures old(len) > 0 && from < |writes| && writes[from].Wrote? ==> |old(wire)| < |wire|
    {
      hide RestText;
      var start: nat := 0;
      i := from;
      ghost var rest := Unqueued();
      while start < len
        invariant start <= len == old(len) && from <= i <= |writes| && outcome.None? && buffer[..] == old(buffer[..])
        invariant queued == buffer[start..len] && text == (wire + queued) + rest
        invariant old(wire) <= wire <= text
        invariant Willing(writes) ==> i - from <= |wire| - |old(wire)|
        invariant if start == 0 then i == from && wire == old(wire) else |old(wire)| < |wire|
      {
        var result := if i < |writes| then writes[i] else WriteBlock;
        i := if i < |writes| then i + 1 else i;
        match result {
          case Wrote(n) =>
            start := TakeSome(start, n, rest);
          case WriteBlock =>
            ShiftDown(start);
            return i, false;
          case WriteFail(cause) =>
            outcome, queued := Some(CauseError(cause)), buffer[..len];
            return i, false;
        }
      }
      len := 0;
      return i, true;
    }

    /** One write: the stream takes some of the bytes from `start` on, at least one. */
    method TakeSome(start: nat, n: nat, ghost rest: string) returns (next: nat)
      requires buffer.Length == BUFFER_SIZE && start < len <= BUFFER_SIZE
      requires queued == buffer[start..len] && text == (wire + queued) + rest
      modifies this`wire, this`queued
      ensures start < next <= len && queued == buffer[next..len] && text == (wire + queued) + rest
      ensures old(wire) <= wire <= text && |wire| == |old(wire)| + next - start
    {
      var written := if n == 0 then 1 else Min(n, len - start);
      next := start + written;
      var taken := buffer[start..next];
      SplitSuffix(buffer[..len], start, next);
      assert queued == taken + buffer[next..len];
      Accept(text, wire, taken, buffer[next..len], rest);
      wire, queued := wire + taken, buffer[next..len];
    }

    method ShiftDown(start: nat)
      requires buffer.Length == BUFFER_SIZE && start <= len <= BUFFER_SIZE && queued == buffer[start..len]
      modifies buffer, this`len
      ensures Buffered() && len == old(len) - start
    {
      var kept := buffer[start..len];
      len := len - start;
      forall k | 0 <= k < len {
        buffer[k] := kept[k];
      }
      assert buffer[..len] == kept;
    }

    /** The document is read into an empty buffer, as a chunk if chunks are on. */
    method QueueDocument() returns (more: bool)
      requires Valid() && outcome.None? && len == 0 && next == |headers| && document.Some?
      modifies this`unread, this`chunkData, this`len, this`outcome, this`queued, buffer
      ensures Valid()
      ensures more ==> outcome.None? && (|unread| < |old(unread)| || (unread == old(unread) && old(chunkData) && !chunkData))
      ensures !more ==> text == wire && outcome == if document.value.broken then Some(Stream) else None
    {
      hide HeadersText, ChunksText, ToHex;
      if unread != [] {
        var block := unread[0];
        NextBlock(document, unread, chunkData);
        ghost var rest := BodyText(document, unread[1..], chunkData);
        if chunkData {
          QueueChunk(block, rest);
        } else {
          Append(block, rest);
        }
        unread := unread[1..];
        return true;
      }
      DrainedText(document);
      if document.value.broken {
        outcome := Some(Stream);
        return false;
      }
      if !chunkData {
        return false;
      }
      Append(LAST_CHUNK, "");
      chunkData := false;
      return true;
    }

    static lemma DrainedText(d: Option<Document>)
      requires d.Some?
      ensures BodyText(d, [], true) == (if d.value.broken then "" else LAST_CHUNK) + ""
      ensures BodyText(d, [], false) == ""
    {
    }

    /** Length, line end, data and line end, as laid out at offset 10 of the buffer. */
    method QueueChunk(block: string, ghost rest: string)
      requires Buffered() && len == 0 && |block| <= BUFFER_SIZE - 12
      requires text == (wire + queued) + (ChunkText(block) + rest)
      modifies buffer, this`len, this`queued
      ensures Buffered() && text == (wire + queued) + rest
    {
      hide ToHex;
      ghost var size := ToHex(|block|, 8);
      assert ChunkText(block) + rest == size + (CRLF + (block + (CRLF + rest)));
      Append(ToHex(|block|, 8), CRLF + (block + (CRLF + rest)));
      Append(CRLF, block + (CRLF + rest));
      Append(block, CRLF + rest);
      Append(CRLF, rest);
    }

    /** The writable stream takes what it will; at the end of the message we are done. A stream
        that takes something makes the wire grow, and one that keeps taking gets all of it. */
    method FlushData(writes: seq<WriteResult>)
      requires Valid() && outcome.None?
      modifies this, buffer
      ensures Valid() && old(wire) <= wire
      ensures writes != [] && writes[0].Wrote? && old(wire) != text ==> |old(wire)| < |wire|
      ensures Willing(writes) && |writes| >= |text| - |old(wire)| ==>
        wire == text && outcome == Some(if document.Some? && document.value.broken then Stream else NoError)
    {
      var i := 0;
      while true
        invariant Valid() && outcome.None? && old(wire) <= wire && buffer == old(buffer) && i <= |writes|
        invariant Willing(writes) ==> i <= |wire| - |old(wire)|
        invariant (i == 0 && wire == old(wire)) || |old(wire)| < |wire|
        decreases |headers| - next, |unread|, if chunkData then 1 else 0
      {
        hide Buffered, Readable, RestText;
        var round;
        i, round := FlushOnce(writes, i);
        if round.Stopped? {
          return;
        }
        if round.Drained? {
          break;
        }
      }
      outcome := Some(NoError);
    }

    /** Empties the buffer and fills it again. */
    method FlushOnce(writes: seq<WriteResult>, from: nat) returns (i: nat, round: Round)
      requires Valid() && outcome.None? && from <= |writes|
      modifies this, buffer
      ensures Valid() && old(wire) <= wire && buffer == old(buffer) && from <= i <= |writes|
      ensures Willing(writes) ==> i - from <= |wire| - |old(wire)|
      ensures round.Again? ==> outcome.None?
      ensures round.Again? ==>
        || old(next) < next
        || (next == old(next) && (|unread| < |old(unread)| || (unread == old(unread) && old(chunkData) && !chunkData)))
      ensures round.Drained? ==> outcome.None? && wire == text && (document.Some? ==> !document.value.broken)
      ensures !round.Stopped? ==> (i == from && wire == old(wire)) || |old(wire)| < |wire|
      ensures round.Stopped? && from < |writes| && writes[from].Wrote? ==> wire == text || |old(wire)| < |wire|
      ensures round.Stopped? && Willing(writes) ==>
        || (i == |writes| && |wire| < |text|)
        || (wire == text && document.Some? && document.value.broken && outcome == Some(Stream))
    {
      hide RestText;
      var empty;
      i, empty := WriteBuffer(writes, from);
      if !empty {
        if outcome.None? {
          QueuedIsLeft();
        }
        return i, Stopped;
      }
      var more := QueueMore();
      round := if outcome.Some? then Stopped else if more then Again else Drained;
    }

    lemma QueuedIsLeft()
      requires Valid() && outcome.None? && len > 0
      ensures |wire| < |text|
    {
    }

    /** What comes next goes into the empty buffer: headers, or a part of the document. */
    method QueueMore() returns (more: bool)
      requires Valid() && outcome.None? && len == 0
      modifies this`next, this`unread, this`chunkData, this`len, this`outcome, this`queued, buffer
      ensures Valid()
      ensures more ==> outcome.None?
      ensures more ==>
        || old(next) < next
        || (next == old(next) && (|unread| < |old(unread)| || (unread == old(unread) && old(chunkData) && !chunkData)))
      ensures !more ==> text == wire && outcome == if document.Some? && document.value.broken then Some(Stream) else None
    {
      hide HeadersText, DocumentText;
      if next < |headers| {
        QueueHeaders();
        return true;
      }
      if document.Some? {
        more := QueueDocument();
        return;
      }
      return false;
    }
  }
}
