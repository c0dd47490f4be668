/** Lines that end a message with a protocol error, told by their characters. */
module HttpRejects {
  import opened Wrappers
  import opened Bytes
  import opened HttpText
  import opened HttpStartLine
  import opened HttpMachine
  import opened HttpRoundTrip
  import opened HttpSpelling

  /** The parser in front of a line of this kind. */
  predicate InFront(m: Machine, state: State) {
    m.done.None? && m.state == state && m.line == "" && m.rest == "" && OnLine(state)
  }

  /** The message has ended with this line, as an error. */
  predicate Fails(c: Client, m: Machine, l: string, rest: string) {
    var r := Feed(c, m, l + ['\n'] + rest);
    r.done == Some(Protocol) && r.rest == rest && r.msg == m.msg
  }

  lemma LineFails(c: Client, m: Machine, l: string, rest: string)
    requires InFront(m, m.state) && '\n' !in l
    requires var r := LineCore(c, m, TrimRight(l), "");
      !r.more && r.err == Protocol && r.m.msg == m.msg && r.m.rest == ""
    ensures Fails(c, m, l, rest)
  {
    hide LineCore, Step;
    FeedLine(c, m, l, rest);
    FeedAfterEnd(c, Close(LineCore(c, m, TrimRight(l), "")), rest);
    assert "" + rest == rest;
  }

  /** A header line without a colon. */
  lemma HeaderWithoutColon(c: Client, m: Machine, l: string, rest: string)
    requires InFront(m, Headers) && '\n' !in l && ':' !in l && TrimRight(l) != ""
    ensures Fails(c, m, l, rest)
  {
    var line := TrimRight(l);
    assert ':' !in line;
    NoColon(line, 0);
    LineFails(c, m, l, rest);
  }

  lemma {:induction false} NoColon(s: string, i: nat)
    requires i <= |s| && ':' !in s
    ensures FindColon(s, i).None?
    decreases |s| - i
  {
    if i < |s| && s[i] != '\0' {
      NoColon(s, i + 1);
    }
  }

  /** A transfer coding other than the two that are known, in any case. */
  lemma UnknownCoding(m: Machine, name: string, value: string)
    requires Respells(name, "Transfer-Encoding") && !Respells(value, "chunked") && !Respells(value, "identity")
    ensures HeaderField(m, name, value, "") == LineResult(m, false, Protocol)
  {
    hide EqualNoCase, ScanInt;
    NamesDiffer(name);
    EqualNoCaseIff(name, "Content-Length");
    EqualNoCaseIff(name, "Transfer-Encoding");
    EqualNoCaseIff(value, "chunked");
    EqualNoCaseIff(value, "identity");
  }

  /** The coding that switches chunks off again, in any case. */
  lemma IdentityEndsChunks(m: Machine, name: string, value: string)
    requires Respells(name, "Transfer-Encoding") && Respells(value, "identity")
    ensures var r := HeaderField(m, name, value, "");
      r.more && r.m == m.(chunked := false, msg := m.msg.(headers := m.msg.headers + [(name, value)]))
  {
    hide EqualNoCase, ScanInt;
    NamesDiffer(name);
    EqualNoCaseIff(name, "Content-Length");
    EqualNoCaseIff(name, "Transfer-Encoding");
    EqualNoCaseIff(value, "chunked");
    EqualNoCaseIff(value, "identity");
  }

  /** A length that begins with neither a digit nor a sign. */
  lemma LengthIsNoNumber(m: Machine, name: string, value: string)
    requires Respells(name, "Content-Length") && value != "" && !IsSpace(value[0])
    requires !('0' <= value[0] <= '9') && value[0] != '-' && value[0] != '+'
    ensures var r := HeaderField(m, name, value, "");
      !r.more && r.err == Protocol && r.m.msg == m.msg
  {
    EqualNoCaseIff(name, "Content-Length");
    hide EqualNoCase;
    assert value + "" == value;
    assert SkipSpace(value, 0) == 0 && DigitEnd(value, 0) == 0;
  }

  /** A blank line where the size of a chunk should be. */
  lemma ChunkWithoutSize(c: Client, m: Machine, l: string, rest: string)
    requires InFront(m, ChunkSize) && '\n' !in l && TrimRight(l) == ""
    ensures Fails(c, m, l, rest)
  {
    LineFails(c, m, l, rest);
  }

  /** A chunk whose data does not end where its size says. */
  lemma ChunkTooLong(c: Client, m: Machine, l: string, rest: string)
    requires InFront(m, ChunkTerm) && '\n' !in l && TrimRight(l) != ""
    ensures Fails(c, m, l, rest)
  {
    LineFails(c, m, l, rest);
  }

  /** Only two versions are known. */
  lemma VersionsKnown(major: Word, minor: Word)
    ensures VersionOf(major, minor) == Some(Http10) <==> major == 1 && minor == 0
    ensures VersionOf(major, minor) == Some(Http11) <==> major == 1 && minor == 1
  {
  }
}
