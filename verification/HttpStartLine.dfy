/** The start line of a message. It is read by a scan over memory that knows nothing of where
    the line ends: what the line lacks is looked for behind it. */
module HttpStartLine {
  import opened Wrappers
  import opened Bytes
  import opened HttpText

  datatype Kind = Request | Response

  datatype Verb = Get | Post | Put | Delete | Connect | Head

  datatype Version = Http10 | Http11

  datatype StartLine =
    | RequestLine(verb: Verb, path: string, version: Version)
    | StatusLine(version: Version, code: Word, message: string)

  /** The verdict on a start line. `Undefined`: the message would begin behind the end of the
      line, and its length wraps around. */
  datatype Leader = Parsed(start: StartLine) | Rejected | Undefined

  function VerbName(v: Verb): (s: string)
    ensures s != "" && forall k :: 0 <= k < |s| ==> IsWordChar(s[k])
  {
    match v
    case Get => "GET"
    case Post => "POST"
    case Put => "PUT"
    case Delete => "DELETE"
    case Connect => "CONNECT"
    case Head => "HEAD"
  }

  /** The table is searched without regard for case. */
  function VerbOf(s: string): Option<Verb> {
    if EqualNoCase(s, VerbName(Get)) then Some(Get)
    else if EqualNoCase(s, VerbName(Post)) then Some(Post)
    else if EqualNoCase(s, VerbName(Put)) then Some(Put)
    else if EqualNoCase(s, VerbName(Delete)) then Some(Delete)
    else if EqualNoCase(s, VerbName(Connect)) then Some(Connect)
    else if EqualNoCase(s, VerbName(Head)) then Some(Head)
    else None
  }

  function VersionOf(major: Word, minor: Word): Option<Version> {
    if major != 1 then None else if minor == 0 then Some(Http10) else if minor == 1 then Some(Http11) else None
  }

  // ------------------------------------------------------------------ scanning

  predicate IsWordChar(c: char) { !IsSpace(c) && c != '\0' }

  /** `%*s` without the blanks in front of it. */
  function WordEnd(s: string, i: nat): (e: nat)
    requires i <= |s|
    ensures i <= e <= |s| && (e < |s| ==> !IsWordChar(s[e])) && forall k :: i <= k < e ==> IsWordChar(s[k])
    decreases |s| - i
  {
    if i < |s| && IsWordChar(s[i]) then WordEnd(s, i + 1) else i
  }

  predicate LiteralAt(s: string, i: nat, literal: string) {
    i + |literal| <= |s| && s[i..i + |literal|] == literal
  }

  /** How a scan ends. `Short`: it came to the end of the text where blanks are skipped, so
      more text would be read on; the numbers are those it has read by then. */
  datatype Scan<T> = Read(value: T) | Mismatch | Short(major: Option<Word>, minor: Option<Word>)

  datatype VersionScan = VersionScan(major: Word, minor: Word, end: nat)

  /** `HTTP/%lu.%lu` */
  function VersionAt(s: string, i: nat): (r: Scan<VersionScan>)
    requires i <= |s|
    ensures r.Read? ==> i < r.value.end <= |s|
  {
    if !LiteralAt(s, i, "HTTP/") then Mismatch
    else
      match NumberAt(s, i + 5)
      case NoInput => Short(None, None)
      case NoDigits => Mismatch
      case Digits(major, e) =>
        if !LiteralAt(s, e, ".") then Mismatch
        else
          match NumberAt(s, e + 1)
          case NoInput => Short(Some(major), None)
          case NoDigits => Mismatch
          case Digits(minor, f) => Read(VersionScan(major, minor, f))
  }

  datatype RequestScan = RequestScan(verbEnd: nat, pathStart: nat, pathEnd: nat, version: VersionScan)

  /** `%*s%n %n%*s%n HTTP/%lu.%lu` */
  function ScanRequest(s: string): (r: Scan<RequestScan>)
    ensures r.Read? ==> r.value.verbEnd <= r.value.pathStart <= r.value.pathEnd <= |s|
  {
    var i := SkipSpace(s, 0);
    var v := WordEnd(s, i);
    if i == |s| then Short(None, None)
    else if v == i then Mismatch
    else
      var d := SkipSpace(s, v);
      var e := WordEnd(s, d);
      if d == |s| then Short(None, None)
      else if e == d then Mismatch
      else
        var h := SkipSpace(s, e);
        if h == |s| then Short(None, None)
        else
          match VersionAt(s, h)
          case Read(version) => Read(RequestScan(v, d, e, version))
          case Mismatch => Mismatch
          case Short(major, minor) => Short(major, minor)
  }

  datatype ResponseScan = ResponseScan(version: VersionScan, code: Word, end: nat)

  /** `HTTP/%lu.%lu %lu%n` */
  function ScanResponse(s: string): (r: Scan<ResponseScan>)
    ensures r.Read? ==> r.value.end <= |s|
  {
    match VersionAt(s, 0)
    case Mismatch => Mismatch
    case Short(major, minor) => Short(major, minor)
    case Read(version) =>
      match NumberAt(s, version.end)
      case NoInput => Short(Some(version.major), Some(version.minor))
      case NoDigits => Mismatch
      case Digits(code, e) => Read(ResponseScan(version, code, e))
  }

  // ------------------------------------------------------------------ the verdict

  /** What a request makes of its start line; `after` is what memory holds behind it. */
  function ParseRequest(line: string, after: string): Leader {
    var s := line + after;
    var r := ScanRequest(s);
    if !r.Read? then Rejected
    else
      var version, verb := VersionOf(r.value.version.major, r.value.version.minor), VerbOf(s[..r.value.verbEnd]);
      if version.None? || verb.None? then Rejected
      else Parsed(RequestLine(verb.value, s[r.value.pathStart..r.value.pathEnd], version.value))
  }

  function ParseResponse(line: string, after: string): Leader {
    var r := ScanResponse(line + after);
    if !r.Read? then Rejected
    else
      var version := VersionOf(r.value.version.major, r.value.version.minor);
      if version.None? then Rejected
      else if r.value.end > |line| then Undefined
      else Parsed(StatusLine(version.value, r.value.code, line[SkipSpace(line, r.value.end)..]))
  }

  function ParseLeader(kind: Kind, line: string, after: string): Leader {
    if kind.Request? then ParseRequest(line, after) else ParseResponse(line, after)
  }

  /** The line ends where its format goes on after blanks, with nothing wrong so far: its
      verdict depends on what memory holds behind it. */
  predicate RunsOn(kind: Kind, line: string) {
    match kind
    case Request =>
      var r := ScanRequest(line);
      r.Short? && VerbOf(line[..WordEnd(line, 0)]).Some? && (r.major == None || r.major == Some(1))
    case Response =>
      var r := ScanResponse(line);
      && r.Short? && (r.major == None || r.major == Some(1))
      && (r.minor == None || r.minor == Some(0) || r.minor == Some(1))
  }

  // ------------------------------------------------------------------ lines that are decided alone

  lemma {:induction false} WordStays(s: string, after: string, i: nat)
    requires i <= |s| && StartsBlank(after)
    ensures WordEnd(s + after, i) == WordEnd(s, i)
    decreases |s| - i
  {
    if i < |s| && IsWordChar(s[i]) {
      WordStays(s, after, i + 1);
    }
  }

  lemma LiteralStays(s: string, after: string, i: nat, literal: string)
    requires i <= |s| && StartsBlank(after) && forall k :: 0 <= k < |literal| ==> !IsSpace(literal[k])
    ensures LiteralAt(s + after, i, literal) <==> LiteralAt(s, i, literal)
  {
    var t := s + after;
    if i + |literal| <= |s| {
      assert t[i..i + |literal|] == s[i..i + |literal|];
    } else {
      assert i + |literal| <= |t| ==> t[i..i + |literal|][|s| - i] == after[0];
    }
  }

  /** More text changes a version scan only if that came up short, and not what it has read. */
  lemma VersionStays(s: string, after: string, i: nat)
    requires i <= |s| && StartsBlank(after)
    ensures var r, r' := VersionAt(s, i), VersionAt(s + after, i);
      && (!r.Short? ==> r' == r)
      && (r.Short? && r.major.Some? && r'.Read? ==> r'.value.major == r.major.value)
      && (r.Short? ==> r.minor == None)
      && (r'.Read? && !r.Read? ==> r'.value.end > |s|)
  {
    hide NumberAt;
    LiteralStays(s, after, i, "HTTP/");
    if LiteralAt(s, i, "HTTP/") {
      var n := NumberAt(s, i + 5);
      if !n.NoInput? {
        NumberStays(s, after, i + 5);
        if n.Digits? {
          LiteralStays(s, after, n.end, ".");
          if LiteralAt(s, n.end, ".") {
            if NumberAt(s, n.end + 1).NoInput? {
              NumberIsLater(s, after, n.end + 1);
            } else {
              NumberStays(s, after, n.end + 1);
            }
          }
        }
      } else {
        NumberIsLater(s, after, i + 5);
      }
    }
  }

  /** A number that the text has no room for is found behind it. */
  lemma {:induction false} NumberIsLater(s: string, after: string, i: nat)
    requires i <= |s| && NumberAt(s, i).NoInput?
    ensures NumberAt(s + after, i).Digits? ==> NumberAt(s + after, i).end > |s|
    decreases |s| - i
  {
    if i < |s| {
      NumberIsLater(s, after, i + 1);
    }
  }

  lemma FirstDiffers(s: string, name: string)
    requires s != "" && name != "" && Lower(s[0]) != Lower(name[0])
    ensures !EqualNoCase(s, name)
  {
  }

  lemma VerbHasNoBlank(s: string)
    requires s != "" && IsSpace(s[0])
    ensures VerbOf(s).None?
  {
    FirstDiffers(s, "GET");
    FirstDiffers(s, "POST");
    FirstDiffers(s, "PUT");
    FirstDiffers(s, "DELETE");
    FirstDiffers(s, "CONNECT");
    FirstDiffers(s, "HEAD");
  }

  lemma RequestStays(line: string, after: string)
    requires StartsBlank(after) && !RunsOn(Request, line)
    ensures ParseRequest(line, after) == ParseRequest(line, "")
  {
    hide NumberAt, VerbOf, VersionAt;
    var s := line + after;
    assert line + "" == line;
    var i := SkipSpace(line, 0);
    if i == |line| || i > 0 {
      BlankStart(line, after);
    } else {
      var v := WordEnd(line, 0);
      WordStays(line, after, 0);
      if v > 0 {
        assert s[..v] == line[..v];
        var d := SkipSpace(line, v);
        if d < |line| {
          SpaceStays(line, after, v);
          WordStays(line, after, d);
          var e := WordEnd(line, d);
          var h := SkipSpace(line, e);
          assert s[d..e] == line[d..e];
          if e > d && h < |line| {
            SpaceStays(line, after, e);
            VersionStays(line, after, h);
          }
        }
      }
    }
  }

  /** A line that starts with a blank, or is one, is rejected in any case: the verb is taken
      from the start of the line. */
  lemma BlankStart(line: string, after: string)
    requires StartsBlank(after) && (line == "" || IsSpace(line[0]))
    ensures ParseRequest(line, after) == Rejected && ParseRequest(line, "") == Rejected
  {
    hide NumberAt, VerbOf, VersionAt;
    var s := line + after;
    assert line + "" == line;
    if ScanRequest(s).Read? {
      VerbHasNoBlank(s[..ScanRequest(s).value.verbEnd]);
    }
    if ScanRequest(line).Read? {
      VerbHasNoBlank(line[..ScanRequest(line).value.verbEnd]);
    }
  }

  lemma ResponseStays(line: string, after: string)
    requires StartsBlank(after) && !RunsOn(Response, line)
    ensures ParseResponse(line, after) == ParseResponse(line, "")
  {
    hide NumberAt, VersionAt;
    assert line + "" == line;
    VersionStays(line, after, 0);
    var r := VersionAt(line, 0);
    if r.Read? && !NumberAt(line, r.value.end).NoInput? {
      NumberStays(line, after, r.value.end);
    }
  }

  /** A start line whose scan does not run on is decided alone. */
  lemma LeaderStaysOnLine(kind: Kind, line: string, after: string)
    requires StartsBlank(after) && !RunsOn(kind, line)
    ensures ParseLeader(kind, line, after) == ParseLeader(kind, line, "")
    ensures ParseLeader(kind, line, after) != Undefined
  {
    hide ScanRequest, ScanResponse;
    assert line + "" == line;
    if kind.Request? {
      RequestStays(line, after);
    } else {
      ResponseStays(line, after);
    }
  }

  // ------------------------------------------------------------------ lines that are not

  lemma {:induction false} SpaceToEnd(s: string, t: string, i: nat)
    requires i <= |s| && SkipSpace(s, i) == |s| && t != "" && !IsSpace(t[0])
    ensures SkipSpace(s + "\n" + t, i) == |s| + 1 && SkipSpace(s + "\n", i) == |s| + 1
    decreases |s| - i
  {
    if i < |s| {
      SpaceToEnd(s, t, i + 1);
    }
  }

  /** A single digit, with no digit behind it. */
  lemma OneDigit(s: string, i: nat, d: nat)
    requires d < 10 && i < |s| && s[i] == '0' + d as char && (i + 1 < |s| ==> !IsDigit(s[i + 1]))
    ensures NumberAt(s, i) == Digits(d, i + 1)
  {
    assert DigitEnd(s, i + 1) == i + 1 && DigitEnd(s, i) == i + 1;
    assert Decimal(s, i, i + 1) == d;
  }

  /** A number that the text lacks is read from what follows. */
  lemma NumberLater(s: string, t: string, i: nat, d: nat)
    requires i <= |s| && NumberAt(s, i).NoInput? && d < 10
    requires t != "" && t[0] == '0' + d as char && (|t| > 1 ==> !IsDigit(t[1]))
    ensures NumberAt(s + "\n" + t, i) == Digits(d, |s| + 2) && NumberAt(s + "\n", i).NoInput?
  {
    SpaceToEnd(s, t, i);
    OneDigit(s + "\n" + t, |s| + 1, d);
  }

  predicate NoDigit(u: string) { u != "" ==> !IsDigit(u[0]) }

  /** A version that the text cuts short is completed by what follows, and by no blank. */
  lemma VersionCompletes(s: string, i: nat, u: string)
    requires i <= |s| && VersionAt(s, i).Short? && NoDigit(u)
    ensures var r := VersionAt(s, i);
      var t := if r.major.None? then "1.0" + u else "0" + u;
      && VersionAt(s + "\n" + t, i)
        == Read(VersionScan(if r.major.None? then 1 else r.major.value, 0, |s| + 1 + |t| - |u|))
      && VersionAt(s + "\n", i).Short?
  {
    hide NumberAt;
    var r := VersionAt(s, i);
    var t := if r.major.None? then "1.0" + u else "0" + u;
    var all := s + "\n" + t;
    assert all == s + ("\n" + t);
    LiteralStays(s, "\n" + t, i, "HTTP/");
    LiteralStays(s, "\n", i, "HTTP/");
    if r.major.None? {
      NumberLater(s, t, i + 5, 1);
      assert all[|s| + 2..|s| + 3] == "." && all[|s| + 3] == '0';
      assert u != "" ==> all[|s| + 4] == u[0];
      OneDigit(all, |s| + 3, 0);
    } else {
      var e := NumberAt(s, i + 5).end;
      NumberStays(s, "\n" + t, i + 5);
      NumberStays(s, "\n", i + 5);
      LiteralStays(s, "\n" + t, e, ".");
      LiteralStays(s, "\n", e, ".");
      assert u != "" ==> t[1] == u[0];
      NumberLater(s, t, e + 1, 0);
    }
  }

  function VersionName(v: Version): string {
    if v.Http10? then "1.0" else "1.1"
  }

  function Minor(v: Version): Word {
    if v.Http10? then 0 else 1
  }

  lemma VersionIs(front: string, v: Version, rest: string)
    requires NoDigit(rest)
    ensures VersionAt(front + "HTTP/" + VersionName(v) + rest, |front|) == Read(VersionScan(1, Minor(v), |front| + 8))
    ensures VersionOf(1, Minor(v)) == Some(v)
  {
    hide NumberAt;
    var s, i := front + "HTTP/" + VersionName(v) + rest, |front|;
    assert s[i..i + 5] == "HTTP/" && s[i + 6..i + 7] == ".";
    assert s[i + 5] == '1' && s[i + 6] == '.' && s[i + 7] == '0' + Minor(v) as char;
    assert rest != "" ==> s[i + 8] == rest[0];
    OneDigit(s, i + 5, 1);
    OneDigit(s, i + 7, Minor(v));
  }

  lemma VersionTen(front: string)
    ensures VersionAt(front + "HTTP/1.0", |front|) == Read(VersionScan(1, 0, |front| + 8))
  {
    hide VersionAt;
    assert "HTTP/" + "1.0" + "" == "HTTP/1.0";
    assert front + "HTTP/" + "1.0" + "" == front + "HTTP/1.0";
    VersionIs(front, Http10, "");
  }

  /** What completes a start line that runs on. */
  function Completion(kind: Kind, line: string): string {
    match kind
    case Request =>
      var d := SkipSpace(line, WordEnd(line, 0));
      if d == |line| then "/ HTTP/1.0"
      else if SkipSpace(line, WordEnd(line, d)) == |line| then "HTTP/1.0"
      else if !ScanRequest(line).Short? || ScanRequest(line).major.None? then "1.0" else "0"
    case Response =>
      var r := ScanResponse(line);
      if !r.Short? || r.major.None? then "1.0 2" else if r.minor.None? then "0 2" else "2"
  }

  lemma RequestIs(line: string, after: string, d: nat, e: nat, h: nat)
    requires var s := line + after;
      var v := WordEnd(s, 0);
      && SkipSpace(s, 0) == 0 && v > 0 && SkipSpace(s, v) == d < |s| && WordEnd(s, d) == e > d && SkipSpace(s, e) == h < |s|
      && VerbOf(s[..v]).Some? && VersionAt(s, h).Read?
      && VersionOf(VersionAt(s, h).value.major, VersionAt(s, h).value.minor).Some?
    ensures var s := line + after;
      var version := VersionAt(s, h).value;
      && ScanRequest(s).Read?
      && ParseRequest(line, after)
        == Parsed(RequestLine(VerbOf(s[..WordEnd(s, 0)]).value, s[d..e], VersionOf(version.major, version.minor).value))
  {
    hide VersionAt, VerbOf, VersionOf;
  }

  lemma PathIsMissing(line: string)
    requires RunsOn(Request, line) && SkipSpace(line, WordEnd(line, 0)) == |line|
    ensures ParseRequest(line, "\n" + "/ HTTP/1.0").Parsed?
  {
    hide NumberAt, VerbOf, VersionAt, RunsOn, ScanRequest, ParseRequest;
    var front := line + "\n" + "/ ";
    assert "/ " + "HTTP/1.0" == "/ HTTP/1.0";
    assert front + "HTTP/1.0" == line + "\n" + "/ HTTP/1.0";
    VersionTen(front);
    PathIsSlash(line, "/ HTTP/1.0");
  }

  lemma PathIsSlash(line: string, t: string)
    requires RunsOn(Request, line) && SkipSpace(line, WordEnd(line, 0)) == |line|
    requires |t| > 2 && t[0] == '/' && t[1] == ' ' && !IsSpace(t[2])
    requires var r := VersionAt(line + "\n" + t, |line| + 3);
      r.Read? && VersionOf(r.value.major, r.value.minor).Some?
    ensures ParseRequest(line, "\n" + t).Parsed?
  {
    hide NumberAt, VerbOf, VersionAt, VersionOf, RunsOn, ScanRequest, ParseRequest;
    var v, n, s := WordEnd(line, 0), |line|, line + "\n" + t;
    assert line + ("\n" + t) == s;
    NoVerbInBlank(line);
    WordStays(line, "\n" + t, 0);
    assert s[..v] == line[..v];
    SpaceToEnd(line, t, v);
    SlashIsPath(s, n + 1);
    RequestIs(line, "\n" + t, n + 1, n + 2, n + 3);
  }

  lemma SlashIsPath(s: string, i: nat)
    requires i + 2 < |s| && s[i] == '/' && s[i + 1] == ' ' && !IsSpace(s[i + 2])
    ensures WordEnd(s, i) == i + 1 && SkipSpace(s, i + 1) == i + 2
  {
    assert WordEnd(s, i + 1) == i + 1;
    assert SkipSpace(s, i + 2) == i + 2;
  }

  lemma VersionIsMissing(line: string)
    requires RunsOn(Request, line)
    requires var d := SkipSpace(line, WordEnd(line, 0));
      d < |line| && SkipSpace(line, WordEnd(line, d)) == |line|
    ensures ParseRequest(line, "\n" + "HTTP/1.0").Parsed?
  {
    hide NumberAt, VerbOf, VersionAt, RunsOn, ScanRequest, ParseRequest;
    var v, n, after := WordEnd(line, 0), |line|, "\n" + "HTTP/1.0";
    var s := line + "\n" + "HTTP/1.0";
    assert line + after == s;
    NoVerbInBlank(line);
    WordStays(line, after, 0);
    assert s[..v] == line[..v];
    SpaceStays(line, after, v);
    var d := SkipSpace(line, v);
    WordStays(line, after, d);
    PathIsWord(line, d);
    SpaceToEnd(line, "HTTP/1.0", WordEnd(line, d));
    VersionTen(line + "\n");
    RequestIs(line, after, d, WordEnd(line, d), n + 1);
  }

  /** Before a version that is missing stands a path, since blanks follow it only at the end. */
  lemma PathIsWord(line: string, d: nat)
    requires d < |line| && !IsSpace(line[d]) && SkipSpace(line, WordEnd(line, d)) == |line|
    ensures WordEnd(line, d) > d
  {
  }

  lemma VersionIsShort(line: string)
    requires RunsOn(Request, line)
    requires var d := SkipSpace(line, WordEnd(line, 0));
      d < |line| && SkipSpace(line, WordEnd(line, d)) < |line|
    ensures ParseRequest(line, "\n" + if ScanRequest(line).major.None? then "1.0" else "0").Parsed?
  {
    hide NumberAt, VerbOf, VersionAt;
    var v, t := WordEnd(line, 0), if ScanRequest(line).major.None? then "1.0" else "0";
    var s := line + "\n" + t;
    assert line + ("\n" + t) == s;
    NoVerbInBlank(line);
    WordStays(line, "\n" + t, 0);
    assert s[..v] == line[..v];
    SpaceStays(line, "\n" + t, v);
    var d := SkipSpace(line, v);
    WordStays(line, "\n" + t, d);
    var e := WordEnd(line, d);
    SpaceStays(line, "\n" + t, e);
    VersionCompletes(line, SkipSpace(line, e), "");
    assert "1.0" + "" == "1.0" && "0" + "" == "0";
    RequestIs(line, "\n" + t, d, e, SkipSpace(line, e));
  }

  lemma {:induction false} SpaceToNewline(s: string, i: nat)
    requires i <= |s| && SkipSpace(s, i) == |s|
    ensures SkipSpace(s + "\n", i) == |s| + 1
    decreases |s| - i
  {
    if i < |s| {
      SpaceToNewline(s, i + 1);
    }
  }

  lemma ShortStays(line: string)
    requires RunsOn(Request, line)
    ensures ParseRequest(line, "\n") == Rejected
  {
    hide NumberAt, VerbOf, VersionAt;
    var v, s := WordEnd(line, 0), line + "\n";
    NoVerbInBlank(line);
    WordStays(line, "\n", 0);
    var d := SkipSpace(line, v);
    if d == |line| {
      SpaceToNewline(line, v);
    } else {
      SpaceStays(line, "\n", v);
      WordStays(line, "\n", d);
      var e := WordEnd(line, d);
      if SkipSpace(line, e) == |line| {
        SpaceToNewline(line, e);
      } else {
        SpaceStays(line, "\n", e);
        VersionCompletes(line, SkipSpace(line, e), "");
      }
    }
  }

  lemma RequestCompletes(line: string)
    requires RunsOn(Request, line)
    ensures ParseRequest(line, "\n" + Completion(Request, line)).Parsed?
    ensures ParseRequest(line, "\n") == Rejected
  {
    hide ParseRequest, ScanRequest;
    ShortStays(line);
    var d := SkipSpace(line, WordEnd(line, 0));
    if d == |line| {
      PathIsMissing(line);
    } else if SkipSpace(line, WordEnd(line, d)) == |line| {
      VersionIsMissing(line);
    } else {
      VersionIsShort(line);
    }
  }

  lemma NoVerbInBlank(line: string)
    requires RunsOn(Request, line)
    ensures line != "" && WordEnd(line, 0) > 0 && SkipSpace(line, 0) == 0
    ensures VerbOf(line[..WordEnd(line, 0)]).Some?
  {
    assert line[..0] == "";
    assert VerbOf("").None?;
  }

  lemma ResponseCompletes(line: string)
    requires RunsOn(Response, line)
    ensures ParseResponse(line, "\n" + Completion(Response, line)) == Undefined
    ensures ParseResponse(line, "\n") == Rejected
  {
    hide NumberAt, VersionAt;
    var t := Completion(Response, line);
    var s := line + "\n" + t;
    assert line + ("\n" + t) == s;
    var r := VersionAt(line, 0);
    VersionStays(line, "\n" + t, 0);
    VersionStays(line, "\n", 0);
    if r.Short? {
      VersionCompletes(line, 0, " 2");
      assert "1.0" + " 2" == "1.0 2" && "0" + " 2" == "0 2";
      var e := |s| - 2;
      assert s[e] == ' ' && s[e + 1] == '2';
      SecondOfTwo(s, e);
    } else {
      NumberLater(line, t, r.value.end, 2);
    }
  }

  lemma SecondOfTwo(s: string, e: nat)
    requires e + 2 == |s| && s[e] == ' ' && s[e + 1] == '2'
    ensures NumberAt(s, e) == Digits(2, |s|)
  {
    OneDigit(s, e + 1, 2);
    assert SkipSpace(s, e + 1) == e + 1;
  }

  /** The verdict on a start line, and what is read out of it, are settled by the line alone
      exactly when its scan does not run on. */
  lemma LeaderIsLineBoundedIff(kind: Kind, line: string)
    ensures (forall a, b :: StartsBlank(a) && StartsBlank(b) ==> ParseLeader(kind, line, a) == ParseLeader(kind, line, b))
            <==> !RunsOn(kind, line)
  {
    hide ParseRequest, ParseResponse;
    if RunsOn(kind, line) {
      var a, b := "\n", "\n" + Completion(kind, line);
      assert StartsBlank(a) && StartsBlank(b);
      if kind.Request? {
        RequestCompletes(line);
      } else {
        ResponseCompletes(line);
      }
      assert ParseLeader(kind, line, a) != ParseLeader(kind, line, b);
    } else {
      forall a, b | StartsBlank(a) && StartsBlank(b) ensures ParseLeader(kind, line, a) == ParseLeader(kind, line, b) {
        LeaderStaysOnLine(kind, line, a);
        LeaderStaysOnLine(kind, line, b);
      }
    }
  }

  /** Two lines that pass for one: a request without a version is accepted if its next line
      has arrived with it and begins like one, and rejected if it has not. */
  lemma TwoLinesPassForOne()
    ensures RunsOn(Request, "GET /x")
    ensures ParseLeader(Request, "GET /x", "\nHTTP/1.0").Parsed?
    ensures ParseLeader(Request, "GET /x", "\n") == Rejected
  {
    hide VerbOf, VerbName, VersionAt, ParseRequest;
    var line := "GET /x";
    ScansTwoWords(line);
    VerbReadsBack(Get);
    GetIsGet();
    RequestCompletes(line);
    assert "\n" + "HTTP/1.0" == "\nHTTP/1.0";
  }

  lemma GetIsGet()
    ensures "GET /x"[..3] == VerbName(Get)
  {
  }

  lemma ScansTwoWords(line: string)
    requires line == "GET /x"
    ensures SkipSpace(line, 0) == 0 && WordEnd(line, 0) == 3 && SkipSpace(line, 3) == 4 && WordEnd(line, 4) == 6
  {
    assert WordEnd(line, 3) == 3 && WordEnd(line, 2) == 3 && WordEnd(line, 1) == 3;
    assert SkipSpace(line, 4) == 4;
    assert WordEnd(line, 5) == 6;
  }

  // ------------------------------------------------------------------ printing

  function KindOf(start: StartLine): Kind {
    if start.RequestLine? then Request else Response
  }

  function FormatLeader(start: StartLine): string {
    match start
    case RequestLine(verb, path, version) =>
      VerbName(verb) + " " + Printed(path) + " HTTP/" + VersionName(version)
    case StatusLine(version, code, message) =>
      "HTTP/" + VersionName(version) + " " + ToDecimal(code) + if message == "" then "" else " " + Printed(message)
  }

  /** A start line that can be told again: the path is one word, the message one line without
      blanks at its ends. */
  predicate Tellable(start: StartLine) {
    match start
    case RequestLine(verb, path, version) => path != "" && forall k :: 0 <= k < |path| ==> IsWordChar(path[k])
    case StatusLine(version, code, message) =>
      '\n' !in message && '\0' !in message && (message != "" ==> !IsSpace(message[0]) && !IsSpace(message[|message| - 1]))
  }

  lemma {:induction false} WordEndsAt(s: string, i: nat, e: nat)
    requires i <= e <= |s| && (forall k :: i <= k < e ==> IsWordChar(s[k])) && (e < |s| ==> !IsWordChar(s[e]))
    ensures WordEnd(s, i) == e
    decreases e - i
  {
    if i < e {
      WordEndsAt(s, i + 1, e);
    }
  }

  lemma VerbReadsBack(v: Verb)
    ensures VerbOf(VerbName(v)) == Some(v)
  {
    SameText(VerbName(v), 0);
    match v {
      case Get =>
      case Post => FirstDiffers("POST", "GET");
      case Put =>
        FirstDiffers("PUT", "GET");
      case Delete =>
        FirstDiffers("DELETE", "GET");
      case Connect =>
      case Head =>
        FirstDiffers("HEAD", "POST");
    }
  }

  /** A verb is known in any mix of cases, and in no other spelling. */
  lemma VerbSpelledIff(s: string, v: Verb)
    ensures VerbOf(s) == Some(v) <==> Respells(s, VerbName(v))
  {
    hide EqualNoCase;
    EqualNoCaseIff(s, "GET");
    EqualNoCaseIff(s, "POST");
    EqualNoCaseIff(s, "PUT");
    EqualNoCaseIff(s, "DELETE");
    EqualNoCaseIff(s, "CONNECT");
    EqualNoCaseIff(s, "HEAD");
    VerbsDiffer(s);
  }

  lemma VerbsDiffer(s: string)
    ensures !(Respells(s, "GET") && Respells(s, "PUT"))
    ensures !(Respells(s, "POST") && Respells(s, "HEAD"))
  {
    assert "GET"[0] == 'G' && "PUT"[0] == 'P' && "POST"[0] == 'P' && "HEAD"[0] == 'H';
  }

  lemma {:induction false} SameText(s: string, i: nat)
    requires i <= |s|
    ensures EqualNoCaseFrom(s, s, i)
    decreases |s| - i
  {
    if i < |s| {
      SameText(s, i + 1);
    }
  }

  /** A request line with the verb spelled as `name`. */
  function RequestText(name: string, path: string, version: Version): string {
    name + " " + path + " HTTP/" + VersionName(version)
  }

  lemma RequestReadsBack(name: string, verb: Verb, path: string, version: Version)
    requires VerbOf(name) == Some(verb) && Tellable(RequestLine(verb, path, version))
    requires name != "" && forall k :: 0 <= k < |name| ==> IsWordChar(name[k])
    ensures var line := RequestText(name, path, version);
      && ParseRequest(line, "") == Parsed(RequestLine(verb, path, version)) && ScanRequest(line).Read?
      && '\n' !in line && line != "" && !IsSpace(line[|line| - 1])
  {
    hide VersionAt, VerbOf, VersionOf, ScanRequest, ParseRequest, VersionName;
    var line := RequestText(name, path, version);
    NameIsThree(version);
    var v, e := |name|, |name| + 1 + |path|;
    LineParts(name, path, VersionName(version), line);
    assert line + "" == line;
    WordEndsAt(line, 0, v);
    WordEndsAt(line, v + 1, e);
    assert SkipSpace(line, 0) == 0 && SkipSpace(line, v + 1) == v + 1 && SkipSpace(line, v) == v + 1;
    assert SkipSpace(line, e + 1) == e + 1 && SkipSpace(line, e) == e + 1;
    VersionIs(name + " " + path + " ", version, "");
    RequestIs(line, "", v + 1, e, e + 1);
  }

  lemma VerbIsWord(v: Verb)
    ensures VerbName(v) != "" && forall k :: 0 <= k < |VerbName(v)| ==> IsWordChar(VerbName(v)[k])
  {
  }

  lemma LineParts(name: string, path: string, version: string, line: string)
    requires line == name + " " + path + " HTTP/" + version
    ensures var v, e := |name|, |name| + 1 + |path|;
      && e + 6 <= |line| && line[..v] == name && line[v] == ' ' && line[v + 1..e] == path && line[e] == ' ' && line[e + 1] == 'H'
      && (forall k :: 0 <= k < v ==> line[k] == name[k]) && (forall k :: v + 1 <= k < e ==> line[k] == path[k - v - 1])
      && line == name + " " + path + " " + "HTTP/" + version + ""
  {
    assert " " + "HTTP/" == " HTTP/";
  }

  lemma StatusReadsBack(version: Version, code: Word, message: string)
    requires Tellable(StatusLine(version, code, message))
    ensures ParseResponse(FormatLeader(StatusLine(version, code, message)), "") == Parsed(StatusLine(version, code, message))
    ensures ScanResponse(FormatLeader(StatusLine(version, code, message))).Read?
  {
    hide VersionAt, NumberAt, ToDecimal, VersionName, VersionOf, ScanResponse, ParseResponse;
    var line, digits := FormatLeader(StatusLine(version, code, message)), ToDecimal(code);
    var rest := if message == "" then "" else " " + message;
    var front := "HTTP/" + VersionName(version) + " ";
    NoNul(message, 0);
    NameIsThree(version);
    assert line + "" == line && line == front + digits + rest;
    assert line == "" + "HTTP/" + VersionName(version) + (" " + digits + rest);
    VersionIs("", version, " " + digits + rest);
    NumberReadsBack(front, code, rest);
    ResponseIs(line);
    if message != "" {
      MessageBehind(front + digits, message, line);
    }
  }

  lemma ResponseIs(line: string)
    requires VersionAt(line, 0).Read? && VersionOf(VersionAt(line, 0).value.major, VersionAt(line, 0).value.minor).Some?
    requires NumberAt(line, VersionAt(line, 0).value.end).Digits?
    ensures var v := VersionAt(line, 0).value;
      var n := NumberAt(line, v.end);
      && ScanResponse(line).Read?
      && ParseResponse(line, "") == Parsed(StatusLine(VersionOf(v.major, v.minor).value, n.value, line[SkipSpace(line, n.end)..]))
  {
    hide VersionAt, NumberAt, VersionOf;
    assert line + "" == line;
  }

  lemma NameIsThree(v: Version)
    ensures |VersionName(v)| == 3 && '\n' !in VersionName(v) && !IsSpace(VersionName(v)[2])
  {
  }

  lemma MessageBehind(front: string, message: string, line: string)
    requires line == front + (" " + message) && message != "" && !IsSpace(message[0])
    ensures SkipSpace(line, |front|) == |front| + 1 && line[|front| + 1..] == message
  {
    assert line[|front|] == ' ' && line[|front| + 1] == message[0] && SkipSpace(line, |front| + 1) == |front| + 1;
  }

  /** What is printed is one line without blanks at its end, decided alone, and says what it was
      printed from. */
  predicate ReadsBack(start: StartLine) {
    var line := FormatLeader(start);
    && ParseLeader(KindOf(start), line, "") == Parsed(start) && !RunsOn(KindOf(start), line)
    && '\n' !in line && line != "" && !IsSpace(line[|line| - 1])
  }

  /** A printed start line is read back, as one line that is decided alone, if and only if it
      can be told again. */
  lemma LeaderReadsBack(start: StartLine)
    ensures ReadsBack(start) <==> Tellable(start)
  {
    hide ReadsBack, Tellable;
    if Tellable(start) {
      TellableReadsBack(start);
    } else if ReadsBack(start) {
      ReadBackIsTellable(start);
    }
  }

  lemma TellableReadsBack(start: StartLine)
    requires Tellable(start)
    ensures ReadsBack(start)
  {
    hide ScanRequest, ScanResponse, ParseRequest, ParseResponse;
    match start {
      case RequestLine(verb, path, version) =>
        NoNul(path, 0);
        VerbIsWord(verb);
        VerbReadsBack(verb);
        assert Printed(path) == path && FormatLeader(start) == RequestText(VerbName(verb), path, version);
        RequestReadsBack(VerbName(verb), verb, path, version);
      case StatusLine(version, code, message) =>
        StatusReadsBack(version, code, message);
        NoNul(message, 0);
    }
  }

  lemma ReadBackIsTellable(start: StartLine)
    requires ReadsBack(start)
    ensures Tellable(start)
  {
    hide FormatLeader, ParseRequest, ParseResponse;
    match start {
      case RequestLine(_, _, _) =>
        PathIsOneWord(FormatLeader(start), start);
      case StatusLine(version, code, message) =>
        MessageIsSuffix(FormatLeader(start), start);
        NoNulInStatus(version, code, message);
    }
  }

  lemma PathIsOneWord(line: string, start: StartLine)
    requires start.RequestLine? && ParseRequest(line, "") == Parsed(start)
    ensures Tellable(start)
  {
    hide VersionAt, VerbOf, VersionOf;
  }

  lemma MessageIsSuffix(line: string, start: StartLine)
    requires start.StatusLine? && ParseResponse(line, "") == Parsed(start)
    ensures |start.message| <= |line| && start.message == line[|line| - |start.message|..]
    ensures start.message != "" ==> !IsSpace(start.message[0])
  {
    hide VersionAt, VersionOf, NumberAt;
  }

  lemma NoNulInStatus(version: Version, code: Word, message: string)
    ensures '\0' !in FormatLeader(StatusLine(version, code, message))
  {
    NulEndIsFirst(message, 0);
    assert '\0' !in VersionName(version) && '\0' !in ToDecimal(code) && '\0' !in Printed(message);
  }
}
