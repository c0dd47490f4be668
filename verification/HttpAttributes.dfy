/** The attribute lists of HTTP authentication headers (section 3.2 of RFC 2617): a scanner
    that accepts anything, and the text of a Digest response that it reads back. */
module HttpAttributes {
  import opened Wrappers
  import opened HttpText

  datatype Attribute = Attribute(name: string, value: string)

  /** A name ends at a blank, or at an equal sign that a value follows: names may end in equal
      signs themselves. */
  predicate IsEndOfName(data: string, pos: nat) {
    || pos >= |data|
    || IsSpace(data[pos])
    || (pos + 1 < |data| && data[pos] == '=' && !IsSpace(data[pos + 1]) && data[pos + 1] != '=')
  }

  function NameEnd(data: string, pos: nat): (e: nat)
    requires pos <= |data|
    ensures pos <= e <= |data| && IsEndOfName(data, e)
    ensures forall k :: pos <= k < e ==> !IsEndOfName(data, k)
    decreases |data| - pos
  {
    if IsEndOfName(data, pos) then pos else NameEnd(data, pos + 1)
  }

  /** The value that starts behind a quote, and what follows the closing quote. */
  function QuotedValue(data: string, pos: nat): (r: (string, nat))
    requires pos <= |data|
    ensures pos <= r.1 <= |data|
    decreases |data| - pos
  {
    if pos == |data| then ("", pos)
    else if data[pos] == '"' then ("", pos + 1)
    else
      var k := if data[pos] == '\\' && pos + 1 < |data| then pos + 1 else pos;
      var rest := QuotedValue(data, k + 1);
      ([data[k]] + rest.0, rest.1)
  }

  function TokenEnd(data: string, pos: nat): (e: nat)
    requires pos <= |data|
    ensures pos <= e <= |data| && (e < |data| ==> IsSpace(data[e]) || data[e] == ',')
    ensures forall k :: pos <= k < e ==> !IsSpace(data[k]) && data[k] != ','
    decreases |data| - pos
  {
    if pos < |data| && !IsSpace(data[pos]) && data[pos] != ',' then TokenEnd(data, pos + 1) else pos
  }

  /** The value behind a name that ends at `e`, if there is one, and where it ends. */
  function ValueAt(data: string, e: nat): (r: (string, nat))
    requires e <= |data|
    ensures e <= r.1 <= |data| && (e < |data| && data[e] == '=' ==> e < r.1)
  {
    if e == |data| || data[e] != '=' then ("", e)
    else if e + 1 < |data| && data[e + 1] == '"' then QuotedValue(data, e + 2)
    else (data[e + 1..TokenEnd(data, e + 1)], TokenEnd(data, e + 1))
  }

  /** The attribute that starts at `pos`, and where the next one may start. */
  function AttributeAt(data: string, pos: nat): (r: (Attribute, nat))
    requires pos < |data| && !IsSpace(data[pos])
    ensures pos < r.1 <= |data|
  {
    var e := NameEnd(data, pos);
    var (value, q) := ValueAt(data, e);
    (Attribute(data[pos..e], value), if q < |data| && data[q] == ',' then q + 1 else q)
  }

  function AttributesFrom(data: string, pos: nat): seq<Attribute>
    requires pos <= |data|
    decreases |data| - pos
  {
    var p := SkipSpace(data, pos);
    if p >= |data| then []
    else
      var (a, next) := AttributeAt(data, p);
      [a] + AttributesFrom(data, next)
  }

  /** The scanner. It comes to an end on every input. */
  method HttpParseAttributes(data: string) returns (attributes: seq<Attribute>)
    ensures attributes == AttributesFrom(data, 0)
  {
    hide AttributeAt;
    attributes := [];
    var pos := 0;
    while true
      invariant pos <= |data| && attributes + AttributesFrom(data, pos) == AttributesFrom(data, 0)
      decreases |data| - pos
    {
      ghost var from := pos;
      while pos < |data| && IsSpace(data[pos])
        invariant from <= pos <= |data| && SkipSpace(data, pos) == SkipSpace(data, from)
      {
        pos := pos + 1;
      }
      if pos >= |data| {
        return;
      }
      var attribute;
      attribute, pos := ParseAttribute(data, pos);
      attributes := attributes + [attribute];
    }
  }

  method ParseAttribute(data: string, from: nat) returns (attribute: Attribute, pos: nat)
    requires from < |data| && !IsSpace(data[from])
    ensures (attribute, pos) == AttributeAt(data, from)
  {
    hide QuotedValue, TokenEnd;
    pos := from;
    while !IsEndOfName(data, pos)
      invariant from <= pos <= |data| && NameEnd(data, pos) == NameEnd(data, from)
      decreases |data| - pos
    {
      pos := pos + 1;
    }
    var name, value := data[from..pos], "";
    if pos < |data| && data[pos] == '=' {
      pos := pos + 1;
      if pos < |data| && data[pos] == '"' {
        value, pos := ParseQuoted(data, pos);
      } else {
        value, pos := ParseToken(data, pos);
      }
    }
    attribute := Attribute(name, value);
    if pos < |data| && data[pos] == ',' {
      pos := pos + 1;
    }
  }

  method ParseQuoted(data: string, from: nat) returns (value: string, pos: nat)
    requires from < |data|
    ensures (value, pos) == QuotedValue(data, from + 1)
  {
    hide QuotedValue;
    pos := from + 1;
    value := "";
    while pos < |data|
      invariant pos <= |data|
      invariant value + QuotedValue(data, pos).0 == QuotedValue(data, from + 1).0
      invariant QuotedValue(data, pos).1 == QuotedValue(data, from + 1).1
      decreases |data| - pos
    {
      QuotedStep(data, pos);
      if data[pos] == '"' {
        pos := pos + 1;
        assert value + "" == value;
        return;
      }
      if data[pos] == '\\' && pos + 1 < |data| {
        pos := pos + 1;
      }
      value := value + [data[pos]];
      pos := pos + 1;
    }
    QuotedStep(data, pos);
    assert value + "" == value;
  }

  lemma QuotedStep(data: string, pos: nat)
    requires pos <= |data|
    ensures pos == |data| ==> QuotedValue(data, pos) == ("", pos)
    ensures pos < |data| ==>
      if data[pos] == '"' then QuotedValue(data, pos) == ("", pos + 1)
      else
        var k := if data[pos] == '\\' && pos + 1 < |data| then pos + 1 else pos;
        QuotedValue(data, pos) == ([data[k]] + QuotedValue(data, k + 1).0, QuotedValue(data, k + 1).1)
  {
  }

  method ParseToken(data: string, from: nat) returns (value: string, pos: nat)
    requires from <= |data|
    ensures pos == TokenEnd(data, from) && value == data[from..pos]
  {
    pos := from;
    value := "";
    while pos < |data| && !IsSpace(data[pos]) && data[pos] != ','
      invariant from <= pos <= |data| && TokenEnd(data, pos) == TokenEnd(data, from) && value == data[from..pos]
    {
      value := value + [data[pos]];
      pos := pos + 1;
    }
  }

  // ---------------------------------------------------------------- printing

  predicate Escapes(c: char) { c == '"' || c == '\\' }

  function Escaped(s: string): string {
    if s == "" then "" else (if Escapes(s[0]) then ['\\', s[0]] else [s[0]]) + Escaped(s[1..])
  }

  method Quote(s: string) returns (result: string)
    ensures result == "\"" + Escaped(s) + "\""
  {
    result := "\"";
    var i := 0;
    while i < |s|
      invariant i <= |s| && result + Escaped(s[i..]) == "\"" + Escaped(s)
    {
      ghost var rest := s[i..];
      assert rest[0] == s[i] && rest[1..] == s[i + 1..];
      if s[i] == '"' || s[i] == '\\' {
        result := result + "\\";
      }
      result := result + [s[i]];
      i := i + 1;
    }
    result := result + "\"";
  }

  /** Any text between quotes is read back. */
  lemma {:induction false} QuotedReadsBack(data: string, pos: nat, s: string)
    requires pos + |Escaped(s)| < |data| && data[pos..pos + |Escaped(s)|] == Escaped(s) && data[pos + |Escaped(s)|] == '"'
    ensures QuotedValue(data, pos) == (s, pos + |Escaped(s)| + 1)
    decreases |s|
  {
    hide QuotedValue, Escaped;
    QuotedStep(data, pos);
    EscapedStep(s);
    if s != "" {
      var k, rest := if Escapes(s[0]) then 2 else 1, Escaped(s[1..]);
      var d := Escaped(s);
      assert forall j :: 0 <= j < |d| ==> data[pos + j] == d[j];
      assert data[pos + k - 1] == d[k - 1] && data[pos] == d[0];
      assert data[pos + k..pos + |d|] == d[k..];
      QuotedReadsBack(data, pos + k, s[1..]);
      assert [s[0]] + s[1..] == s;
    }
  }

  lemma EscapedStep(s: string)
    ensures s == "" ==> Escaped(s) == ""
    ensures s != "" ==>
      var k, d := if Escapes(s[0]) then 2 else 1, Escaped(s);
      && |d| == k + |Escaped(s[1..])| && d[k..] == Escaped(s[1..]) && d[k - 1] == s[0]
      && d[0] == if Escapes(s[0]) then '\\' else s[0]
  {
    if s != "" {
      var first := if Escapes(s[0]) then ['\\', s[0]] else [s[0]];
      assert Escaped(s) == first + Escaped(s[1..]);
    }
  }

  /** A parameter of a printed list: its value stands in quotes, or is a token. */
  datatype Parameter = Parameter(name: string, value: string, quoted: bool)

  predicate IsName(s: string) {
    s != "" && forall k :: 0 <= k < |s| ==> !IsSpace(s[k]) && s[k] != '='
  }

  predicate IsToken(s: string) {
    s != "" && s[0] != '=' && s[0] != '"' && forall k :: 0 <= k < |s| ==> !IsSpace(s[k]) && s[k] != ','
  }

  predicate Printable(p: Parameter) {
    IsName(p.name) && (p.quoted || IsToken(p.value))
  }

  function Printed(p: Parameter): string {
    p.name + "=" + PrintedValue(p)
  }

  /** Parameters in a row; each but the last is followed by a comma and a blank. */
  function PrintedList(ps: seq<Parameter>): string {
    if ps == [] then ""
    else if |ps| == 1 then Printed(ps[0])
    else Printed(ps[0]) + ", " + PrintedList(ps[1..])
  }

  function Attributes(ps: seq<Parameter>): (as_: seq<Attribute>)
    ensures |as_| == |ps|
  {
    seq(|ps|, k requires 0 <= k < |ps| => Attribute(ps[k].name, ps[k].value))
  }

  /** A printed parameter is read back, up to the comma behind it. */
  lemma ParameterReadsBack(data: string, pos: nat, p: Parameter)
    requires Printable(p)
    requires var e := pos + |Printed(p)|;
      e <= |data| && data[pos..e] == Printed(p) && (e < |data| ==> data[e] == ',')
    ensures pos < |data| && !IsSpace(data[pos])
    ensures var e := pos + |Printed(p)|;
      AttributeAt(data, pos) == (Attribute(p.name, p.value), if e < |data| then e + 1 else e)
  {
    hide IsSpace, Printed, PrintedValue, ValueAt;
    var n, v := |p.name|, PrintedValue(p);
    PrintedParts(data, pos, p);
    NameEndsAt(data, pos, p.name, v[0]);
    ValueReadsBack(data, pos + n, p);
  }

  lemma ValueReadsBack(data: string, e: nat, p: Parameter)
    requires Printable(p)
    requires var end := e + 1 + |PrintedValue(p)|;
      && end <= |data| && data[e] == '=' && data[e + 1..end] == PrintedValue(p)
      && (end < |data| ==> data[end] == ',')
    ensures ValueAt(data, e) == (p.value, e + 1 + |PrintedValue(p)|)
  {
    hide QuotedValue, IsSpace, Escaped;
    var v, at := PrintedValue(p), e + 1;
    if p.quoted {
      QuotedParts(data, at, Escaped(p.value));
      QuotedReadsBack(data, at + 1, p.value);
    } else {
      assert forall k :: 0 <= k < |v| ==> data[at + k] == v[k];
      assert forall k :: at <= k < at + |v| ==> data[k] == v[k - at];
      TokenEndsAt(data, at, at + |v|);
    }
  }

  lemma QuotedParts(data: string, at: nat, w: string)
    requires at + |w| + 2 <= |data| && data[at..at + |w| + 2] == "\"" + w + "\""
    ensures data[at] == '"' && data[at + 1..at + 1 + |w|] == w && data[at + 1 + |w|] == '"'
  {
    var v := "\"" + w + "\"";
    assert forall k :: 0 <= k < |v| ==> data[at + k] == v[k];
    assert v[1..1 + |w|] == w && v[1 + |w|] == '"';
    assert data[at + (1 + |w|)] == '"';
    assert forall k :: 0 <= k < |w| ==> data[at + 1 + k] == data[at + (1 + k)] == w[k];
  }

  function PrintedValue(p: Parameter): string {
    if p.quoted then "\"" + Escaped(p.value) + "\"" else p.value
  }

  lemma PrintedParts(data: string, pos: nat, p: Parameter)
    requires Printable(p) && pos + |Printed(p)| <= |data| && data[pos..pos + |Printed(p)|] == Printed(p)
    ensures var n, v := |p.name|, PrintedValue(p);
      && |Printed(p)| == n + 1 + |v| && v != "" && !IsSpace(v[0]) && v[0] != '='
      && data[pos..pos + n] == p.name && data[pos + n] == '=' && data[pos + n + 1..pos + n + 1 + |v|] == v
      && data[pos] == p.name[0] && data[pos + n + 1] == v[0]
  {
    var t, n, v := Printed(p), |p.name|, PrintedValue(p);
    assert t == p.name + "=" + v;
    assert t[..n] == p.name && t[n] == '=' && t[n + 1..] == v;
    assert forall k :: 0 <= k < |t| ==> data[pos + k] == t[k];
    assert t[0] == p.name[0] && t[n + 1] == v[0];
  }

  lemma NameEndsAt(data: string, pos: nat, name: string, c: char)
    requires IsName(name) && pos + |name| + 1 < |data| && data[pos..pos + |name|] == name
    requires data[pos + |name|] == '=' && data[pos + |name| + 1] == c && !IsSpace(c) && c != '='
    ensures NameEnd(data, pos) == pos + |name|
  {
    assert forall k :: 0 <= k < |name| ==> data[pos + k] == name[k];
    assert forall k :: pos <= k < pos + |name| ==> data[k] == name[k - pos];
    assert IsEndOfName(data, pos + |name|);
  }

  lemma TokenEndsAt(data: string, from: nat, e: nat)
    requires from <= e <= |data| && (e < |data| ==> data[e] == ',')
    requires forall k :: from <= k < e ==> !IsSpace(data[k]) && data[k] != ','
    ensures TokenEnd(data, from) == e
  {
    var k := TokenEnd(data, from);
    assert e < |data| ==> k <= e;
  }

  lemma {:induction false} ListReadsBack(data: string, pos: nat, ps: seq<Parameter>)
    requires forall p :: p in ps ==> Printable(p)
    requires pos <= |data| && data[pos..] == PrintedList(ps)
    ensures AttributesFrom(data, pos) == Attributes(ps)
    decreases |ps|
  {
    hide AttributeAt, Printed, Printable;
    if ps != [] {
      var p, t := ps[0], Printed(ps[0]);
      assert data[pos..pos + |t|] == t;
      if |ps| > 1 {
        assert data[pos + |t|] == ',' && data[pos + |t| + 1] == ' ';
        assert data[pos + |t| + 2..] == PrintedList(ps[1..]);
      }
      ParameterReadsBack(data, pos, p);
      if |ps| > 1 {
        ListReadsBack(data, pos + |t| + 2, ps[1..]);
      }
    }
  }

  // ---------------------------------------------------------------- the Digest response

  lemma {:induction false} ListOfMore(ps: seq<Parameter>, p: Parameter)
    requires ps != []
    ensures PrintedList(ps + [p]) == PrintedList(ps) + ", " + Printed(p)
  {
    hide Printed;
    var all := ps + [p];
    assert all[0] == ps[0] && all[1..] == ps[1..] + [p];
    if |ps| > 1 {
      ListOfMore(ps[1..], p);
    }
  }

  /** What a Digest response is computed from. The hash is a row of hexadecimal digits. */
  datatype Credentials = Credentials(scheme: string, username: string, realm: string, nonce: string, uri: string,
                                     qop: bool, cnonce: string, hash: string, opaque_: Option<string>)

  predicate IsDigest(c: Credentials) {
    IsName(c.scheme) && forall k :: 0 <= k < |c.hash| ==> !Escapes(c.hash[k])
  }

  /** The parameters of the response, in order. */
  function Parameters(c: Credentials): seq<Parameter> {
    [Parameter("username", c.username, true), Parameter("realm", c.realm, true),
     Parameter("nonce", c.nonce, true), Parameter("uri", c.uri, true)]
    + (if c.qop then [Parameter("qop", "auth", false), Parameter("nc", "00000001", false), Parameter("cnonce", c.cnonce, true)] else [])
    + [Parameter("response", c.hash, true)]
    + if c.opaque_.Some? then [Parameter("opaque", c.opaque_.value, true)] else []
  }

  lemma ParametersPrint(c: Credentials)
    requires IsDigest(c)
    ensures forall p :: p in Parameters(c) ==> Printable(p)
  {
  }

  /** The value of the first attribute of a name. */
  function Lookup(attributes: seq<Attribute>, name: string): Option<string> {
    if attributes == [] then None
    else if attributes[0].name == name then Some(attributes[0].value)
    else Lookup(attributes[1..], name)
  }

  /** Each credential is found under its own name, and what was not given is not found. */
  predicate Tells(attributes: seq<Attribute>, c: Credentials) {
    && Lookup(attributes, "username") == Some(c.username) && Lookup(attributes, "realm") == Some(c.realm)
    && Lookup(attributes, "nonce") == Some(c.nonce) && Lookup(attributes, "uri") == Some(c.uri)
    && Lookup(attributes, "response") == Some(c.hash) && Lookup(attributes, "opaque") == c.opaque_
    && Lookup(attributes, "qop") == (if c.qop then Some("auth") else None)
    && Lookup(attributes, "nc") == (if c.qop then Some("00000001") else None)
    && Lookup(attributes, "cnonce") == (if c.qop then Some(c.cnonce) else None)
  }

  /** The first parameter of a name is found under it. */
  lemma {:induction false} LookupIs(ps: seq<Parameter>, k: nat, name: string)
    requires k <= |ps| && forall i :: 0 <= i < k ==> ps[i].name != name
    ensures Lookup(Attributes(ps), name) ==
      if k < |ps| && ps[k].name == name then Some(ps[k].value) else Lookup(Attributes(ps[k..]), name)
    decreases k
  {
    if k == 0 {
      assert ps[0..] == ps;
    } else {
      assert Attributes(ps)[1..] == Attributes(ps[1..]);
      LookupIs(ps[1..], k - 1, name);
      assert ps[1..][k - 1..] == ps[k..];
    }
  }

  lemma ParametersTell(c: Credentials)
    ensures Tells(Attributes(Parameters(c)), c)
  {
    var ps := Parameters(c);
    var r := if c.qop then 7 else 4;
    LookupIs(ps, 0, "username");
    LookupIs(ps, 1, "realm");
    LookupIs(ps, 2, "nonce");
    LookupIs(ps, 3, "uri");
    LookupIs(ps, if c.qop then 4 else |ps|, "qop");
    LookupIs(ps, if c.qop then 5 else |ps|, "nc");
    LookupIs(ps, if c.qop then 6 else |ps|, "cnonce");
    LookupIs(ps, r, "response");
    LookupIs(ps, r + 1, "opaque");
  }

  /** A scheme and a list of parameters are read back. */
  lemma ResponseReadsBack(scheme: string, ps: seq<Parameter>)
    requires IsName(scheme) && forall p :: p in ps ==> Printable(p)
    ensures AttributesFrom(scheme + " " + PrintedList(ps), 0) == [Attribute(scheme, "")] + Attributes(ps)
  {
    hide Printable, PrintedList;
    var data, n := scheme + " " + PrintedList(ps), |scheme|;
    assert data[..n] == scheme && data[n] == ' ' && data[n + 1..] == PrintedList(ps);
    assert forall k :: 0 <= k < n ==> data[k] == scheme[k];
    assert NameEnd(data, 0) == n by {
      assert IsEndOfName(data, n);
    }
    assert data[0..n] == scheme;
    assert SkipSpace(data, n) == SkipSpace(data, n + 1);
    ListReadsBack(data, n + 1, ps);
  }

  /** The text of the response, piece by piece. Reading it gives back the scheme and exactly
      the names and values that were written, whatever they contain. */
  method DigestResponse(c: Credentials) returns (text: string)
    requires IsDigest(c)
    ensures text == c.scheme + " " + PrintedList(Parameters(c))
    ensures AttributesFrom(text, 0) == [Attribute(c.scheme, "")] + Attributes(Parameters(c))
    ensures Tells(AttributesFrom(text, 0)[1..], c)
  {
    ParametersTell(c);
    hide PrintedList, Printed, Tells;
    var first := Parameter("username", c.username, true);
    ghost var ps := [first];
    text := Print(first);
    text := c.scheme + " " + text;
    FirstOfList(c.scheme, first);
    text, ps := AddParameter(text, c.scheme, ps, Parameter("realm", c.realm, true));
    text, ps := AddParameter(text, c.scheme, ps, Parameter("nonce", c.nonce, true));
    text, ps := AddParameter(text, c.scheme, ps, Parameter("uri", c.uri, true));
    if c.qop {
      text, ps := AddParameter(text, c.scheme, ps, Parameter("qop", "auth", false));
      text, ps := AddParameter(text, c.scheme, ps, Parameter("nc", "00000001", false));
      text, ps := AddParameter(text, c.scheme, ps, Parameter("cnonce", c.cnonce, true));
    }
    text, ps := AddHash(text, c.scheme, ps, c.hash);
    if c.opaque_.Some? {
      text, ps := AddParameter(text, c.scheme, ps, Parameter("opaque", c.opaque_.value, true));
    }
    assert ps == Parameters(c);
    ParametersPrint(c);
    ResponseReadsBack(c.scheme, ps);
  }

  lemma FirstOfList(scheme: string, p: Parameter)
    ensures scheme + " " + Printed(p) == scheme + " " + PrintedList([p])
  {
  }

  method Print(p: Parameter) returns (text: string)
    ensures text == Printed(p)
  {
    var value := p.value;
    if p.quoted {
      value := Quote(p.value);
    }
    text := p.name + "=" + value;
  }

  method AddParameter(text: string, ghost scheme: string, ghost ps: seq<Parameter>, p: Parameter) returns (more: string, ghost qs: seq<Parameter>)
    requires ps != [] && text == scheme + " " + PrintedList(ps)
    ensures qs == ps + [p] && more == scheme + " " + PrintedList(qs)
  {
    hide PrintedList, Printed;
    var printed := Print(p);
    more, qs := text + ", " + printed, ps + [p];
    ListOfMore(ps, p);
  }

  /** The hash is put between quotes as it is. */
  method AddHash(text: string, ghost scheme: string, ghost ps: seq<Parameter>, hash: string) returns (more: string, ghost qs: seq<Parameter>)
    requires ps != [] && text == scheme + " " + PrintedList(ps) && forall k :: 0 <= k < |hash| ==> !Escapes(hash[k])
    ensures qs == ps + [Parameter("response", hash, true)] && more == scheme + " " + PrintedList(qs)
  {
    hide PrintedList, Printed;
    var p := Parameter("response", hash, true);
    PrintedHash(p);
    more, qs := text + ", " + ("response=\"" + hash + "\""), ps + [p];
    ListOfMore(ps, p);
  }

  lemma PrintedHash(p: Parameter)
    requires p.name == "response" && p.quoted && forall k :: 0 <= k < |p.value| ==> !Escapes(p.value[k])
    ensures Printed(p) == "response=\"" + p.value + "\""
  {
    hide Escaped;
    EscapedAsIs(p.value);
    assert "response=\"" == "response" + "=" + "\"";
  }

  lemma {:induction false} EscapedAsIs(s: string)
    requires forall k :: 0 <= k < |s| ==> !Escapes(s[k])
    ensures Escaped(s) == s
  {
    if s != "" {
      EscapedAsIs(s[1..]);
      assert [s[0]] + s[1..] == s;
    }
  }
}
