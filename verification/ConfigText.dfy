/** The text of a configuration file: one blank line, comment or entry per line. All of it is
    about values; class MyConfigFile reads and writes it. */
module ConfigText {
  import opened Blanks

  const QUOTE := '"'

  /** The marks between key and value, and in front of a comment. */
  datatype Marks = Marks(delimiter: string, comment: string)

  /** Without a mark to step over, the scan of a line would not move. */
  predicate Scannable(m: Marks) { m.delimiter != "" && m.comment != "" }

  /** With an empty comment mark every line that is not blank is a comment, and none is scanned. */
  predicate Usable(m: Marks) { m.comment == "" || m.delimiter != "" }

  /** Marks of one character, neither blank nor a quote, and told apart. */
  predicate Simple(m: Marks) {
    && |m.delimiter| == 1 && |m.comment| == 1 && m.delimiter[0] != m.comment[0]
    && !Blank(m.delimiter[0]) && !Blank(m.comment[0]) && m.delimiter[0] != QUOTE && m.comment[0] != QUOTE
  }

  function Spaces(n: nat): (s: string)
    ensures |s| == n && AllBlank(s) && forall k :: 0 <= k < n ==> s[k] == ' '
  {
    seq(n, k => ' ')
  }

  // ---------------------------------------------------------------- reading a line

  /** The key and value read so far; the flag says which part is being read. */
  datatype Fields = Fields(flag: nat, key: string, value: string) {
    function Add(s: string): Fields {
      if flag == 0 then this.(key := key + s) else this.(value := value + s)
    }
  }

  predicate At(line: string, i: nat, mark: string) {
    i + |mark| <= |line| && line[i..i + |mark|] == mark
  }

  /** The scan of a line: the fields, and where it stopped. */
  function Scan(line: string, m: Marks, i: nat, quoted: bool, f: Fields): (r: (Fields, nat))
    requires Scannable(m)
    decreases |line| - i
  {
    if i >= |line| then (f, i)
    else if line[i] == QUOTE then
      if !quoted then Scan(line, m, i + 1, true, f)
      else if i + 1 < |line| && line[i + 1] == QUOTE then Scan(line, m, i + 2, true, f.Add([QUOTE]))
      else Scan(line, m, i + 1, false, f)
    else if At(line, i, m.comment) then
      if !quoted then (if f.flag == 1 then f.(flag := 2) else f, i)
      else Scan(line, m, i + |m.comment|, quoted, f.Add(m.comment))
    else if At(line, i, m.delimiter) then
      Scan(line, m, i + |m.delimiter|, quoted, if !quoted && f.flag == 0 then f.(flag := 1) else f.Add(m.delimiter))
    else Scan(line, m, i + 1, quoted, f.Add([line[i]]))
  }

  datatype Data = Data(value: string, comment: string)

  datatype Parsed = BlankLine | CommentLine(text: string) | Entry(key: string, data: Data) | Nothing

  /** What a trimmed line says. A line without a delimiter says nothing. */
  function Parse(line: string, m: Marks): Parsed
    requires Usable(m)
  {
    if line == "" then BlankLine
    else if At(line, 0, m.comment) then CommentLine(line)
    else
      var (f, i) := Scan(line, m, 0, false, Fields(0, "", ""));
      if f.flag == 0 then Nothing
      else Entry(Trim(f.key), Data(Trim(f.value), if f.flag == 2 && i + 1 <= |line| then line[i + 1..] else ""))
  }

  // ---------------------------------------------------------------- writing a line

  function FindQuote(s: string, i: nat): (n: nat)
    requires i <= |s|
    ensures i <= n <= |s| && (n < |s| ==> s[n] == QUOTE) && forall k :: i <= k < n ==> s[k] != QUOTE
    decreases |s| - i
  {
    if i < |s| && s[i] != QUOTE then FindQuote(s, i + 1) else i
  }

  function Rest(s: string, n: nat): string
    requires n < |s|
  {
    if 2 * n + 1 <= |s| then s[2 * n + 1..] else ""
  }

  /** The text after the quote at position n has been replaced. */
  function Next(s: string, n: nat): string
    requires n < |s|
  {
    s[..n] + [QUOTE, QUOTE] + Rest(s, n)
  }

  /** Doubles the quotes from `i` on. A quote at position n is replaced together with the n
      characters behind it, as many as there are. */
  function Replaced(s: string, i: nat): string
    requires i <= |s|
    decreases |s| - i
  {
    var n := FindQuote(s, i);
    if n == |s| then s
    else Replaced(Next(s, n), n + 2)
  }

  lemma ReplacedUnfolds(s: string, i: nat)
    requires i <= |s|
    ensures var n := FindQuote(s, i);
      if n == |s| then Replaced(s, i) == s
      else n + 2 <= |Next(s, n)| && |Next(s, n)| - (n + 2) < |s| - i && Replaced(s, i) == Replaced(Next(s, n), n + 2)
  {
  }

  predicate Contains(s: string, mark: string) {
    exists i :: 0 <= i <= |s| && At(s, i, mark)
  }

  /** A key or value as it is written: in quotes if it contains a mark. */
  function Written(s: string, m: Marks): string {
    var t := Replaced(s, 0);
    if Contains(t, m.delimiter) || Contains(t, m.comment) then [QUOTE] + t + [QUOTE] else t
  }

  function Padding(width: int, length: nat): string {
    if width > length then Spaces(width - length) else ""
  }

  /** A line for an entry, with columns at least so wide. */
  function EntryLine(key: string, data: Data, m: Marks, keyWidth: int, dataWidth: int): string {
    var k := Written(key, m);
    var s := k + Padding(keyWidth, |k|) + " " + m.delimiter + " " + Written(data.value, m);
    if data.comment == "" then s else s + Padding(dataWidth, |s|) + " " + m.comment + data.comment
  }

  /** The delimiter stands behind the key and behind its column, with nothing but blanks in
      between. */
  lemma KeyColumn(key: string, data: Data, m: Marks, keyWidth: int, dataWidth: int)
    ensures var line, k := EntryLine(key, data, m, keyWidth, dataWidth), Written(key, m);
      var p := if keyWidth > |k| then keyWidth + 1 else |k| + 1;
      p + |m.delimiter| <= |line| && line[..|k|] == k && AllBlank(line[|k|..p]) && line[p..p + |m.delimiter|] == m.delimiter
  {
    hide Written, Padding, AllBlank, EntryLine;
    var k := Written(key, m);
    var pad := Padding(keyWidth, |k|);
    var rest := EntryIsSpelled(key, data, m, keyWidth, dataWidth);
    PaddingFills(keyWidth, |k|);
    Columns(k, pad + " ", m.delimiter, rest);
  }

  lemma EntryIsSpelled(key: string, data: Data, m: Marks, keyWidth: int, dataWidth: int) returns (rest: string)
    ensures var k := Written(key, m);
      EntryLine(key, data, m, keyWidth, dataWidth) == k + (Padding(keyWidth, |k|) + " ") + m.delimiter + rest
  {
    hide Written, Padding;
    var k, v := Written(key, m), Written(data.value, m);
    var pad := Padding(keyWidth, |k|);
    var head := k + pad + " " + m.delimiter + " " + v;
    assert k + pad + " " == k + (pad + " ");
    rest := " " + v;
    assert head == k + (pad + " ") + m.delimiter + rest;
    if data.comment != "" {
      var tail := Padding(dataWidth, |head|) + " " + m.comment + data.comment;
      assert EntryLine(key, data, m, keyWidth, dataWidth) == head + tail;
      rest := rest + tail;
    }
  }

  /** The comment mark stands behind the column of the entry, and the comment behind it. */
  lemma CommentColumn(key: string, data: Data, m: Marks, keyWidth: int, dataWidth: int)
    requires data.comment != ""
    ensures var line := EntryLine(key, data, m, keyWidth, dataWidth);
      var q := |line| - |data.comment| - |m.comment|;
      0 <= q && dataWidth < q && line[q..q + |m.comment|] == m.comment && line[q + |m.comment|..] == data.comment
  {
    hide Written, Padding;
    var k, v := Written(key, m), Written(data.value, m);
    var head := k + Padding(keyWidth, |k|) + " " + m.delimiter + " " + v;
    var more := Padding(dataWidth, |head|);
    PaddingFills(dataWidth, |head|);
    assert head + more + " " == head + (more + " ");
    Columns(head, more + " ", m.comment, data.comment);
  }

  lemma PaddingFills(width: int, length: nat)
    ensures AllBlank(Padding(width, length) + " ")
    ensures length + |Padding(width, length)| == if width > length then width else length
  {
  }

  lemma Columns(a: string, b: string, c: string, d: string)
    ensures var line, p := a + b + c + d, |a| + |b|;
      p + |c| <= |line| && line[..|a|] == a && line[|a|..p] == b && line[p..p + |c|] == c && line[p + |c|..] == d
  {
  }
}
