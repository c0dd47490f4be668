/** The lines of a configuration: how they are loaded and saved, and that what was saved is
    loaded again. All of it is about values; class MyConfigFile does it step by step. */
module ConfigLines {
  import opened Wrappers
  import opened Blanks
  import opened ConfigText
  import opened ConfigRoundTrip

  datatype Item = BlankItem | CommentItem(text: string) | DataItem(key: string)

  datatype Config = Config(context: seq<Item>, contents: map<string, Data>)

  const EMPTY := Config([], map[])

  // ---------------------------------------------------------------- loading

  function LineEnd(text: string, i: nat): (e: nat)
    requires i <= |text|
    ensures i <= e <= |text| && (e < |text| ==> text[e] == '\n') && forall k :: i <= k < e ==> text[k] != '\n'
    decreases |text| - i
  {
    if i < |text| && text[i] != '\n' then LineEnd(text, i + 1) else i
  }

  function Taken(c: Config, p: Parsed): Config {
    match p
    case BlankLine => c.(context := c.context + [BlankItem])
    case CommentLine(text) => c.(context := c.context + [CommentItem(text)])
    case Entry(key, data) => Config(c.context + [DataItem(key)], c.contents[key := data])
    case Nothing => c
  }

  function Loaded(text: string, i: nat, m: Marks, c: Config): Config
    requires Usable(m)
    decreases |text| - i
  {
    if i >= |text| then c
    else
      var e := LineEnd(text, i);
      Loaded(text, e + 1, m, Taken(c, Parse(Trim(text[i..e]), m)))
  }

  /** What the last line that speaks of a key says about it, looked for from the end. */
  function LastWord(text: string, i: nat, m: Marks, key: string): Option<Data>
    requires Usable(m)
    decreases |text| - i
  {
    if i >= |text| then None
    else
      var e := LineEnd(text, i);
      var later, p := LastWord(text, e + 1, m, key), Parse(Trim(text[i..e]), m);
      if later.Some? then later else if p.Entry? && p.key == key then Some(p.data) else None
  }

  /** If a key stands in several lines the last one counts. */
  lemma {:induction false} LastLineCounts(text: string, i: nat, m: Marks, c: Config, key: string)
    requires Usable(m)
    ensures var last, contents := LastWord(text, i, m, key), Loaded(text, i, m, c).contents;
      if last.Some? then key in contents && contents[key] == last.value
      else (key in contents <==> key in c.contents) && (key in contents ==> contents[key] == c.contents[key])
    decreases |text| - i
  {
    hide Parse, Trim;
    if i < |text| {
      var e := LineEnd(text, i);
      LastLineCounts(text, e + 1, m, Taken(c, Parse(Trim(text[i..e]), m)), key);
    }
  }

  // ---------------------------------------------------------------- saving

  function ItemText(item: Item, contents: map<string, Data>, m: Marks, keyWidth: int, dataWidth: int): string {
    match item
    case BlankItem => "\r\n"
    case CommentItem(text) => text + "\r\n"
    case DataItem(key) =>
      if key in contents then EntryLine(key, contents[key], m, keyWidth, dataWidth) + "\r\n" else ""
  }

  function Saved(items: seq<Item>, k: nat, contents: map<string, Data>, m: Marks, keyWidth: int, dataWidth: int): string
    decreases |items| - k
  {
    if k >= |items| then ""
    else ItemText(items[k], contents, m, keyWidth, dataWidth) + Saved(items, k + 1, contents, m, keyWidth, dataWidth)
  }

  // ---------------------------------------------------------------- the round trip

  predicate OneLine(s: string) { forall k :: 0 <= k < |s| ==> s[k] != '\n' }

  /** An item that comes back: its text is trimmed and of one line, its key and value survive. */
  predicate Sound(item: Item, contents: map<string, Data>, m: Marks)
    requires Simple(m)
  {
    match item
    case BlankItem => true
    case CommentItem(text) => text != "" && text[0] == m.comment[0] && Trimmed(text) && OneLine(text)
    case DataItem(key) =>
      key in contents ==>
        && Storable(key, m) && Trimmed(key) && OneLine(key)
        && Storable(contents[key].value, m) && Trimmed(contents[key].value) && OneLine(contents[key].value)
        && RightTrimmed(contents[key].comment) && OneLine(contents[key].comment)
  }

  /** What an item adds to the configuration when it is read back. */
  function Restored(c: Config, item: Item, contents: map<string, Data>): Config {
    if item.DataItem? && item.key !in contents then c
    else Config(c.context + [item], if item.DataItem? then c.contents[item.key := contents[item.key]] else c.contents)
  }

  function AllRestored(items: seq<Item>, k: nat, contents: map<string, Data>, c: Config): Config
    decreases |items| - k
  {
    if k >= |items| then c else AllRestored(items, k + 1, contents, Restored(c, items[k], contents))
  }

  /** A line of text is read, and then the rest. */
  lemma LoadLine(done: string, line: string, rest: string, m: Marks, c: Config)
    requires Usable(m) && OneLine(line)
    ensures Loaded(done + line + "\n" + rest, |done|, m, c)
      == Loaded(done + line + "\n" + rest, |done| + |line| + 1, m, Taken(c, Parse(Trim(line), m)))
  {
    hide Parse, Trim;
    var text := done + line + "\n" + rest;
    var e := LineEnd(text, |done|);
    assert forall k :: 0 <= k < |line| ==> text[|done| + k] == line[k];
    assert text[|done| + |line|] == '\n';
    assert e == |done| + |line| && text[|done|..e] == line;
  }

  lemma ItemReadsBack(item: Item, contents: map<string, Data>, m: Marks, keyWidth: int, dataWidth: int, c: Config) returns (line: string)
    requires Simple(m) && Sound(item, contents, m) && ItemText(item, contents, m, keyWidth, dataWidth) != ""
    ensures ItemText(item, contents, m, keyWidth, dataWidth) == line + "\n" && OneLine(line)
    ensures Taken(c, Parse(Trim(line), m)) == Restored(c, item, contents)
  {
    hide Parse, Trim, EntryLine, Storable;
    match item
    case BlankItem =>
      line := "\r";
      BlankReadsBack(m);
    case CommentItem(text) =>
      line := text + "\r";
      CommentReadsBack(text, m);
    case DataItem(key) =>
      line := EntryLine(key, contents[key], m, keyWidth, dataWidth) + "\r";
      EntryReadsBack(key, contents[key], m, keyWidth, dataWidth);
      EntryIsOneLine(key, contents[key], m, keyWidth, dataWidth);
  }

  lemma BlankReadsBack(m: Marks)
    requires Simple(m)
    ensures Parse(Trim("\r"), m) == BlankLine
  {
    TrimIs("", "", "\r");
    assert "" + "" + "\r" == "\r";
  }

  lemma CommentReadsBack(text: string, m: Marks)
    requires Simple(m) && text != "" && text[0] == m.comment[0] && Trimmed(text)
    ensures Parse(Trim(text + "\r"), m) == CommentLine(text)
  {
    hide Scan, Trim;
    TrimIs("", text, "\r");
    AtOne(text, 0, m.comment);
    assert "" + text + "\r" == text + "\r";
  }

  lemma EntryIsOneLine(key: string, data: Data, m: Marks, keyWidth: int, dataWidth: int)
    requires Simple(m) && OneLine(key) && OneLine(data.value) && OneLine(data.comment)
    ensures OneLine(EntryLine(key, data, m, keyWidth, dataWidth))
  {
    hide Written;
    WrittenIsOneLine(key, m);
    WrittenIsOneLine(data.value, m);
  }

  lemma WrittenIsOneLine(s: string, m: Marks)
    requires Simple(m) && OneLine(s)
    ensures OneLine(Written(s, m))
  {
    hide Replaced, Contains;
    ReplacedIsOneLine(s, 0);
  }

  lemma {:induction false} ReplacedIsOneLine(s: string, i: nat)
    requires i <= |s| && OneLine(s)
    ensures OneLine(Replaced(s, i))
    decreases |s| - i
  {
    hide Replaced;
    LeftStep(s, i);
    var n := FindQuote(s, i);
    if n < |s| {
      ReplacedIsOneLine(Next(s, n), n + 2);
    }
  }

  lemma {:induction false} SavedReadsBack(done: string, items: seq<Item>, k: nat, contents: map<string, Data>, m: Marks,
                                          keyWidth: int, dataWidth: int, c: Config)
    requires Simple(m) && forall i :: k <= i < |items| ==> Sound(items[i], contents, m)
    ensures Loaded(done + Saved(items, k, contents, m, keyWidth, dataWidth), |done|, m, c) == AllRestored(items, k, contents, c)
    decreases |items| - k
  {
    hide Sound, ItemText, Parse, Trim, Taken, Restored, Loaded;
    var all := done + Saved(items, k, contents, m, keyWidth, dataWidth);
    if k >= |items| {
      LoadedAll(all, m, c);
      assert all == done;
    } else {
      var text := ItemText(items[k], contents, m, keyWidth, dataWidth);
      var rest := Saved(items, k + 1, contents, m, keyWidth, dataWidth);
      if text == "" {
        EmptyIsMissing(items[k], contents, m, keyWidth, dataWidth, c);
        assert text + rest == rest;
        SavedReadsBack(done, items, k + 1, contents, m, keyWidth, dataWidth, c);
      } else {
        var line := ItemReadsBack(items[k], contents, m, keyWidth, dataWidth, c);
        assert all == done + line + "\n" + rest && all == (done + line + "\n") + rest;
        LoadLine(done, line, rest, m, c);
        SavedReadsBack(done + line + "\n", items, k + 1, contents, m, keyWidth, dataWidth, Restored(c, items[k], contents));
      }
    }
  }

  lemma LoadedAll(text: string, m: Marks, c: Config)
    requires Usable(m)
    ensures Loaded(text, |text|, m, c) == c
  {
  }

  lemma EmptyIsMissing(item: Item, contents: map<string, Data>, m: Marks, keyWidth: int, dataWidth: int, c: Config)
    requires ItemText(item, contents, m, keyWidth, dataWidth) == ""
    ensures Restored(c, item, contents) == c
  {
  }

  /** The items that are written: not the entries that have been removed. */
  function Kept(items: seq<Item>, contents: map<string, Data>): seq<Item> {
    if items == [] then []
    else
      var last := items[|items| - 1];
      Kept(items[..|items| - 1], contents) + if last.DataItem? && last.key !in contents then [] else [last]
  }

  /** What has been read of the first items. */
  ghost predicate UpTo(items: seq<Item>, contents: map<string, Data>, c: Config) {
    && c.context == Kept(items, contents)
    && (forall key :: key in c.contents <==> key in contents && DataItem(key) in items)
    && (forall key :: key in c.contents ==> c.contents[key] == contents[key])
  }

  lemma RestoredNext(items: seq<Item>, item: Item, contents: map<string, Data>, c: Config)
    requires UpTo(items, contents, c)
    ensures UpTo(items + [item], contents, Restored(c, item, contents))
  {
    KeptNext(items, item, contents);
    hide Kept;
    var r := Restored(c, item, contents);
    InTwo(items, item);
    forall key ensures key in r.contents <==> key in contents && DataItem(key) in items + [item] {
    }
  }

  lemma KeptNext(items: seq<Item>, item: Item, contents: map<string, Data>)
    ensures Kept(items + [item], contents) ==
      if item.DataItem? && item.key !in contents then Kept(items, contents) else Kept(items, contents) + [item]
  {
    assert (items + [item])[..|items|] == items;
  }

  lemma InTwo(items: seq<Item>, item: Item)
    ensures forall other :: other in items + [item] <==> other in items || other == item
  {
  }

  lemma {:induction false} RestoredIs(items: seq<Item>, k: nat, contents: map<string, Data>, c: Config)
    requires k <= |items| && UpTo(items[..k], contents, c)
    ensures UpTo(items, contents, AllRestored(items, k, contents, c))
    decreases |items| - k
  {
    hide UpTo, Restored;
    if k == |items| {
      assert items[..k] == items;
    } else {
      assert items[..k + 1] == items[..k] + [items[k]];
      RestoredNext(items[..k], items[k], contents, c);
      RestoredIs(items, k + 1, contents, Restored(c, items[k], contents));
    }
  }

  /** Every entry has a line of its own. */
  predicate Listed(c: Config) {
    forall key :: key in c.contents ==> DataItem(key) in c.context
  }

  predicate AllSound(c: Config, m: Marks)
    requires Simple(m)
  {
    forall i :: 0 <= i < |c.context| ==> Sound(c.context[i], c.contents, m)
  }

  /** Loading what was saved restores the entries and the order of the lines. */
  lemma RoundTrip(c: Config, m: Marks, keyWidth: int, dataWidth: int)
    requires Simple(m) && Listed(c) && AllSound(c, m)
    ensures Loaded(Saved(c.context, 0, c.contents, m, keyWidth, dataWidth), 0, m, EMPTY) == Config(Kept(c.context, c.contents), c.contents)
  {
    hide Loaded, Saved, Sound, AllRestored, Kept;
    var text := Saved(c.context, 0, c.contents, m, keyWidth, dataWidth);
    SavedReadsBack("", c.context, 0, c.contents, m, keyWidth, dataWidth, EMPTY);
    assert "" + text == text;
    UpToNone(c);
    RestoredIs(c.context, 0, c.contents, EMPTY);
    var r := AllRestored(c.context, 0, c.contents, EMPTY);
    assert r.contents.Keys == c.contents.Keys;
    assert r.contents == c.contents;
  }

  lemma UpToNone(c: Config)
    ensures UpTo(c.context[..0], c.contents, EMPTY)
  {
  }

  // ---------------------------------------------------------------- what loading yields

  /** As `Sound`, but for quotes. */
  predicate Clean(item: Item, contents: map<string, Data>, m: Marks)
    requires Simple(m)
  {
    match item
    case BlankItem => true
    case CommentItem(text) => text != "" && text[0] == m.comment[0] && Trimmed(text) && OneLine(text)
    case DataItem(key) =>
      && key in contents && Trimmed(key) && OneLine(key)
      && Trimmed(contents[key].value) && OneLine(contents[key].value)
      && RightTrimmed(contents[key].comment) && OneLine(contents[key].comment)
  }

  ghost predicate AllClean(c: Config, m: Marks)
    requires Simple(m)
  {
    Listed(c) && forall item :: item in c.context ==> Clean(item, c.contents, m)
  }

  lemma {:induction false} ScanIsOneLine(line: string, m: Marks, i: nat, quoted: bool, f: Fields)
    requires Simple(m) && OneLine(line) && OneLine(f.key) && OneLine(f.value)
    ensures var r := Scan(line, m, i, quoted, f).0;
      OneLine(r.key) && OneLine(r.value)
    decreases |line| - i
  {
    hide Scan;
    if i >= |line| {
      ScanStops(line, m, i, quoted, f);
    } else if quoted {
      QuotedStep(line, m, i, f);
      if line[i] != QUOTE {
        ScanIsOneLine(line, m, i + 1, true, f.Add([line[i]]));
      } else {
        ScanIsOneLine(line, m, i + 2, true, f.Add([QUOTE]));
        ScanIsOneLine(line, m, i + 1, false, f);
      }
    } else {
      OpenStep(line, m, i, f);
      if line[i] == QUOTE {
        ScanIsOneLine(line, m, i + 1, true, f);
      } else {
        ScanIsOneLine(line, m, i + 1, false, f.(flag := 1));
        ScanIsOneLine(line, m, i + 1, false, f.Add([line[i]]));
      }
    }
  }

  lemma ScanStops(line: string, m: Marks, i: nat, quoted: bool, f: Fields)
    requires Scannable(m) && i >= |line|
    ensures Scan(line, m, i, quoted, f) == (f, i)
  {
  }

  lemma TrimIsOneLine(s: string)
    requires OneLine(s)
    ensures OneLine(Trim(s))
  {
  }

  /** A line adds only what could be written again, quotes aside. */
  lemma TakenIsClean(line: string, m: Marks, c: Config)
    requires Simple(m) && OneLine(line) && AllClean(c, m)
    ensures AllClean(Taken(c, Parse(Trim(line), m)), m)
  {
    hide Trim, Parse;
    ParsedIsClean(line, m);
    var p := Parse(Trim(line), m);
    var c' := Taken(c, p);
    forall item | item in c'.context ensures Clean(item, c'.contents, m) {
      assert item in c.context ==> Clean(item, c.contents, m);
    }
    assert Listed(c') by {
      hide Clean;
      assert p.Entry? ==> c'.context[|c.context|] == DataItem(p.key);
    }
  }

  /** What a line says is trimmed and of one line. */
  lemma ParsedIsClean(line: string, m: Marks)
    requires Simple(m) && OneLine(line)
    ensures match Parse(Trim(line), m)
      case CommentLine(text) => text != "" && text[0] == m.comment[0] && Trimmed(text) && OneLine(text)
      case Entry(key, data) =>
        && Trimmed(key) && OneLine(key) && Trimmed(data.value) && OneLine(data.value)
        && RightTrimmed(data.comment) && OneLine(data.comment)
      case _ => true
  {
    hide Scan, Trim;
    TrimIsOneLine(line);
    var t := Trim(line);
    if t != "" {
      AtOne(t, 0, m.comment);
      hide At;
      var (f, i) := Scan(t, m, 0, false, Fields(0, "", ""));
      ScanIsOneLine(t, m, 0, false, Fields(0, "", ""));
      TrimIsOneLine(f.key);
      TrimIsOneLine(f.value);
    }
  }

  lemma {:induction false} LoadedIsClean(text: string, i: nat, m: Marks, c: Config)
    requires Simple(m) && AllClean(c, m)
    ensures AllClean(Loaded(text, i, m, c), m)
    decreases |text| - i
  {
    hide AllClean, Taken, Parse, Trim;
    if i < |text| {
      var e := LineEnd(text, i);
      TakenIsClean(text[i..e], m, c);
      LoadedIsClean(text, e + 1, m, Taken(c, Parse(Trim(text[i..e]), m)));
    }
  }

  /** Whatever text was loaded: if its keys and values survive their quotes, saving and loading
      it again changes nothing. */
  lemma LoadSaveLoad(text: string, m: Marks, keyWidth: int, dataWidth: int)
    requires Simple(m)
    requires var c := Loaded(text, 0, m, EMPTY);
      forall key :: key in c.contents ==> Storable(key, m) && Storable(c.contents[key].value, m)
    ensures var c := Loaded(text, 0, m, EMPTY);
      Loaded(Saved(c.context, 0, c.contents, m, keyWidth, dataWidth), 0, m, EMPTY) == c
  {
    hide Loaded, Saved, Storable;
    var c := Loaded(text, 0, m, EMPTY);
    LoadedIsClean(text, 0, m, EMPTY);
    forall i | 0 <= i < |c.context| ensures Sound(c.context[i], c.contents, m) {
      assert c.context[i] in c.context;
      assert Clean(c.context[i], c.contents, m);
    }
    RoundTrip(c, m, keyWidth, dataWidth);
    AllKept(c.context, c.contents);
  }

  lemma {:induction false} AllKept(items: seq<Item>, contents: map<string, Data>)
    requires forall item :: item in items && item.DataItem? ==> item.key in contents
    ensures Kept(items, contents) == items
  {
    if items != [] {
      var front, last := items[..|items| - 1], items[|items| - 1];
      assert items == front + [last];
      InTwo(front, last);
      AllKept(front, contents);
      KeptNext(front, last, contents);
    }
  }
}
