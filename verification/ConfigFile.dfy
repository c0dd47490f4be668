/** A configuration file: entries that are read, changed and written back between the comments
    and blank lines of the original text. */
module ConfigFile {
  import opened Wrappers
  import opened Blanks
  import opened ConfigText
  import opened ConfigLines

  /** A line of a list of lines to save: a blank, a comment or a key. */
  function ItemOf(s: string, m: Marks): Item {
    var line := Trim(s);
    if line == "" then BlankItem
    else if At(line, 0, m.comment) then CommentItem(line)
    else DataItem(line)
  }

  function ItemsOf(lines: seq<string>, m: Marks): (items: seq<Item>)
    ensures |items| == |lines|
  {
    seq(|lines|, i requires 0 <= i < |lines| => ItemOf(lines[i], m))
  }

  class MyConfigFile {
    var marks: Marks
    var context: seq<Item>
    var contents: map<string, Data>
    var data: string   // the text being loaded, and how much of it has been read
    var pos: nat

    ghost predicate Valid()
      reads this
    {
      Listed(Now())
    }

    ghost function Now(): Config
      reads this
    {
      Config(context, contents)
    }

    constructor (marks: Marks)
      ensures Valid() && this.marks == marks && Now() == EMPTY
    {
      this.marks, context, contents, data, pos := marks, [], map[], "", 0;
    }

    method Clear()
      modifies this`context, this`contents
      ensures Now() == EMPTY
    {
      context, contents := [], map[];
    }

    method GetLine() returns (found: bool, line: string)
      requires pos <= |data|
      modifies this`pos
      ensures found <==> old(pos) < |data|
      ensures found ==>
        && line == data[old(pos)..LineEnd(data, old(pos))]
        && pos == if LineEnd(data, old(pos)) < |data| then LineEnd(data, old(pos)) + 1 else |data|
      ensures !found ==> pos == old(pos)
    {
      line := "";
      if pos == |data| {
        return false, "";
      }
      var i := pos;
      while i < |data|
        invariant pos <= i <= |data| && line == data[pos..i] && LineEnd(data, pos) == LineEnd(data, i)
        invariant pos == old(pos)
      {
        if data[i] == '\n' {
          pos := i + 1;
          return true, line;
        }
        line := line + [data[i]];
        i := i + 1;
      }
      pos := |data|;
      return true, line;
    }

    /** The cursor over a line, with the part it is in and whether it is between quotes. */
    method ScanLine(line: string) returns (f: Fields, i: nat)
      requires Scannable(marks)
      ensures (f, i) == Scan(line, marks, 0, false, Fields(0, "", ""))
    {
      hide At;
      i := 0;
      var quoted := false;
      var flag, key, value := 0, "", "";
      while i < |line|
        invariant Scan(line, marks, i, quoted, Fields(flag, key, value)) == Scan(line, marks, 0, false, Fields(0, "", ""))
        decreases |line| - i
      {
        if line[i] == QUOTE {
          if !quoted {
            quoted := true;
            i := i + 1;
          } else if i + 1 < |line| && line[i + 1] == QUOTE {
            if flag == 0 {
              key := key + [QUOTE];
            } else {
              value := value + [QUOTE];
            }
            i := i + 2;
          } else {
            quoted := false;
            i := i + 1;
          }
        } else if At(line, i, marks.comment) {
          if !quoted {
            return Fields(if flag == 1 then 2 else flag, key, value), i;
          }
          if flag == 0 {
            key := key + marks.comment;
          } else {
            value := value + marks.comment;
          }
          i := i + |marks.comment|;
        } else if At(line, i, marks.delimiter) {
          if !quoted && flag == 0 {
            flag := 1;
          } else if flag == 0 {
            key := key + marks.delimiter;
          } else {
            value := value + marks.delimiter;
          }
          i := i + |marks.delimiter|;
        } else {
          if flag == 0 {
            key := key + [line[i]];
          } else {
            value := value + [line[i]];
          }
          i := i + 1;
        }
      }
      return Fields(flag, key, value), i;
    }

    /** Adds what a line says. */
    method TakeLine(line: string)
      requires Usable(marks)
      modifies this`context, this`contents
      ensures Now() == Taken(old(Now()), Parse(line, marks))
    {
      assert marks.comment == "" ==> At(line, 0, marks.comment);
      hide Trim, Scan, At;
      if line == "" {
        context := context + [BlankItem];
      } else if At(line, 0, marks.comment) {
        context := context + [CommentItem(line)];
      } else {
        TakeEntry(line);
      }
    }

    /** Adds the entry of a line that is neither blank nor a comment, if it is one. */
    method TakeEntry(line: string)
      requires Usable(marks) && line != "" && !At(line, 0, marks.comment)
      modifies this`context, this`contents
      ensures Now() == Taken(old(Now()), Parse(line, marks))
    {
      hide Trim, Scan;
      assert Scannable(marks);
      hide At;
      var f, i := ScanLine(line);
      if f.flag > 0 {
        var key, value := Trim(f.key), Trim(f.value);
        context := context + [DataItem(key)];
        contents := contents[key := Data(value, if f.flag == 2 && i + 1 <= |line| then line[i + 1..] else "")];
      }
    }

    method LoadData(text: string)
      requires Usable(marks)
      modifies this
      ensures Valid() && marks == old(marks) && Now() == Loaded(text, 0, marks, EMPTY)
    {
      hide Parse, Trim, Loaded;
      Clear();
      data, pos := text, 0;
      var found, line := GetLine();
      ghost var from := 0;
      while found
        invariant data == text && marks == old(marks) && from <= pos <= |data|
        invariant found ==> from < |data| && line == data[from..LineEnd(data, from)]
        invariant found ==> pos == if LineEnd(data, from) < |data| then LineEnd(data, from) + 1 else |data|
        invariant !found ==> from == |data|
        invariant Loaded(text, from, marks, Now()) == Loaded(text, 0, marks, EMPTY)
        decreases |data| - from, found
      {
        LoadedStep(text, from, marks, Now());
        TakeLine(Trim(line));
        from := pos;
        found, line := GetLine();
      }
      LoadedStep(text, from, marks, Now());
      LoadedIsListed(text, 0, marks, EMPTY);
    }

    static lemma LoadedStep(text: string, from: nat, m: Marks, c: Config)
      requires Usable(m) && from <= |text|
      ensures Loaded(text, from, m, c) ==
        if from == |text| then c
        else
          var e := LineEnd(text, from);
          Loaded(text, if e < |text| then e + 1 else |text|, m, Taken(c, Parse(Trim(text[from..e]), m)))
    {
      hide Parse, Trim, Taken;
    }

    static lemma {:induction false} LoadedIsListed(text: string, i: nat, m: Marks, c: Config)
      requires Usable(m) && Listed(c)
      ensures Listed(Loaded(text, i, m, c))
      decreases |text| - i
    {
      hide Parse, Trim, Listed, Taken;
      if i < |text| {
        var e := LineEnd(text, i);
        TakenIsListed(c, Parse(Trim(text[i..e]), m));
        LoadedIsListed(text, e + 1, m, Taken(c, Parse(Trim(text[i..e]), m)));
      }
    }

    static lemma TakenIsListed(c: Config, p: Parsed)
      requires Listed(c)
      ensures Listed(Taken(c, p))
    {
      if p.Entry? {
        assert Taken(c, p).context[|c.context|] == DataItem(p.key);
      }
    }

    /** Sets the value of a trimmed key, which gets a line of its own if it is new. */
    method Set(key: string, value: string)
      requires Valid()
      modifies this`context, this`contents
      ensures Valid()
      ensures var k := Trim(key);
        if k == "" then Now() == old(Now())
        else
          && contents == old(contents)[k := Data(value, if k in old(contents) then old(contents)[k].comment else "")]
          && context == old(context) + (if k in old(contents) then [] else [DataItem(k)])
    {
      var k := Trim(key);
      if k == "" {
        return;
      }
      if k in contents {
        contents := contents[k := contents[k].(value := value)];
      } else {
        contents := contents[k := Data(value, "")];
        context := context + [DataItem(k)];
        assert context[|context| - 1] == DataItem(k);
      }
    }

    method SetDataComment(key: string, comment: string)
      requires Valid()
      modifies this`context, this`contents
      ensures Valid()
      ensures var k := Trim(key);
        if k == "" then Now() == old(Now())
        else
          && contents == old(contents)[k := Data(if k in old(contents) then old(contents)[k].value else "", comment)]
          && context == old(context) + (if k in old(contents) then [] else [DataItem(k)])
    {
      var k := Trim(key);
      if k == "" {
        return;
      }
      if k in contents {
        contents := contents[k := contents[k].(comment := comment)];
      } else {
        contents := contents[k := Data("", comment)];
        context := context + [DataItem(k)];
        assert context[|context| - 1] == DataItem(k);
      }
    }

    /** Removes an entry; its line stays in the list, but is not written any more. */
    method Remove(key: string)
      requires Valid()
      modifies this`contents
      ensures Valid() && contents == old(contents) - {key}
    {
      contents := contents - {key};
    }

    /** Doubles the quotes one after the other. */
    static method ReplaceQuotes(s: string) returns (t: string)
      ensures t == Replaced(s, 0)
    {
      hide Replaced;
      t := s;
      var i := 0;
      var n := FindQuote(t, i);
      while n < |t|
        invariant i <= |t| && n == FindQuote(t, i) && Replaced(t, i) == Replaced(s, 0)
        decreases |t| - i
      {
        ReplacedUnfolds(t, i);
        t := t[..n] + [QUOTE, QUOTE] + (if 2 * n + 1 <= |t| then t[2 * n + 1..] else "");
        i := n + 2;
        n := FindQuote(t, i);
      }
      ReplacedUnfolds(t, i);
    }

    method GetFileFormatStr(s: string) returns (t: string)
      ensures t == Written(s, marks)
    {
      var sNew := ReplaceQuotes(s);
      if Contains(sNew, marks.delimiter) {
        return [QUOTE] + sNew + [QUOTE];
      } else if Contains(sNew, marks.comment) {
        return [QUOTE] + sNew + [QUOTE];
      }
      return sNew;
    }

    static method Pad(s: string, width: int) returns (t: string)
      ensures t == s + Padding(width, |s|)
    {
      t := s;
      var i := 0;
      while i < width - |s|
        invariant 0 <= i && (width > |s| ==> i <= width - |s|) && (width <= |s| ==> i == 0) && t == s + Spaces(i)
      {
        t := t + [' '];
        i := i + 1;
      }
    }

    method WriteItem(item: Item, keyWidth: int, dataWidth: int) returns (text: string)
      ensures text == ItemText(item, contents, marks, keyWidth, dataWidth)
    {
      hide Padding, Written;
      text := "";
      match item {
        case BlankItem =>
          text := "\r\n";
        case CommentItem(comment) =>
          text := comment + "\r\n";
        case DataItem(key) =>
          if key in contents {
            var entry := contents[key];
            var line := GetFileFormatStr(key);
            line := Pad(line, keyWidth);
            line := line + " " + marks.delimiter + " ";
            var value := GetFileFormatStr(entry.value);
            line := line + value;
            if entry.comment != "" {
              line := Pad(line, dataWidth);
              line := line + " " + marks.comment + entry.comment;
            }
            text := line + "\r\n";
          }
      }
    }

    /** Writes the lines of the original text, or the given ones. */
    method SaveFile(items: Option<seq<string>>, keyWidth: int, dataWidth: int) returns (text: string)
      ensures items.None? ==> text == Saved(context, 0, contents, marks, keyWidth, dataWidth)
      ensures items.Some? ==>
        text == Saved(ItemsOf(items.value, marks), 0, contents, marks, keyWidth, dataWidth)
    {
      if items.None? {
        text := WriteItems(context, keyWidth, dataWidth);
        return;
      }
      var list: seq<Item> := [];
      var i := 0;
      while i < |items.value|
        invariant i <= |items.value| && |list| == i
        invariant forall k :: 0 <= k < i ==> list[k] == ItemOf(items.value[k], marks)
      {
        list := list + [ItemOf(items.value[i], marks)];
        i := i + 1;
      }
      assert list == ItemsOf(items.value, marks);
      text := WriteItems(list, keyWidth, dataWidth);
    }

    method WriteItems(items: seq<Item>, keyWidth: int, dataWidth: int) returns (text: string)
      ensures text == Saved(items, 0, contents, marks, keyWidth, dataWidth)
    {
      hide ItemText;
      text := "";
      var k := 0;
      while k < |items|
        invariant k <= |items|
        invariant text + Saved(items, k, contents, marks, keyWidth, dataWidth) == Saved(items, 0, contents, marks, keyWidth, dataWidth)
      {
        var line := WriteItem(items[k], keyWidth, dataWidth);
        text := text + line;
        k := k + 1;
      }
    }
  }
}
