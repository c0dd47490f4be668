/** The files behind the cache. What an entry is said to take up is what its files take up, as
    long as no stream has two writers at a time and files can be removed. */
module DiskFiles {
  import opened Wrappers
  import opened DiskEntries
  import opened DiskCache

  /** The sizes of the files there are, by id and stream. */
  type Files = map<(string, nat), nat>

  /** What the file system says of a file; nothing, if there is none. */
  function SizeIn(files: Files, key: (string, nat)): nat {
    if key in files then files[key] else 0
  }

  /** The sizes of the first `n` streams of a resource, but for those that are being written. */
  ghost function Counted(files: Files, writing: set<(string, nat)>, id: string, n: nat): nat {
    if n == 0 then 0
    else Counted(files, writing, id, n - 1) + if (id, n - 1) in writing then 0 else SizeIn(files, (id, n - 1))
  }

  /** Every entry takes up what its files do, and there are no other files. */
  ghost predicate OnDisk(es: seq<Entry>, files: Files, writing: set<(string, nat)>) {
    && (forall e :: e in es ==> e.size == Counted(files, writing, e.id, e.streams))
    && (forall key :: key in files ==> exists e :: e in es && e.id == key.0 && key.1 < e.streams)
    && (forall key :: key in writing ==> key in files)
  }

  lemma {:induction false} CountedSame(files: Files, files': Files, writing: set<(string, nat)>,
                                          writing': set<(string, nat)>, id: string, n: nat)
    requires forall i: nat :: i < n ==>
      SizeIn(files', (id, i)) == SizeIn(files, (id, i)) && ((id, i) in writing' <==> (id, i) in writing)
    ensures Counted(files', writing', id, n) == Counted(files, writing, id, n)
  {
    if n > 0 {
      CountedSame(files, files', writing, writing', id, n - 1);
    }
  }

  /** A file that comes to be written no longer counts, and the other way round. */
  lemma {:induction false} CountedWithout(files: Files, files': Files, writing: set<(string, nat)>,
                                             writing': set<(string, nat)>, id: string, n: nat, i: nat)
    requires i < n && (id, i) !in writing && (id, i) in writing'
    requires forall j: nat :: j < n && j != i ==>
      SizeIn(files', (id, j)) == SizeIn(files, (id, j)) && ((id, j) in writing' <==> (id, j) in writing)
    ensures Counted(files, writing, id, n) == Counted(files', writing', id, n) + SizeIn(files, (id, i))
  {
    if i == n - 1 {
      CountedSame(files, files', writing, writing', id, n - 1);
    } else {
      CountedWithout(files, files', writing, writing', id, n - 1, i);
    }
  }

  /** Streams without a file add nothing. */
  lemma {:induction false} CountedMore(files: Files, writing: set<(string, nat)>, id: string, n: nat, n': nat)
    requires n <= n' && forall i: nat :: n <= i < n' ==> (id, i) !in files
    ensures Counted(files, writing, id, n') == Counted(files, writing, id, n)
    decreases n'
  {
    if n < n' {
      CountedMore(files, writing, id, n, n' - 1);
    }
  }

  // ------------------------------------------------------------------- entries that come, go, and change

  predicate SameFiles(e: Entry, e': Entry) {
    e'.id == e.id && e'.size == e.size && e'.streams == e.streams
  }

  /** What is left of the entries, with the same files. */
  ghost predicate From(es': seq<Entry>, es: seq<Entry>) {
    forall e' :: e' in es' ==> exists e :: e in es && SameFiles(e, e')
  }

  /** When an entry goes, so do its files. */
  function LeftOf(files: Files, es: seq<Entry>): Files {
    map key | key in files && Has(es, key.0) :: files[key]
  }

  lemma HasEntry(es: seq<Entry>, id: string) returns (e: Entry)
    requires Has(es, id)
    ensures e in es && e.id == id
  {
    var i :| 0 <= i < |es| && es[i].id == id;
    e := es[i];
  }

  lemma EntryHas(es: seq<Entry>, e: Entry)
    requires e in es
    ensures Has(es, e.id)
  {
    var i :| 0 <= i < |es| && es[i] == e;
  }

  lemma OneOfId(es: seq<Entry>, a: Entry, b: Entry)
    requires Ordered(es) && a in es && b in es && a.id == b.id
    ensures a == b
  {
    var i :| 0 <= i < |es| && es[i] == a;
    MemberById(es, i, b);
  }

  lemma OnDiskFrom(es: seq<Entry>, es': seq<Entry>, files: Files, writing: set<(string, nat)>)
    requires OnDisk(es, files, writing) && Ordered(es) && From(es', es)
    requires forall key :: key in writing ==> Has(es', key.0)
    ensures OnDisk(es', LeftOf(files, es'), writing)
  {
    hide Ordered, Has;
    var files' := LeftOf(files, es');
    forall e' | e' in es' ensures e'.size == Counted(files', writing, e'.id, e'.streams) {
      var e :| e in es && SameFiles(e, e');
      EntryHas(es', e');
      CountedSame(files, files', writing, writing, e.id, e.streams);
    }
    forall key | key in files' ensures exists e :: e in es' && e.id == key.0 && key.1 < e.streams {
      var e' := HasEntry(es', key.0);
      var e :| e in es && SameFiles(e, e');
      var f :| f in es && f.id == key.0 && key.1 < f.streams;
      OneOfId(es, e, f);
    }
  }

  lemma NoneLost(es: seq<Entry>, files: Files, writing: set<(string, nat)>)
    requires OnDisk(es, files, writing)
    ensures LeftOf(files, es) == files
  {
    forall key | key in files ensures Has(es, key.0) {
      var e :| e in es && e.id == key.0 && key.1 < e.streams;
      EntryHas(es, e);
    }
  }

  /** One entry changes with its files. */
  lemma OnDiskUpdate(es: seq<Entry>, k: nat, e': Entry, files: Files, writing: set<(string, nat)>,
                     files': Files, writing': set<(string, nat)>)
    requires OnDisk(es, files, writing) && Ordered(es) && k < |es| && e'.id == es[k].id && es[k].streams <= e'.streams
    requires forall key: (string, nat) :: key.0 != e'.id ==> (key in files' <==> key in files) && (key in writing' <==> key in writing)
    requires forall key :: key in files && key.0 != e'.id ==> files'[key] == files[key]
    requires e'.size == Counted(files', writing', e'.id, e'.streams)
    requires forall key :: key in files' && key.0 == e'.id ==> key.1 < e'.streams
    requires forall key :: key in writing' ==> key in files'
    ensures OnDisk(es[k := e'], files', writing')
  {
    hide Ordered;
    var es' := es[k := e'];
    assert es'[k] == e';
    forall i | 0 <= i < |es'| ensures es'[i].size == Counted(files', writing', es'[i].id, es'[i].streams) {
      if i != k {
        assert es[i] in es;
        DifferentIds(es, i, k);
        CountedSame(files, files', writing, writing', es[i].id, es[i].streams);
      }
    }
    forall key | key in files' ensures exists e :: e in es' && e.id == key.0 && key.1 < e.streams {
      if key.0 == e'.id {
        assert e' in es';
      } else {
        var e :| e in es && e.id == key.0 && key.1 < e.streams;
        var i :| 0 <= i < |es| && es[i] == e;
        assert es'[i] == e;
      }
    }
  }

  lemma DifferentIds(es: seq<Entry>, i: nat, k: nat)
    requires Ordered(es) && i < |es| && k < |es| && i != k
    ensures es[i].id != es[k].id
  {
    if es[i].id == es[k].id {
      SameIdSameEntry(es, i, k);
    }
  }

  /** A stream is opened for writing: its file is emptied and no longer counts. */
  lemma OnDiskWrite(es: seq<Entry>, k: nat, e': Entry, index: nat, files: Files, writing: set<(string, nat)>)
    requires OnDisk(es, files, writing) && Ordered(es) && k < |es| && (es[k].id, index) !in writing
    requires e'.id == es[k].id && e'.streams == (if index + 1 > es[k].streams then index + 1 else es[k].streams)
    ensures SizeIn(files, (es[k].id, index)) <= es[k].size
    ensures e'.size == es[k].size - SizeIn(files, (es[k].id, index)) ==>
      OnDisk(es[k := e'], files[(es[k].id, index) := 0], writing + {(es[k].id, index)})
  {
    hide Ordered;
    var e, key := es[k], (es[k].id, index);
    var files', writing' := files[key := 0], writing + {key};
    assert e in es;
    forall other | other in files && other.0 == e.id ensures other.1 < e.streams {
      var f :| f in es && f.id == other.0 && other.1 < f.streams;
      OneOfId(es, e, f);
    }
    CountedMore(files, writing, e.id, e.streams, e'.streams);
    CountedWithout(files, files', writing, writing', e.id, e'.streams, index);
    if e'.size == e.size - SizeIn(files, key) {
      OnDiskUpdate(es, k, e', files, writing, files', writing');
    }
  }

  /** The file of a stream that is being written grows. */
  lemma OnDiskGrow(es: seq<Entry>, key: (string, nat), size: nat, files: Files, writing: set<(string, nat)>)
    requires OnDisk(es, files, writing) && key in writing
    ensures OnDisk(es, files[key := size], writing)
  {
    var files' := files[key := size];
    forall e | e in es ensures e.size == Counted(files', writing, e.id, e.streams) {
      CountedGrow(files, files', writing, key, e.id, e.streams);
    }
  }

  lemma {:induction false} CountedGrow(files: Files, files': Files, writing: set<(string, nat)>,
                                          key: (string, nat), id: string, n: nat)
    requires key in writing && forall other :: other != key ==> SizeIn(files', other) == SizeIn(files, other)
    ensures Counted(files', writing, id, n) == Counted(files, writing, id, n)
  {
    if n > 0 {
      CountedGrow(files, files', writing, key, id, n - 1);
    }
  }

  /** A stream that was being written is closed: its file counts again. */
  lemma OnDiskClose(es: seq<Entry>, k: nat, e': Entry, index: nat, files: Files, writing: set<(string, nat)>)
    requires OnDisk(es, files, writing) && Ordered(es) && k < |es| && (es[k].id, index) in writing
    requires e'.id == es[k].id && e'.streams == es[k].streams && e'.size == es[k].size + SizeIn(files, (es[k].id, index))
    ensures OnDisk(es[k := e'], files, writing - {(es[k].id, index)})
  {
    hide Ordered;
    var e, key := es[k], (es[k].id, index);
    assert e in es && key in files;
    forall other | other in files && other.0 == e.id ensures other.1 < e.streams {
      var f :| f in es && f.id == other.0 && other.1 < f.streams;
      OneOfId(es, e, f);
    }
    CountedWithout(files, files, writing - {key}, writing, e.id, e.streams, index);
    OnDiskUpdate(es, k, e', files, writing, files, writing - {key});
  }

  lemma OnDiskCreated(es: seq<Entry>, id: string, now: int, files: Files, writing: set<(string, nat)>)
    requires OnDisk(es, files, writing) && Ordered(es)
    ensures OnDisk(Created(es, id, now), files, writing)
  {
    FindFinds(es, id);
    var es' := Created(es, id, now);
    var k := Slot(es, id);
    assert es[..k] + es[k..] == es;
    assert forall e :: e in es ==> e in es';
    assert forall e :: e in es' ==> e in es || (e.size == 0 && e.streams == 0);
  }

  lemma FromSelf(es: seq<Entry>)
    ensures From(es, es)
  {
  }

  lemma FromUpdate(es: seq<Entry>, es': seq<Entry>, k: nat, e': Entry)
    requires From(es', es) && k < |es'| && SameFiles(es'[k], e')
    ensures From(es'[k := e'], es)
  {
    assert es'[k] in es';
    var e :| e in es && SameFiles(e, es'[k]);
    assert SameFiles(e, e');
    var next := es'[k := e'];
    forall i | 0 <= i < |next| ensures exists y :: y in es && SameFiles(y, next[i]) {
      if i != k {
        assert next[i] == es'[i] && es'[i] in es';
      }
    }
  }

  lemma FromTrim(es: seq<Entry>, total: nat, max: nat)
    requires Total(es, SizeOf) <= total && Ordered(es)
    ensures From(Trim(es, total, max, {}).entries, es)
  {
    hide Trim;
    TrimRemoves(es, total, max, {});
    forall e | e in Trim(es, total, max, {}).entries ensures SameFiles(e, e) && e in es {
    }
  }

  lemma OrderedUpdate(es: seq<Entry>, k: nat, e': Entry)
    requires Ordered(es) && k < |es| && e'.id == es[k].id
    ensures Ordered(es[k := e'])
  {
    hide Less;
  }

  /** A check after an entry has been changed, but not in its files. */
  lemma FromTrimmed(es: seq<Entry>, k: nat, e': Entry, total: nat, max: nat)
    requires Ordered(es) && k < |es| && SameFiles(es[k], e') && Total(es[k := e'], SizeOf) <= total
    ensures From(Trim(es[k := e'], total, max, {}).entries, es)
  {
    hide Trim, Ordered, Total;
    var es' := es[k := e'];
    OrderedUpdate(es, k, e');
    FromSelf(es);
    FromUpdate(es, es, k, e');
    FromTrim(es', total, max);
    FromFrom(es, es', Trim(es', total, max, {}).entries);
  }

  lemma FromFrom(a: seq<Entry>, b: seq<Entry>, c: seq<Entry>)
    requires From(b, a) && From(c, b)
    ensures From(c, a)
  {
    forall i | 0 <= i < |c| ensures exists x :: x in a && SameFiles(x, c[i]) {
      assert c[i] in c;
      var y :| y in b && SameFiles(y, c[i]);
      var x :| x in a && SameFiles(x, y);
      assert SameFiles(x, c[i]);
    }
  }

  // ------------------------------------------------------------------- open streams

  datatype Stream = Stream(id: string, index: nat, writing: bool)

  ghost function HandlesOf(streams: seq<Stream>): multiset<Handle> {
    if streams == [] then multiset{}
    else HandlesOf(streams[..|streams| - 1]) + multiset{Handle(streams[|streams| - 1].id, streams[|streams| - 1].writing)}
  }

  function WritingOf(streams: seq<Stream>): set<(string, nat)> {
    set s | s in streams && s.writing :: (s.id, s.index)
  }

  /** No stream is written by two at a time. */
  ghost predicate OneWriter(streams: seq<Stream>) {
    forall i, j :: 0 <= i < j < |streams| && streams[i].writing ==> streams[i] != streams[j]
  }

  lemma {:induction false} HandlesOfTwo(a: seq<Stream>, b: seq<Stream>)
    ensures HandlesOf(a + b) == HandlesOf(a) + HandlesOf(b)
  {
    if b == [] {
      assert a + b == a;
    } else {
      assert (a + b)[..|a + b| - 1] == a + b[..|b| - 1];
      HandlesOfTwo(a, b[..|b| - 1]);
    }
  }

  lemma HandlesOfOne(s: Stream)
    ensures HandlesOf([s]) == multiset{Handle(s.id, s.writing)}
  {
    assert [s][..0] == [];
  }

  function Closed(streams: seq<Stream>, at: nat): seq<Stream>
    requires at < |streams|
  {
    streams[..at] + streams[at + 1..]
  }

  lemma HandlesOfClosed(streams: seq<Stream>, at: nat)
    requires at < |streams|
    ensures var h := Handle(streams[at].id, streams[at].writing);
      h in HandlesOf(streams) && HandlesOf(Closed(streams, at)) == HandlesOf(streams) - multiset{h}
  {
    hide HandlesOf;
    var a, s, b := streams[..at], streams[at], streams[at + 1..];
    assert streams == a + ([s] + b);
    HandlesOfTwo(a, [s] + b);
    HandlesOfTwo([s], b);
    HandlesOfTwo(a, b);
    HandlesOfOne(s);
  }

  lemma HandlesOfOpened(streams: seq<Stream>, s: Stream)
    ensures HandlesOf(streams + [s]) == HandlesOf(streams) + multiset{Handle(s.id, s.writing)}
  {
    HandlesOfTwo(streams, [s]);
    HandlesOfOne(s);
  }

  lemma WritingOfClosed(streams: seq<Stream>, at: nat)
    requires at < |streams| && OneWriter(streams)
    ensures OneWriter(Closed(streams, at))
    ensures WritingOf(Closed(streams, at))
      == WritingOf(streams) - if streams[at].writing then {(streams[at].id, streams[at].index)} else {}
  {
    var t := Closed(streams, at);
    forall s | s in streams && s != streams[at] ensures s in t {
      var i :| 0 <= i < |streams| && streams[i] == s;
      assert t[if i < at then i else i - 1] == s;
    }
    forall s | s in t ensures s in streams && (s.writing ==> s != streams[at]) {
      var i :| 0 <= i < |t| && t[i] == s;
      assert s == streams[if i < at then i else i + 1];
    }
  }

  lemma WritingOfOpened(streams: seq<Stream>, s: Stream)
    requires OneWriter(streams) && (s.writing ==> (s.id, s.index) !in WritingOf(streams))
    ensures OneWriter(streams + [s])
    ensures WritingOf(streams + [s]) == WritingOf(streams) + if s.writing then {(s.id, s.index)} else {}
  {
    forall i | 0 <= i < |streams| && streams[i].writing ensures streams[i] != s {
      assert (streams[i].id, streams[i].index) in WritingOf(streams);
    }
  }

  lemma TwoWrite(streams: seq<Stream>, s: Stream)
    requires s.writing && (s.id, s.index) in WritingOf(streams)
    ensures !OneWriter(streams + [s])
  {
    var t := streams + [s];
    assert s in streams;
    var i :| 0 <= i < |streams| && streams[i] == s;
    assert t[i] == t[|streams|];
  }

  /** What is being written has an entry. */
  lemma WritersAreThere(es: seq<Entry>, open: map<string, Open>, streams: seq<Stream>)
    requires Accounted(es, open) && Held(open, HandlesOf(streams))
    ensures forall key :: key in WritingOf(streams) ==> Has(es, key.0)
  {
    forall s | s in streams && s.writing ensures Has(es, s.id) {
      var i :| 0 <= i < |streams| && streams[i] == s;
      HandlesOfClosed(streams, i);
      assert OpenOf(open, s.id).writers > 0;
    }
  }

  lemma StillOnDisk(es: seq<Entry>, es': seq<Entry>, open: map<string, Open>, streams: seq<Stream>, files: Files)
    requires OnDisk(es, files, WritingOf(streams)) && Ordered(es) && From(es', es)
    requires Accounted(es', open) && Held(open, HandlesOf(streams))
    ensures OnDisk(es', LeftOf(files, es'), WritingOf(streams))
  {
    hide OnDisk, Ordered, From, LeftOf, Accounted, Held, WritingOf;
    WritersAreThere(es', open, streams);
    OnDiskFrom(es, es', files, WritingOf(streams));
  }

  // ------------------------------------------------------------------- whole runs

  datatype Act =
    | AskLock(id: string)
    | OpenWriter(id: string, index: nat, canOpen: bool)
    | GiveUpLock(id: string)
    | OpenReader(id: string, index: nat, canOpen: bool)
    | Append(at: nat, n: nat)
    | Close(at: nat)
    | Remove(id: string)
    | PurgeAll

  ghost predicate Booked(cache: DiskCache, streams: seq<Stream>, files: Files)
    reads cache
  {
    && cache.Valid() && Held(cache.open, HandlesOf(streams))
    && OneWriter(streams) && OnDisk(cache.entries, files, WritingOf(streams))
  }

  method LockFiles(cache: DiskCache, id: string, now: int, ghost streams: seq<Stream>, files: Files)
    returns (files': Files, crash: Crash)
    requires Booked(cache, streams, files)
    modifies cache
    ensures Booked(cache, streams, files')
  {
    hide Ordered, Accounted, Total, Has, Find, Trim, Created, LockGoesWrong, HasLocked, OnDisk, Held, From, LeftOf;
    ghost var es, open, total := Created(cache.entries, id, now), cache.open, cache.total;
    CreatedHas(cache.entries, id, now, open);
    OnDiskCreated(cache.entries, id, now, files, WritingOf(streams));
    FromSelf(es);
    FromTrim(es, total, cache.max);
    ghost var left := Trim(es, total, cache.max, {}).entries;
    if Find(left, id) < |left| {
      FromUpdate(es, left, Find(left, id), left[Find(left, id)].(lock := Locked));
    }
    var r := cache.LockResource(id, now, {});
    HeldSame(open, cache.open, HandlesOf(streams));
    StillOnDisk(es, cache.entries, cache.open, streams, files);
    files' := LeftOf(files, cache.entries);
    crash := if r == Dangling then StaleEntry else if r == Overfull(PastTheEnd) then PastMap else NoCrash;
  }

  method UnlockFiles(cache: DiskCache, id: string, now: int, ghost streams: seq<Stream>, files: Files)
    returns (files': Files, crash: Crash)
    requires Booked(cache, streams, files)
    modifies cache
    ensures Booked(cache, streams, files')
  {
    hide Ordered, Accounted, Total, Has, Trim, HasLocked, OnDisk, Held, From, LeftOf, Find;
    ghost var es, open, k := cache.entries, cache.open, Find(cache.entries, id);
    FindFinds(es, id);
    FromSelf(es);
    if k < |es| {
      FromUpdate(es, es, k, es[k].(lock := Unlocking));
      TotalOfUpdate(es, k, es[k].(lock := Unlocked, modified := now), SizeOf);
      FromTrimmed(es, k, es[k].(lock := Unlocked, modified := now), cache.total, cache.max);
    }
    var r := cache.UnlockResource(id, now, {});
    HeldSame(open, cache.open, HandlesOf(streams));
    StillOnDisk(es, cache.entries, cache.open, streams, files);
    files' := LeftOf(files, cache.entries);
    crash := if r.Unknown? then NullEntry(id) else if r == GivenUp(PastTheEnd) then PastMap else NoCrash;
  }

  method WriteFiles(cache: DiskCache, id: string, index: nat, canOpen: bool, streams: seq<Stream>, files: Files)
    returns (streams': seq<Stream>, files': Files, crash: Crash)
    requires Booked(cache, streams, files)
    modifies cache
    ensures cache.Valid() && Held(cache.open, HandlesOf(streams'))
    ensures (id, index) !in WritingOf(streams) || streams' == streams ==> Booked(cache, streams', files')
    ensures (id, index) in WritingOf(streams) && streams' != streams ==> !OneWriter(streams')
  {
    hide Ordered, Accounted, Total, Has, HasLocked, OnDisk, Held, Find, OneWriter;
    ghost var es, open, k := cache.entries, cache.open, Find(cache.entries, id);
    FindFinds(es, id);
    streams', files', crash := streams, files, NoCrash;
    var size, s := SizeIn(files, (id, index)), Stream(id, index, true);
    var r := cache.WriteResource(id, index, size, canOpen);
    if r == Opened {
      HeldPlus(open, HandlesOf(streams), Handle(id, true));
      HandlesOfOpened(streams, s);
      streams', files' := streams + [s], files[(id, index) := 0];
      if (id, index) !in WritingOf(streams) {
        WritingOfOpened(streams, s);
        OnDiskWrite(es, k, cache.entries[k], index, files, WritingOf(streams));
      } else {
        TwoWrite(streams, s);
      }
    } else if r == Missing {
      crash := NullEntry(id);
    }
  }

  method ReadFiles(cache: DiskCache, id: string, index: nat, canOpen: bool, streams: seq<Stream>, files: Files)
    returns (streams': seq<Stream>, crash: Crash)
    requires Booked(cache, streams, files)
    modifies cache
    ensures Booked(cache, streams', files)
  {
    hide Ordered, Accounted, Total, Has, HasLocked, OnDisk, Held, Find, OneWriter, From, LeftOf;
    ghost var es, open, k := cache.entries, cache.open, Find(cache.entries, id);
    FindFinds(es, id);
    streams', crash := streams, NoCrash;
    var s := Stream(id, index, false);
    var r := cache.ReadResource(id, index, canOpen);
    if r == Opened {
      HeldPlus(open, HandlesOf(streams), Handle(id, false));
      HandlesOfOpened(streams, s);
      WritingOfOpened(streams, s);
      streams' := streams + [s];
      assert WritingOf(streams') == WritingOf(streams);
      KeptFiles(es, k, cache.entries[k], cache.open, streams', files);
    } else if r == Missing {
      crash := NullEntry(id);
    }
  }

  /** An entry changes, but not in its files. */
  lemma KeptFiles(es: seq<Entry>, k: nat, e': Entry, open: map<string, Open>, streams: seq<Stream>, files: Files)
    requires OnDisk(es, files, WritingOf(streams)) && Ordered(es) && k < |es| && SameFiles(es[k], e')
    requires Accounted(es[k := e'], open) && Held(open, HandlesOf(streams))
    ensures OnDisk(es[k := e'], files, WritingOf(streams))
  {
    hide OnDisk, Ordered, Accounted, Held, WritingOf, LeftOf;
    FromSelf(es);
    FromUpdate(es, es, k, e');
    StillOnDisk(es, es[k := e'], open, streams, files);
    SameIdsLeft(es, es[k := e'], files);
    NoneLost(es, files, WritingOf(streams));
  }

  lemma SameIdsLeft(es: seq<Entry>, es': seq<Entry>, files: Files)
    requires |es'| == |es| && forall i :: 0 <= i < |es| ==> es'[i].id == es[i].id
    ensures LeftOf(files, es') == LeftOf(files, es)
  {
    forall key | key in files ensures Has(es', key.0) <==> Has(es, key.0) {
      if Has(es, key.0) {
        var i :| 0 <= i < |es| && es[i].id == key.0;
        assert es'[i].id == key.0;
      }
    }
  }

  method CloseFiles(cache: DiskCache, at: nat, now: int, streams: seq<Stream>, files: Files)
    returns (streams': seq<Stream>, files': Files, crash: Crash)
    requires Booked(cache, streams, files) && at < |streams|
    modifies cache
    ensures Booked(cache, streams', files')
  {
    hide Ordered, Accounted, Total, Has, HasLocked, OnDisk, Held, Find, OneWriter, From, LeftOf, Trim;
    ghost var es, open, total := cache.entries, cache.open, cache.total;
    var s := streams[at];
    var size := SizeIn(files, (s.id, s.index));
    cache.ReadersOrWriters(s.id);
    HandlesOfClosed(streams, at);
    WritingOfClosed(streams, at);
    HeldMinus(open, HandlesOf(streams), Handle(s.id, s.writing));
    ghost var k := Find(es, s.id);
    var verdict := cache.ReleaseResource(s.id, s.writing, size, now, {});
    streams' := Closed(streams, at);
    files' := LeftOf(files, cache.entries);
    crash := if verdict == PastTheEnd then PastMap else NoCrash;
    FindFinds(es, s.id);
    ghost var closed := es[k].(accessors := es[k].accessors - 1, size := es[k].size + if s.writing then size else 0);
    if s.writing {
      assert (s.id, s.index) in WritingOf(streams);
      OnDiskClose(es, k, closed, s.index, files, WritingOf(streams));
      OrderedUpdate(es, k, closed);
      FromSelf(es[k := closed]);
      if es[k].lock == Unlocking && closed.accessors == 0 {
        ghost var last := closed.(lock := Unlocked, modified := now);
        assert es[k := closed][k := last] == es[k := last];
        FromTrimmed(es[k := closed], k, last, total + size, cache.max);
      }
      StillOnDisk(es[k := closed], cache.entries, cache.open, streams', files);
    } else {
      assert WritingOf(streams') == WritingOf(streams);
      FromSelf(es);
      FromUpdate(es, es, k, closed);
      StillOnDisk(es, cache.entries, cache.open, streams', files);
    }
  }

  method DeleteFiles(cache: DiskCache, id: string, ghost streams: seq<Stream>, files: Files) returns (files': Files)
    requires Booked(cache, streams, files)
    modifies cache
    ensures Booked(cache, streams, files')
  {
    hide Ordered, Accounted, Total, Has, HasLocked, OnDisk, Held, Find, OneWriter, LeftOf;
    ghost var es, k := cache.entries, Find(cache.entries, id);
    FromSelf(es);
    var ok := cache.DeleteResource(id, {});
    assert forall e :: e in cache.entries ==> e in es;
    StillOnDisk(es, cache.entries, cache.open, streams, files);
    files' := LeftOf(files, cache.entries);
  }

  method PurgeFiles(cache: DiskCache, ghost streams: seq<Stream>, files: Files) returns (files': Files)
    requires Booked(cache, streams, files)
    modifies cache
    ensures Booked(cache, streams, files')
  {
    hide Ordered, Accounted, Total, Has, OnDisk, OneWriter, LeftOf;
    ghost var es, open := cache.entries, cache.open;
    FromSelf(es);
    var done := cache.Purge(true);
    if done {
      NoneOpenInEmpty();
      HeldSame(open, cache.open, HandlesOf(streams));
    }
    StillOnDisk(es, cache.entries, cache.open, streams, files);
    files' := LeftOf(files, cache.entries);
  }

  /** One call, or one write to a stream. */
  method PerformAct(cache: DiskCache, act: Act, now: int, streams: seq<Stream>, files: Files)
    returns (streams': seq<Stream>, files': Files, crash: Crash, shared: bool)
    requires Booked(cache, streams, files)
    modifies cache
    ensures cache.Valid() && Held(cache.open, HandlesOf(streams'))
    ensures if shared then !OneWriter(streams') else Booked(cache, streams', files')
  {
    hide HandlesOf, Held, OneWriter, OnDisk, WritingOf;
    streams', files', crash, shared := streams, files, NoCrash, false;
    match act
    case AskLock(id) => files', crash := LockFiles(cache, id, now, streams, files);
    case GiveUpLock(id) => files', crash := UnlockFiles(cache, id, now, streams, files);
    case OpenWriter(id, index, canOpen) =>
      streams', files', crash := WriteFiles(cache, id, index, canOpen, streams, files);
      shared := (id, index) in WritingOf(streams) && streams' != streams;
    case OpenReader(id, index, canOpen) => streams', crash := ReadFiles(cache, id, index, canOpen, streams, files);
    case Append(at, n) =>
      if at < |streams| && streams[at].writing {
        var key := (streams[at].id, streams[at].index);
        WritesHere(streams, at);
        OnDiskGrow(cache.entries, key, SizeIn(files, key) + n, files, WritingOf(streams));
        files' := files[key := SizeIn(files, key) + n];
      }
    case Close(at) =>
      if at < |streams| {
        streams', files', crash := CloseFiles(cache, at, now, streams, files);
      }
    case Remove(id) => files' := DeleteFiles(cache, id, streams, files);
    case PurgeAll => files' := PurgeFiles(cache, streams, files);
  }

  lemma WritesHere(streams: seq<Stream>, at: nat)
    requires at < |streams| && streams[at].writing
    ensures (streams[at].id, streams[at].index) in WritingOf(streams)
  {
  }

  /** Whatever is called, and whatever is written: until a stream comes to have two writers, every
      entry takes up what the file system says of its closed files, and there are no other files. */
  method RunOnFiles(cache: DiskCache, found: Files, acts: seq<(Act, int)>)
    returns (streams: seq<Stream>, files: Files, done: nat, crash: Crash)
    requires cache.Valid() && Held(cache.open, multiset{}) && OnDisk(cache.entries, found, {})
    modifies cache
    ensures cache.Valid() && Held(cache.open, HandlesOf(streams)) && cache.total == Total(cache.entries, SizeOf) + cache.purged
    ensures done <= |acts| && (done < |acts| ==> crash != NoCrash || !OneWriter(streams))
    ensures OneWriter(streams) ==> OnDisk(cache.entries, files, WritingOf(streams))
  {
    hide HandlesOf, OneWriter, Ordered, Accounted, Total;
    streams, files, done, crash := [], found, 0, NoCrash;
    var shared := false;
    NothingOpenYet();
    while done < |acts| && crash == NoCrash && !shared
      invariant done <= |acts| && cache.Valid() && Held(cache.open, HandlesOf(streams))
      invariant if shared then !OneWriter(streams) else Booked(cache, streams, files)
    {
      streams, files, crash, shared := PerformAct(cache, acts[done].0, acts[done].1, streams, files);
      done := done + 1;
    }
  }

  lemma NothingOpenYet()
    ensures HandlesOf([]) == multiset{} && OneWriter([]) && WritingOf([]) == {}
  {
  }

  /** Two writers of one stream: three bytes are written, and six are counted. */
  method TwoWriters() returns (cache: DiskCache)
    ensures cache.entries == [Entry("a", Locked, 0, 6, 1, 7)] && cache.total == 6
  {
    hide Ordered, Accounted, Total, HasLocked, LockGoesWrong, Find, Trim, Created, Less, Slot;
    NothingFound();
    var verdict;
    cache, verdict := DiskCache.Initialize(5, [], {});
    OnlyA();
    var l := cache.LockResource("a", 7, {});
    assert cache.entries == [Entry("a", Locked, 0, 0, 0, 7)];
    FindOnly(cache.entries);
    var w := cache.WriteResource("a", 0, 0, true);
    assert cache.entries == [Entry("a", Locked, 1, 0, 1, 7)];
    FindOnly(cache.entries);
    w := cache.WriteResource("a", 0, 0, true);
    assert cache.entries == [Entry("a", Locked, 2, 0, 1, 7)];
    FindOnly(cache.entries);
    verdict := cache.ReleaseResource("a", true, 3, 7, {});
    assert cache.entries == [Entry("a", Locked, 1, 3, 1, 7)];
    FindOnly(cache.entries);
    verdict := cache.ReleaseResource("a", true, 3, 7, {});
  }

  lemma OnlyA()
    ensures var es := Created([], "a", 7);
      && es == [Entry("a", Unlocked, 0, 0, 0, 7)] && Find(es, "a") == 0
      && (Total(es, SizeOf) <= 0 ==> Trim(es, 0, 5, {}) == Trimmed(es, 0, Within))
  {
  }

  lemma FindOnly(es: seq<Entry>)
    requires |es| == 1 && es[0].id == "a"
    ensures Find(es, "a") == 0 && Has(es, "a")
  {
  }
}
