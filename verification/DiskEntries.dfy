/** The entries of the disk cache in the order of their ids, and the choice of what to evict.
    All of it is about values; module DiskCache updates them in place. */
module DiskEntries {
  import opened Wrappers

  datatype LockState = Unlocked | Locked | Unlocking

  datatype Entry = Entry(id: string, lock: LockState, accessors: nat, size: nat, streams: nat, modified: int)

  /** Neither locked nor open: the only kind of entry that may be deleted. */
  predicate Evictable(e: Entry) {
    e.lock == Unlocked && e.accessors == 0
  }

  function SizeOf(e: Entry): nat { e.size }
  function AccessorsOf(e: Entry): nat { e.accessors }

  function Total(es: seq<Entry>, f: Entry -> nat): nat {
    if es == [] then 0 else Total(es[..|es| - 1], f) + f(es[|es| - 1])
  }

  lemma {:induction false} TotalOfTwo(a: seq<Entry>, b: seq<Entry>, f: Entry -> nat)
    ensures Total(a + b, f) == Total(a, f) + Total(b, f)
  {
    if b == [] {
      assert a + b == a;
    } else {
      assert (a + b)[..|a + b| - 1] == a + b[..|b| - 1];
      TotalOfTwo(a, b[..|b| - 1], f);
    }
  }

  lemma TotalOfOne(e: Entry, f: Entry -> nat)
    ensures Total([e], f) == f(e)
  {
    assert [e][..0] == [];
  }

  lemma TotalAround(a: seq<Entry>, mid: seq<Entry>, b: seq<Entry>, f: Entry -> nat)
    ensures Total(a + mid + b, f) == Total(a, f) + Total(mid, f) + Total(b, f)
  {
    TotalOfTwo(a + mid, b, f);
    TotalOfTwo(a, mid, f);
  }

  lemma TotalOfUpdate(es: seq<Entry>, k: nat, e: Entry, f: Entry -> nat)
    requires k < |es|
    ensures Total(es[k := e], f) + f(es[k]) == Total(es, f) + f(e)
    ensures f(es[k]) <= Total(es, f)
  {
    assert es[k := e] == es[..k] + [e] + es[k + 1..];
    assert es == es[..k] + [es[k]] + es[k + 1..];
    TotalAround(es[..k], [e], es[k + 1..], f);
    TotalAround(es[..k], [es[k]], es[k + 1..], f);
    TotalOfOne(e, f);
    TotalOfOne(es[k], f);
  }

  function Without(es: seq<Entry>, k: nat): seq<Entry>
    requires k < |es|
  {
    es[..k] + es[k + 1..]
  }

  lemma TotalWithout(es: seq<Entry>, k: nat, f: Entry -> nat)
    requires k < |es|
    ensures Total(Without(es, k), f) + f(es[k]) == Total(es, f)
  {
    hide Total;
    var a, b := es[..k], es[k + 1..];
    assert es == a + [es[k]] + b;
    TotalAround(a, [es[k]], b, f);
    TotalOfTwo(a, b, f);
    TotalOfOne(es[k], f);
  }

  // ----------------------------------------------------------- the order of the ids

  predicate Less(a: string, b: string) {
    b != [] && (a == [] || a[0] < b[0] || (a[0] == b[0] && Less(a[1..], b[1..])))
  }

  lemma {:induction false} LessIsTotal(a: string, b: string)
    ensures Less(a, b) || a == b || Less(b, a)
    ensures !(Less(a, b) && Less(b, a)) && !Less(a, a)
  {
    if a != [] && b != [] {
      LessIsTotal(a[1..], b[1..]);
      LessIsTotal(a[1..], a[1..]);
      assert a[0] == b[0] && a[1..] == b[1..] ==> a == [a[0]] + a[1..] && b == [b[0]] + b[1..];
    } else if a != [] {
      LessIsTotal(a[1..], a[1..]);
    }
  }

  lemma {:induction false} LessIsTransitive(a: string, b: string, c: string)
    requires Less(a, b) && Less(b, c)
    ensures Less(a, c)
  {
    if a != [] && a[0] == b[0] == c[0] {
      LessIsTransitive(a[1..], b[1..], c[1..]);
    }
  }

  predicate Ordered(es: seq<Entry>) {
    forall i, j :: 0 <= i < j < |es| ==> Less(es[i].id, es[j].id)
  }

  predicate Has(es: seq<Entry>, id: string) {
    exists i :: 0 <= i < |es| && es[i].id == id
  }

  lemma SameIdSameEntry(es: seq<Entry>, i: nat, j: nat)
    requires Ordered(es) && i < |es| && j < |es| && es[i].id == es[j].id
    ensures i == j
  {
    LessIsTotal(es[i].id, es[j].id);
  }

  /** The first entry whose id is not less. */
  function Slot(es: seq<Entry>, id: string, from: nat := 0): (k: nat)
    requires from <= |es|
    ensures from <= k <= |es|
    ensures k < |es| ==> !Less(es[k].id, id)
    ensures forall i :: from <= i < k ==> Less(es[i].id, id)
    decreases |es| - from
  {
    if from < |es| && Less(es[from].id, id) then Slot(es, id, from + 1) else from
  }

  function Find(es: seq<Entry>, id: string): (k: nat)
    ensures k <= |es|
  {
    var k := Slot(es, id);
    if k < |es| && es[k].id == id then k else |es|
  }

  lemma FindFinds(es: seq<Entry>, id: string)
    requires Ordered(es)
    ensures Find(es, id) < |es| <==> Has(es, id)
    ensures Find(es, id) < |es| ==> es[Find(es, id)].id == id
  {
    if Has(es, id) {
      var i :| 0 <= i < |es| && es[i].id == id;
      var k := Slot(es, id);
      LessIsTotal(id, id);
      LessIsTotal(es[k].id, id);
    }
  }

  function With(es: seq<Entry>, e: Entry): seq<Entry> {
    es[..Slot(es, e.id)] + [e] + es[Slot(es, e.id)..]
  }

  lemma WithKeepsOrder(es: seq<Entry>, e: Entry)
    requires Ordered(es) && !Has(es, e.id)
    ensures Ordered(With(es, e)) && With(es, e)[Slot(es, e.id)] == e
    ensures forall id :: Has(With(es, e), id) <==> Has(es, id) || id == e.id
  {
    var k, es' := Slot(es, e.id), With(es, e);
    forall j | k <= j < |es| ensures Less(e.id, es[j].id) {
      LessIsTotal(e.id, es[k].id);
      if k < j {
        LessIsTransitive(e.id, es[k].id, es[j].id);
      }
    }
    forall i, j | 0 <= i < j < |es'| ensures Less(es'[i].id, es'[j].id) {
      assert es'[i] == (if i < k then es[i] else if i == k then e else es[i - 1]);
      assert es'[j] == (if j < k then es[j] else if j == k then e else es[j - 1]);
    }
    forall id ensures Has(es', id) <==> Has(es, id) || id == e.id {
      if Has(es, id) {
        var i :| 0 <= i < |es| && es[i].id == id;
        assert es'[if i < k then i else i + 1] == es[i];
      }
      assert es'[k] == e;
    }
  }

  lemma TotalWith(es: seq<Entry>, e: Entry, f: Entry -> nat)
    ensures Total(With(es, e), f) == Total(es, f) + f(e)
  {
    var k := Slot(es, e.id);
    TotalAround(es[..k], [e], es[k..], f);
    TotalOfTwo(es[..k], es[k..], f);
    assert es[..k] + es[k..] == es;
    TotalOfOne(e, f);
  }

  lemma WithoutKeepsOrder(es: seq<Entry>, k: nat)
    requires Ordered(es) && k < |es|
    ensures Ordered(Without(es, k)) && !Has(Without(es, k), es[k].id)
    ensures forall id :: Has(Without(es, k), id) <==> Has(es, id) && id != es[k].id
    ensures multiset(es) == multiset(Without(es, k)) + multiset{es[k]}
  {
    var es' := Without(es, k);
    forall i | 0 <= i < |es'| ensures es'[i] == es[if i < k then i else i + 1] && es'[i].id != es[k].id {
      LessIsTotal(es[k].id, es[k].id);
    }
    forall id ensures Has(es', id) <==> Has(es, id) && id != es[k].id {
      if Has(es, id) && id != es[k].id {
        var i :| 0 <= i < |es| && es[i].id == id;
        assert es'[if i < k then i else i - 1] == es[i];
      }
    }
    assert es == es[..k] + [es[k]] + es[k + 1..];
  }

  // ----------------------------------------------------------------- eviction

  function FirstEvictable(es: seq<Entry>, from: nat := 0): (k: nat)
    requires from <= |es|
    ensures from <= k <= |es| && (k < |es| ==> Evictable(es[k]))
    ensures forall i :: from <= i < k ==> !Evictable(es[i])
    decreases |es| - from
  {
    if from < |es| && !Evictable(es[from]) then FirstEvictable(es, from + 1) else from
  }

  /** The scan for the oldest entry: from `it` on, whatever is strictly older than the best. */
  function Oldest(es: seq<Entry>, it: nat, best: nat): (c: nat)
    requires it <= |es| && best < |es|
    ensures c < |es| && (c == best || it <= c) && es[c].modified <= es[best].modified
    ensures forall j :: it <= j < |es| ==> es[c].modified <= es[j].modified
    ensures c != best ==> es[c].modified < es[best].modified
    ensures c != best ==> forall j :: it <= j < c ==> es[c].modified < es[j].modified
    decreases |es| - it
  {
    if it == |es| then best
    else Oldest(es, it + 1, if es[it].modified < es[best].modified then it else best)
  }

  /** How a run of the limit check ends. */
  datatype Verdict =
    | Within
    | AllLocked        // nothing may be evicted
    | OldestInUse      // the scan ran into an older entry that is locked or open
    | NotDeleted       // a file could not be removed
    | PastTheEnd       // the first evictable entry is the last one: the scan leaves the map

  datatype Choice = Stop(verdict: Verdict) | Evict(k: nat)

  /** What one round does: it scans from the first evictable entry on, but takes the one
      behind that as the first candidate, and looks at locks only afterwards. */
  function Choose(es: seq<Entry>): (c: Choice)
    ensures c.Evict? ==> c.k < |es| && Evictable(es[c.k])
  {
    var k := FirstEvictable(es);
    if k == |es| then Stop(AllLocked)
    else if k + 1 == |es| then Stop(PastTheEnd)
    else
      var c := Oldest(es, k, k + 1);
      if Evictable(es[c]) then Evict(c) else Stop(OldestInUse)
  }

  /** The last entry is the only one that may be evicted. */
  predicate OnlyLast(es: seq<Entry>) {
    es != [] && forall i :: 0 <= i < |es| ==> (Evictable(es[i]) <==> i == |es| - 1)
  }

  /** An entry in use is at least as old as every entry that may be evicted. */
  predicate InUseIsOldest(es: seq<Entry>) {
    exists u :: u in es && !Evictable(u) && forall e :: e in es && Evictable(e) ==> u.modified <= e.modified
  }

  lemma {:induction false} ChoiceIsOldest(es: seq<Entry>)
    ensures var c := Choose(es);
      && (c.Evict? ==> forall e :: e in es && Evictable(e) ==> es[c.k].modified <= e.modified)
      && (c == Stop(AllLocked) <==> forall e :: e in es ==> !Evictable(e))
      && (c == Stop(PastTheEnd) <==> OnlyLast(es))
      && (c == Stop(OldestInUse) ==> InUseIsOldest(es) && exists e :: e in es && Evictable(e))
      && (c.Stop? ==> c.verdict.AllLocked? || c.verdict.PastTheEnd? || c.verdict.OldestInUse?)
  {
    var k := FirstEvictable(es);
    if k == |es| {
      forall e | e in es ensures !Evictable(e) {
        var i :| 0 <= i < |es| && es[i] == e;
      }
      assert es != [] ==> !Evictable(es[|es| - 1]);
    } else {
      assert es[k] in es;
      if k + 1 < |es| {
        var c := Oldest(es, k, k + 1);
        assert es[c] in es;
        forall e | e in es && Evictable(e) ensures es[c].modified <= e.modified {
          var i :| 0 <= i < |es| && es[i] == e;
        }
      }
    }
  }

  /** The entry the scan ends at: the candidate behind the first evictable entry if none is
      older, otherwise the first of the oldest. */
  predicate ScanEndsAt(es: seq<Entry>, k: nat, i: nat) {
    && k + 1 < |es| && k <= i < |es| && (forall j :: k <= j < |es| ==> es[i].modified <= es[j].modified)
    && (i == k + 1 || (es[i].modified < es[k + 1].modified && forall j :: k <= j < i ==> es[i].modified < es[j].modified))
  }

  /** A round fails although something may be evicted exactly if the first evictable entry is
      the last one, or the scan ends at an entry in use: it ignores locks. */
  lemma RoundFailsIff(es: seq<Entry>)
    ensures var k := FirstEvictable(es);
      && (Choose(es) == Stop(PastTheEnd) <==> OnlyLast(es))
      && (Choose(es) == Stop(OldestInUse) <==> exists i :: k <= i < |es| && ScanEndsAt(es, k, i) && !Evictable(es[i]))
      && (Choose(es).Evict? <==> exists i :: k <= i < |es| && ScanEndsAt(es, k, i) && Evictable(es[i]))
  {
    hide OnlyLast;
    ChoiceIsOldest(es);
    var k := FirstEvictable(es);
    if k + 1 < |es| {
      var c := Oldest(es, k, k + 1);
      assert ScanEndsAt(es, k, c);
      forall i | k <= i < |es| && ScanEndsAt(es, k, i) ensures i == c {
      }
    }
  }

  datatype Trimmed = Trimmed(entries: seq<Entry>, total: nat, verdict: Verdict)

  /** The files of the streams of an entry that exist but cannot be removed. */
  predicate Stuck(e: Entry, stuck: set<(string, nat)>) {
    exists i: nat :: i < e.streams && (e.id, i) in stuck
  }

  /** What the limit check leaves: rounds of evictions until the total is within the limit. */
  function Trim(es: seq<Entry>, total: nat, max: nat, stuck: set<(string, nat)>): Trimmed
    requires Total(es, SizeOf) <= total
    decreases |es|
  {
    if total <= max then Trimmed(es, total, Within)
    else
      match Choose(es)
      case Stop(verdict) => Trimmed(es, total, verdict)
      case Evict(k) =>
        TotalWithout(es, k, SizeOf);
        if Stuck(es[k], stuck) then Trimmed(Without(es, k), total - es[k].size, NotDeleted)
        else Trim(Without(es, k), total - es[k].size, max, stuck)
  }

  /** The verdict tells the truth about what is left. */
  lemma {:induction false} TrimVerdict(es: seq<Entry>, total: nat, max: nat, stuck: set<(string, nat)>)
    requires Total(es, SizeOf) <= total
    ensures var t := Trim(es, total, max, stuck);
      && (t.verdict == Within ==> t.total <= max)
      && (t.verdict == AllLocked ==> t.total > max && forall e :: e in t.entries ==> !Evictable(e))
      && (t.verdict == PastTheEnd ==> t.total > max && OnlyLast(t.entries))
      && (t.verdict == OldestInUse ==> t.total > max && InUseIsOldest(t.entries))
    decreases |es|
  {
    hide Choose, OnlyLast, InUseIsOldest, Evictable, Total, Stuck;
    if total > max {
      ChoiceIsOldest(es);
      var c := Choose(es);
      if c.Evict? && !Stuck(es[c.k], stuck) {
        TotalWithout(es, c.k, SizeOf);
        TrimVerdict(Without(es, c.k), total - es[c.k].size, max, stuck);
      }
    }
  }

  lemma WithoutMembers(es: seq<Entry>, k: nat)
    requires Ordered(es) && k < |es|
    ensures es[k] in es
    ensures forall e :: e in Without(es, k) <==> e in es && e != es[k]
  {
    WithoutKeepsOrder(es, k);
    if es[k] in Without(es, k) {
      assert Has(Without(es, k), es[k].id);
    }
    forall e | e in es && e != es[k] ensures e in Without(es, k) {
      var i :| 0 <= i < |es| && es[i] == e;
      assert Without(es, k)[if i < k then i else i - 1] == e;
    }
  }

  /** Only evictable entries go, the others stay as they are and in order, and their sizes
      leave the total: what is counted but not in the map stays the same. */
  lemma {:induction false} TrimRemoves(es: seq<Entry>, total: nat, max: nat, stuck: set<(string, nat)>)
    requires Total(es, SizeOf) <= total && Ordered(es)
    ensures var t := Trim(es, total, max, stuck);
      && Ordered(t.entries)
      && (forall e :: e in t.entries ==> e in es)
      && (forall e :: e in es && !Evictable(e) ==> e in t.entries)
      && Total(t.entries, AccessorsOf) == Total(es, AccessorsOf)
      && total - Total(es, SizeOf) == t.total - Total(t.entries, SizeOf)
    decreases |es|
  {
    hide Choose, Ordered, Total, Stuck, Has;
    if total > max && Choose(es).Evict? {
      var k := Choose(es).k;
      TotalWithout(es, k, SizeOf);
      TotalWithout(es, k, AccessorsOf);
      WithoutKeepsOrder(es, k);
      WithoutMembers(es, k);
      if !Stuck(es[k], stuck) {
        TrimRemoves(Without(es, k), total - es[k].size, max, stuck);
      }
    }
  }

  /** Least recently used first: no evictable entry that stays is older than one that went. */
  lemma {:induction false} TrimIsOldestFirst(es: seq<Entry>, total: nat, max: nat, stuck: set<(string, nat)>, gone: Entry, kept: Entry)
    requires Total(es, SizeOf) <= total && Ordered(es)
    requires gone in es && gone !in Trim(es, total, max, stuck).entries
    requires kept in Trim(es, total, max, stuck).entries && Evictable(kept)
    ensures Evictable(gone) && gone.modified <= kept.modified
    decreases |es|
  {
    hide Choose, Ordered, Total, Stuck, Evictable, Has;
    var k := Choose(es).k;
    ChoiceIsOldest(es);
    TotalWithout(es, k, SizeOf);
    WithoutKeepsOrder(es, k);
    WithoutMembers(es, k);
    TrimRemoves(es, total, max, stuck);
    if gone != es[k] {
      TrimIsOldestFirst(Without(es, k), total - es[k].size, max, stuck, gone, kept);
    }
  }

  /** Nothing is evicted without need: before the last entry went, the total was above the limit. */
  lemma {:induction false} TrimIsMinimal(es: seq<Entry>, total: nat, max: nat, stuck: set<(string, nat)>) returns (last: Entry)
    requires Total(es, SizeOf) <= total && Ordered(es)
    requires Trim(es, total, max, stuck).entries != es
    ensures var t := Trim(es, total, max, stuck);
      last in es && last !in t.entries && t.total + last.size > max
    decreases |es|
  {
    hide Choose, Ordered, Total, Stuck, Evictable, Has;
    var k := Choose(es).k;
    TotalWithout(es, k, SizeOf);
    WithoutKeepsOrder(es, k);
    WithoutMembers(es, k);
    last := es[k];
    if !Stuck(es[k], stuck) && Trim(Without(es, k), total - es[k].size, max, stuck).entries != Without(es, k) {
      last := TrimIsMinimal(Without(es, k), total - es[k].size, max, stuck);
    } else if !Stuck(es[k], stuck) {
      TrimStops(Without(es, k), total - es[k].size, max, stuck);
    }
  }

  lemma TrimStops(es: seq<Entry>, total: nat, max: nat, stuck: set<(string, nat)>)
    requires Total(es, SizeOf) <= total && Ordered(es) && Trim(es, total, max, stuck).entries == es
    ensures Trim(es, total, max, stuck).total == total
  {
    hide Choose, Evictable, Stuck, Ordered, Has, Total;
    if total > max && Choose(es).Evict? {
      var k := Choose(es).k;
      TotalWithout(es, k, SizeOf);
      WithoutKeepsOrder(es, k);
      WithoutMembers(es, k);
      TrimRemoves(Without(es, k), total - es[k].size, max, stuck);
    }
  }

  // ------------------------------------------------------- what a run of the check evicts

  /** An entry strictly younger than every other one is never evicted. */
  lemma {:induction false} YoungestStays(es: seq<Entry>, total: nat, max: nat, stuck: set<(string, nat)>, e: Entry)
    requires Total(es, SizeOf) <= total && Ordered(es)
    requires e in es && forall o :: o in es && o != e ==> o.modified < e.modified
    ensures e in Trim(es, total, max, stuck).entries
    decreases |es|
  {
    hide Choose, Ordered, Total, Stuck, Evictable, Has;
    if total > max && Choose(es).Evict? {
      var k := Choose(es).k;
      OthersAreAround(es, e);
      TotalWithout(es, k, SizeOf);
      WithoutKeepsOrder(es, k);
      WithoutMembers(es, k);
      if !Stuck(es[k], stuck) {
        YoungestStays(Without(es, k), total - es[k].size, max, stuck, e);
      }
    }
  }

  /** What a round evicts is not the youngest: the scan sees two entries at least. */
  lemma OthersAreAround(es: seq<Entry>, e: Entry)
    requires Choose(es).Evict? && Ordered(es) && e in es && forall o :: o in es && o != e ==> o.modified < e.modified
    ensures es[Choose(es).k] != e
  {
    var k := FirstEvictable(es);
    var c := Oldest(es, k, k + 1);
    assert es[k] in es && es[k + 1] in es && es[c] in es;
    LessIsTotal(es[k].id, es[k + 1].id);
  }

  /** No two entries are of the same age. */
  predicate Distinct(es: seq<Entry>) {
    forall i, j :: 0 <= i < j < |es| ==> es[i].modified != es[j].modified
  }

  predicate Goes(e: Entry, z: Entry) {
    Evictable(e) && e.modified <= z.modified
  }

  /** The sizes of what may be evicted and is no younger than `z`. */
  function SizeUpTo(es: seq<Entry>, z: Entry): nat {
    if es == [] then 0
    else SizeUpTo(es[..|es| - 1], z) + if Goes(es[|es| - 1], z) then es[|es| - 1].size else 0
  }

  /** Something in use is older than `z` and than an entry in front of it that may be evicted. */
  predicate Blocked(es: seq<Entry>, z: Entry) {
    exists x, u :: x in es && u in es && Evictable(x) && !Evictable(u) && Less(x.id, u.id)
                   && u.modified < x.modified && u.modified < z.modified
  }

  /** Nothing that may be evicted is younger than `z`, and nothing in use stands behind it. */
  predicate AtTheEnd(es: seq<Entry>, z: Entry) {
    && (forall x :: x in es && Evictable(x) && x != z ==> x.modified < z.modified)
    && (forall u :: u in es && !Evictable(u) ==> Less(u.id, z.id))
  }

  /** Evicting everything up to `z`, and no less, brings the total within the limit, and
      nothing stands in the way. All of it can be told before the check is run. */
  predicate Clears(es: seq<Entry>, total: nat, max: nat, stuck: set<(string, nat)>, z: Entry) {
    && z in es && Evictable(z) && !Blocked(es, z) && !AtTheEnd(es, z)
    && (forall e :: e in es && Goes(e, z) ==> !Stuck(e, stuck))
    && total - SizeUpTo(es, z) <= max < total - SizeUpTo(es, z) + z.size
  }

  lemma {:induction false} SizeUpToOfTwo(a: seq<Entry>, b: seq<Entry>, z: Entry)
    ensures SizeUpTo(a + b, z) == SizeUpTo(a, z) + SizeUpTo(b, z)
  {
    if b == [] {
      assert a + b == a;
    } else {
      assert (a + b)[..|a + b| - 1] == a + b[..|b| - 1];
      SizeUpToOfTwo(a, b[..|b| - 1], z);
    }
  }

  lemma SizeUpToWithout(es: seq<Entry>, k: nat, z: Entry)
    requires k < |es|
    ensures SizeUpTo(Without(es, k), z) + (if Goes(es[k], z) then es[k].size else 0) == SizeUpTo(es, z)
  {
    var a, b := es[..k], es[k + 1..];
    assert es == a + [es[k]] + b;
    SizeUpToOfTwo(a + [es[k]], b, z);
    SizeUpToOfTwo(a, [es[k]], z);
    SizeUpToOfTwo(a, b, z);
    assert [es[k]][..0] == [];
  }

  lemma {:induction false} NoneUpTo(es: seq<Entry>, z: Entry)
    requires forall e :: e in es ==> !Goes(e, z)
    ensures SizeUpTo(es, z) == 0
  {
    if es != [] {
      assert es[|es| - 1] in es;
      NoneUpTo(es[..|es| - 1], z);
    }
  }

  lemma WithoutIsDistinct(es: seq<Entry>, k: nat)
    requires Distinct(es) && k < |es|
    ensures Distinct(Without(es, k))
  {
  }

  lemma SameAgeSameEntry(es: seq<Entry>, a: Entry, b: Entry)
    requires Distinct(es) && a in es && b in es && a.modified == b.modified
    ensures a == b
  {
    var i :| 0 <= i < |es| && es[i] == a;
    var j :| 0 <= j < |es| && es[j] == b;
  }

  lemma IdsTellPlaces(es: seq<Entry>, i: nat, j: nat)
    requires Ordered(es) && i < |es| && j < |es| && Less(es[i].id, es[j].id)
    ensures i < j
  {
    LessIsTotal(es[i].id, es[j].id);
  }

  lemma ScanSees(es: seq<Entry>, o: Entry)
    requires Ordered(es) && Choose(es).Evict? && es[Choose(es).k] == o
    requires forall e :: e in es && Evictable(e) ==> o.modified <= e.modified
    ensures !Blocked(es, o)
  {
    hide Ordered, Less;
    var k := FirstEvictable(es);
    var c := Oldest(es, k, k + 1);
    if Blocked(es, o) {
      var x, u :| x in es && u in es && Evictable(x) && !Evictable(u) && Less(x.id, u.id)
                  && u.modified < x.modified && u.modified < o.modified;
      var i :| 0 <= i < |es| && es[i] == x;
      var j :| 0 <= j < |es| && es[j] == u;
      IdsTellPlaces(es, i, j);
    }
  }

  lemma NotAtTheEnd(es: seq<Entry>, o: Entry)
    requires Ordered(es) && Distinct(es) && Choose(es).Evict? && es[Choose(es).k] == o
    requires forall e :: e in es && Evictable(e) ==> o.modified <= e.modified
    ensures !AtTheEnd(es, o)
  {
    hide Distinct, Less;
    var k := FirstEvictable(es);
    assert es[k] in es && es[k + 1] in es;
    if AtTheEnd(es, o) {
      assert es[k] == o;
      LessIsTotal(es[k].id, es[k + 1].id);
    }
  }

  lemma Blockage(es: seq<Entry>, o: Entry)
    requires Ordered(es) && Distinct(es) && Choose(es).Stop? && o in es && Evictable(o)
    requires forall e :: e in es && Evictable(e) ==> o.modified <= e.modified
    ensures Blocked(es, o) || AtTheEnd(es, o)
  {
    hide Less;
    ChoiceIsOldest(es);
    if Choose(es) == Stop(PastTheEnd) {
      forall u | u in es && !Evictable(u) ensures Less(u.id, o.id) {
        var i :| 0 <= i < |es| && es[i] == u;
      }
    } else {
      var k := FirstEvictable(es);
      var c := Oldest(es, k, k + 1);
      assert es[k] in es && es[c] in es;
      AgesDiffer(es, es[c], o);
      AgesDiffer(es, es[c], es[k]);
      assert Less(es[k].id, es[c].id);
    }
  }

  /** The choice of a round, by members: the oldest of what may be evicted, unless something in
      use is older and stands behind something that may be, or all that may be is at the end. */
  lemma ChoiceByMembers(es: seq<Entry>, o: Entry)
    requires Ordered(es) && Distinct(es) && o in es && Evictable(o)
    requires forall e :: e in es && Evictable(e) ==> o.modified <= e.modified
    ensures Choose(es).Evict? <==> !Blocked(es, o) && !AtTheEnd(es, o)
    ensures Choose(es).Evict? ==> es[Choose(es).k] == o
  {
    hide Choose, Blocked, AtTheEnd, Ordered, Distinct;
    ChoiceIsOldest(es);
    if Choose(es).Evict? {
      SameAgeSameEntry(es, es[Choose(es).k], o);
      ScanSees(es, o);
      NotAtTheEnd(es, o);
    } else {
      Blockage(es, o);
    }
  }

  lemma OldestEvictable(es: seq<Entry>, z: Entry) returns (o: Entry)
    requires z in es && Evictable(z)
    ensures o in es && Evictable(o) && forall e :: e in es && Evictable(e) ==> o.modified <= e.modified
  {
    o := z;
    var i := 0;
    while i < |es|
      invariant i <= |es| && o in es && Evictable(o)
      invariant forall j :: 0 <= j < i && Evictable(es[j]) ==> o.modified <= es[j].modified
    {
      if Evictable(es[i]) && es[i].modified < o.modified {
        o := es[i];
      }
      i := i + 1;
    }
    forall e | e in es && Evictable(e) ensures o.modified <= e.modified {
      var j :| 0 <= j < |es| && es[j] == e;
    }
  }

  lemma {:induction false} SizeUpToHas(es: seq<Entry>, z: Entry)
    requires z in es && Evictable(z)
    ensures SizeUpTo(es, z) >= z.size
  {
    var k :| 0 <= k < |es| && es[k] == z;
    SizeUpToWithout(es, k, z);
  }

  /** The first round of a run that clears up to `z`. */
  lemma FirstRound(es: seq<Entry>, z: Entry, o: Entry)
    requires Ordered(es) && Distinct(es) && z in es && Evictable(z) && !Blocked(es, z) && !AtTheEnd(es, z)
    requires o in es && Evictable(o) && forall e :: e in es && Evictable(e) ==> o.modified <= e.modified
    ensures Choose(es).Evict? && es[Choose(es).k] == o
  {
    hide Choose, Ordered, Distinct, Less, Evictable;
    ChoiceByMembers(es, o);
  }

  lemma ClearsTheRest(es: seq<Entry>, total: nat, max: nat, stuck: set<(string, nat)>, z: Entry, k: nat)
    requires Ordered(es) && Clears(es, total, max, stuck, z)
    requires k < |es| && Evictable(es[k]) && es[k] != z && es[k].modified < z.modified && es[k].size <= total
    ensures Clears(Without(es, k), total - es[k].size, max, stuck, z) && total - es[k].size > max
  {
    hide Ordered, Less, Stuck, SizeUpTo, Without;
    WithoutMembers(es, k);
    SizeUpToWithout(es, k, z);
    SizeUpToHas(Without(es, k), z);
  }

  /** Where the closed condition holds, the run evicts exactly what is no younger than `z`. */
  lemma {:induction false} ClearsIsEvicted(es: seq<Entry>, total: nat, max: nat, stuck: set<(string, nat)>, z: Entry)
    requires Total(es, SizeOf) <= total && max < total && Ordered(es) && Distinct(es)
    requires Clears(es, total, max, stuck, z)
    ensures Trim(es, total, max, stuck).verdict == Within
    ensures forall e :: e in Trim(es, total, max, stuck).entries <==> e in es && !Goes(e, z)
    decreases |es|
  {
    hide Choose, Ordered, Distinct, Less, Total, Stuck, Blocked, AtTheEnd, SizeUpTo;
    var o := OldestEvictable(es, z);
    FirstRound(es, z, o);
    var k := Choose(es).k;
    TotalWithout(es, k, SizeOf);
    WithoutKeepsOrder(es, k);
    WithoutMembers(es, k);
    WithoutIsDistinct(es, k);
    if o == z {
      LastRound(es, k, z);
    } else {
      AgesDiffer(es, o, z);
      ClearsTheRest(es, total, max, stuck, z, k);
      ClearsIsEvicted(Without(es, k), total - o.size, max, stuck, z);
    }
  }

  lemma AgesDiffer(es: seq<Entry>, a: Entry, b: Entry)
    requires Distinct(es) && a in es && b in es && a != b
    ensures a.modified != b.modified
  {
    if a.modified == b.modified {
      SameAgeSameEntry(es, a, b);
    }
  }

  /** When the oldest is the last to go, nothing else goes with it. */
  lemma LastRound(es: seq<Entry>, k: nat, z: Entry)
    requires Ordered(es) && Distinct(es) && k < |es| && es[k] == z && Evictable(z)
    requires forall e :: e in es && Evictable(e) ==> z.modified <= e.modified
    ensures SizeUpTo(es, z) == z.size && forall e :: e in es ==> (Goes(e, z) <==> e == z)
  {
    hide Distinct, Ordered, SizeUpTo;
    forall e | e in es ensures Goes(e, z) <==> e == z {
      if e != z {
        AgesDiffer(es, e, z);
      }
    }
    WithoutMembers(es, k);
    SizeUpToWithout(es, k, z);
    NoneUpTo(Without(es, k), z);
  }

  /** A run that ends within the limit has evicted everything up to some entry, and nothing
      stood in its way. */
  lemma {:induction false} WithinIsCleared(es: seq<Entry>, total: nat, max: nat, stuck: set<(string, nat)>) returns (z: Entry)
    requires Total(es, SizeOf) <= total && max < total && Ordered(es) && Distinct(es)
    requires Trim(es, total, max, stuck).verdict == Within
    ensures Clears(es, total, max, stuck, z)
    decreases |es|
  {
    hide Choose, Ordered, Distinct, Less, Total, Stuck, Blocked, AtTheEnd, SizeUpTo;
    ChoiceIsOldest(es);
    var k := Choose(es).k;
    var o := es[k];
    assert o in es;
    ChoiceByMembers(es, o);
    TotalWithout(es, k, SizeOf);
    WithoutKeepsOrder(es, k);
    WithoutMembers(es, k);
    WithoutIsDistinct(es, k);
    var rest, left := Without(es, k), total - o.size;
    if left <= max {
      z := o;
      LastRound(es, k, z);
    } else {
      z := WithinIsCleared(rest, left, max, stuck);
      ClearsBefore(es, k, total, max, stuck, z);
    }
  }

  lemma ClearsBefore(es: seq<Entry>, k: nat, total: nat, max: nat, stuck: set<(string, nat)>, z: Entry)
    requires Ordered(es) && Distinct(es) && k < |es| && Evictable(es[k]) && !Stuck(es[k], stuck) && es[k].size <= total
    requires !Blocked(es, es[k]) && forall e :: e in es && Evictable(e) ==> es[k].modified <= e.modified
    requires Clears(Without(es, k), total - es[k].size, max, stuck, z)
    ensures Clears(es, total, max, stuck, z)
  {
    hide Ordered, Distinct, Less, Stuck, SizeUpTo, Without;
    WithoutMembers(es, k);
    SizeUpToWithout(es, k, z);
    AgesDiffer(es, es[k], z);
  }

  /** For distinct ages: the run succeeds if and only if some entry clears the cache, and an
      entry that may be evicted goes in a run that succeeds if and only if it is no younger. */
  lemma TrimSucceedsIff(es: seq<Entry>, total: nat, max: nat, stuck: set<(string, nat)>, e: Entry)
    requires Total(es, SizeOf) <= total && max < total && Ordered(es) && Distinct(es) && e in es && Evictable(e)
    ensures Trim(es, total, max, stuck).verdict == Within <==> exists z :: Clears(es, total, max, stuck, z)
    ensures Trim(es, total, max, stuck).verdict == Within && e !in Trim(es, total, max, stuck).entries
      <==> exists z :: Clears(es, total, max, stuck, z) && e.modified <= z.modified
  {
    hide Clears, Trim, Ordered, Distinct;
    if Trim(es, total, max, stuck).verdict == Within {
      var z := WithinIsCleared(es, total, max, stuck);
      ClearsIsEvicted(es, total, max, stuck, z);
    }
    if y :| Clears(es, total, max, stuck, y) && e.modified <= y.modified {
      ClearsIsEvicted(es, total, max, stuck, y);
    }
    if y :| Clears(es, total, max, stuck, y) {
      ClearsIsEvicted(es, total, max, stuck, y);
    }
  }

  lemma MemberById(es: seq<Entry>, k: nat, o: Entry)
    requires Ordered(es) && k < |es| && o in es && o.id == es[k].id
    ensures o == es[k]
  {
    var i :| 0 <= i < |es| && es[i] == o;
    SameIdSameEntry(es, i, k);
  }

  lemma HasIsMember(es: seq<Entry>, kept: seq<Entry>, k: nat)
    requires Ordered(es) && k < |es| && forall e :: e in kept ==> e in es
    ensures Has(kept, es[k].id) <==> es[k] in kept
  {
    if Has(kept, es[k].id) {
      var i :| 0 <= i < |kept| && kept[i].id == es[k].id;
      assert kept[i] in kept;
      MemberById(es, k, kept[i]);
    }
    if es[k] in kept {
      var i :| 0 <= i < |kept| && kept[i] == es[k];
    }
  }

  // ------------------------------------------------------------------- what stays locked

  predicate HasLocked(es: seq<Entry>, id: string) {
    exists e :: e in es && e.id == id && e.lock == Locked
  }

  /** What was locked still is, but for one id. */
  ghost predicate StillLocked(before: seq<Entry>, after: seq<Entry>, but: Option<string>) {
    forall id :: HasLocked(before, id) && but != Some(id) ==> HasLocked(after, id)
  }

  lemma LockedIsThere(es: seq<Entry>, id: string)
    requires HasLocked(es, id)
    ensures Has(es, id)
  {
    var e :| e in es && e.id == id && e.lock == Locked;
    var i :| 0 <= i < |es| && es[i] == e;
  }

  lemma UpdateKeepsLocks(es: seq<Entry>, k: nat, e: Entry)
    requires k < |es| && e.id == es[k].id
    ensures StillLocked(es, es[k := e], if e.lock == Locked || es[k].lock != Locked then None else Some(e.id))
    ensures e.lock == Locked ==> HasLocked(es[k := e], e.id)
  {
    var es' := es[k := e];
    assert es'[k] in es';
    forall id | HasLocked(es, id) && (id != e.id || e.lock == Locked) ensures HasLocked(es', id) {
      var x :| x in es && x.id == id && x.lock == Locked;
      var i :| 0 <= i < |es| && es[i] == x;
      assert es'[i] in es';
    }
    if es[k].lock != Locked && e.lock != Locked {
      forall id | HasLocked(es, id) ensures HasLocked(es', id) {
        var x :| x in es && x.id == id && x.lock == Locked;
        var i :| 0 <= i < |es| && es[i] == x;
        assert es'[i] in es';
      }
    }
  }

  lemma WithKeepsLocks(es: seq<Entry>, e: Entry)
    ensures StillLocked(es, With(es, e), None)
  {
    assert es == es[..Slot(es, e.id)] + es[Slot(es, e.id)..];
    forall x | x in es ensures x in With(es, e) {
    }
  }

  lemma WithoutKeepsLocks(es: seq<Entry>, k: nat)
    requires Ordered(es) && k < |es| && Evictable(es[k])
    ensures StillLocked(es, Without(es, k), None)
  {
    WithoutMembers(es, k);
  }

  lemma TrimKeepsLocks(es: seq<Entry>, total: nat, max: nat, stuck: set<(string, nat)>)
    requires Total(es, SizeOf) <= total && Ordered(es)
    ensures StillLocked(es, Trim(es, total, max, stuck).entries, None)
  {
    hide Trim;
    TrimRemoves(es, total, max, stuck);
  }
}
