/** A cache of resources on disk: a lock protocol, the accounting of sizes and open streams,
    and the eviction of what was used least recently. Time, file sizes and the results of
    opening and removing files are parameters. */
module DiskCache {
  import opened Wrappers
  import opened DiskEntries
  import opened DiskTies

  /** How many streams of a resource are open. */
  datatype Open = Open(readers: nat, writers: nat)

  const NONE_OPEN := Open(0, 0)

  ghost function OpenOf(open: map<string, Open>, id: string): Open {
    if id in open then open[id] else NONE_OPEN
  }

  /** The lock protocol: who writes holds the lock or is about to give it up, who reads finds
      the resource unlocked. */
  ghost predicate EntryOk(e: Entry, o: Open) {
    && e.accessors == o.readers + o.writers
    && (e.lock == Unlocked ==> o.writers == 0)
    && (e.lock != Unlocked ==> o.readers == 0)
    && (e.lock == Unlocking ==> o.writers > 0)
  }

  ghost predicate Accounted(es: seq<Entry>, open: map<string, Open>) {
    && (forall e :: e in es ==> EntryOk(e, OpenOf(open, e.id)))
    && (forall id :: id in open && open[id] != NONE_OPEN ==> Has(es, id))
  }

  lemma AccountedUpdate(es: seq<Entry>, k: nat, e: Entry, open: map<string, Open>, o: Open)
    requires Accounted(es, open) && Ordered(es) && k < |es| && e.id == es[k].id && EntryOk(e, o)
    ensures Accounted(es[k := e], open[e.id := o]) && Ordered(es[k := e])
    ensures forall id :: Has(es[k := e], id) <==> Has(es, id)
  {
    var es' := es[k := e];
    forall i | 0 <= i < |es'| ensures EntryOk(es'[i], OpenOf(open[e.id := o], es'[i].id)) {
      if i != k && es[i].id == e.id {
        SameIdSameEntry(es, i, k);
      }
    }
    forall id ensures Has(es', id) <==> Has(es, id) {
      if Has(es, id) {
        var i :| 0 <= i < |es| && es[i].id == id;
        assert es'[i].id == id;
      }
      if Has(es', id) {
        var i :| 0 <= i < |es'| && es'[i].id == id;
        assert es[i].id == id;
      }
    }
  }

  lemma AccountedWithout(es: seq<Entry>, k: nat, open: map<string, Open>)
    requires Accounted(es, open) && Ordered(es) && k < |es| && Evictable(es[k])
    ensures Accounted(Without(es, k), open)
  {
    WithoutKeepsOrder(es, k);
    WithoutMembers(es, k);
  }

  lemma AccountedWith(es: seq<Entry>, e: Entry, open: map<string, Open>)
    requires Accounted(es, open) && Ordered(es) && !Has(es, e.id) && EntryOk(e, NONE_OPEN)
    ensures Accounted(With(es, e), open)
  {
    WithKeepsOrder(es, e);
  }

  /** The entries after `id` has been looked up and created if it was not there. */
  function Created(es: seq<Entry>, id: string, now: int): seq<Entry> {
    if Find(es, id) < |es| then es else With(es, Entry(id, Unlocked, 0, 0, 0, now))
  }

  lemma CreatedHas(es: seq<Entry>, id: string, now: int, open: map<string, Open>)
    requires Ordered(es) && Accounted(es, open)
    ensures var es' := Created(es, id, now);
      && Ordered(es') && Accounted(es', open) && Find(es', id) < |es'| && es'[Find(es', id)].id == id
      && Total(es', SizeOf) == Total(es, SizeOf) && Total(es', AccessorsOf) == Total(es, AccessorsOf)
  {
    FindFinds(es, id);
    if !Has(es, id) {
      var e := Entry(id, Unlocked, 0, 0, 0, now);
      assert !(id in open && open[id] != NONE_OPEN);
      WithKeepsOrder(es, e);
      AccountedWith(es, e, open);
      TotalWith(es, e, SizeOf);
      TotalWith(es, e, AccessorsOf);
    }
    FindFinds(Created(es, id, now), id);
  }

  /** The outcome of asking for a lock. `Dangling`: the limit check evicted the very entry
      that is being locked, which is then written to through a stale pointer. */
  datatype LockResult = Granted | Refused | Overfull(verdict: Verdict) | Dangling

  /** The outcome of opening a stream. `Missing`: there is no such entry, and the null pointer
      that stands for it is followed. */
  datatype Opening = Opened | NotOpened | Missing

  /** The outcome of giving a lock up; `Unknown` as `Missing`. */
  datatype UnlockResult = GivenUp(verdict: Verdict) | NotHeld | Unknown

  /** Locking entry `k` goes wrong: room is made by evicting that very entry. This can be told
      beforehand, from the entries in the order in which they go. */
  predicate LockGoesWrong(es: seq<Entry>, total: nat, max: nat, stuck: set<(string, nat)>, k: nat)
    requires k < |es|
  {
    var ds := Ranked(es);
    && total > max && Evictable(es[k])
    && exists i :: 0 <= i < |ds| && Clears(ds, total, max, stuck, ds[i]) && ds[k].modified <= ds[i].modified
  }

  lemma InUseIsSafe(es: seq<Entry>, total: nat, max: nat, stuck: set<(string, nat)>, k: nat)
    requires k < |es| && !Evictable(es[k])
    ensures !LockGoesWrong(es, total, max, stuck, k)
  {
  }

  /** The entry to be locked goes exactly if `LockGoesWrong` says so, and never if all others are
      older. */
  lemma EvictedIff(es: seq<Entry>, total: nat, max: nat, stuck: set<(string, nat)>, k: nat)
    requires Total(es, SizeOf) <= total && Ordered(es) && k < |es|
    ensures var t := Trim(es, total, max, stuck);
      var gone := t.verdict == Within && !Has(t.entries, es[k].id);
      && (gone <==> LockGoesWrong(es, total, max, stuck, k))
      && (gone ==> exists o :: o in es && o.id != es[k].id && o.modified >= es[k].modified)
  {
    hide Ordered, Clears, Total, Choose, Ranked;
    var e, t := es[k], Trim(es, total, max, stuck);
    assert e in es;
    TrimRemoves(es, total, max, stuck);
    HasIsMember(es, t.entries, k);
    if forall o :: o in es && o.id != e.id ==> o.modified < e.modified {
      forall o | o in es && o != e ensures o.modified < e.modified {
        if o.id == e.id {
          MemberById(es, k, o);
        }
      }
      YoungestStays(es, total, max, stuck, e);
    }
    if total > max && Evictable(e) {
      SucceedsIff(es, total, max, stuck, k);
    }
  }

  class DiskCache {
    const max: nat
    var entries: seq<Entry>
    var total: nat
    var accessors: nat
    ghost var open: map<string, Open>
    ghost var purged: nat

    /** The accounts: sizes and open streams add up, but for what `Purge` forgot to subtract. */
    ghost predicate Valid()
      reads this
    {
      && Ordered(entries) && Accounted(entries, open)
      && total == Total(entries, SizeOf) + purged
      && accessors == Total(entries, AccessorsOf)
    }

    /** No resource is ever read and written at the same time. */
    lemma ReadersOrWriters(id: string)
      requires Valid()
      ensures OpenOf(open, id).readers == 0 || OpenOf(open, id).writers == 0
    {
      if id in open && open[id] != NONE_OPEN {
        var i :| 0 <= i < |entries| && entries[i].id == id;
        assert entries[i] in entries;
      }
    }

    /** A cache whose entries were found on disk. */
    constructor (max: nat, found: seq<Entry>)
      requires Ordered(found) && forall e :: e in found ==> Evictable(e)
      ensures Valid() && this.max == max && entries == found && open == map[] && purged == 0
    {
      this.max := max;
      entries, total, accessors, open, purged := found, Total(found, SizeOf), 0, map[], 0;
      new;
      NoAccessors(found);
    }

    /** The cache on a folder: what was found there is trimmed to the limit at once. */
    static method Initialize(max: nat, found: seq<Entry>, stuck: set<(string, nat)>) returns (cache: DiskCache, verdict: Verdict)
      requires Ordered(found) && forall e :: e in found ==> Evictable(e)
      ensures fresh(cache) && cache.Valid() && cache.max == max && cache.open == map[] && cache.purged == 0
      ensures Trim(found, Total(found, SizeOf), max, stuck) == Trimmed(cache.entries, cache.total, verdict)
    {
      hide Ordered, Accounted, Total;
      cache := new DiskCache(max, found);
      verdict := cache.CheckLimit(stuck);
    }

    static lemma {:induction false} NoAccessors(es: seq<Entry>)
      requires forall e :: e in es ==> Evictable(e)
      ensures Total(es, AccessorsOf) == 0
    {
      if es != [] {
        NoAccessors(es[..|es| - 1]);
        assert es[|es| - 1] in es;
      }
    }

    method GetOrCreateEntry(id: string, create: bool, now: int) returns (k: nat)
      requires Valid()
      modifies this`entries
      ensures Valid()
      ensures entries == if create then Created(old(entries), id, now) else old(entries)
      ensures k == Find(entries, id)
      ensures k < |entries| <==> create || Has(old(entries), id)
      ensures k < |entries| ==> entries[k].id == id && Has(entries, id)
      ensures StillLocked(old(entries), entries, None)
    {
      WithKeepsLocks(entries, Entry(id, Unlocked, 0, 0, 0, now));
      CreatedHas(entries, id, now, open);
      FindFinds(entries, id);
      k := Find(entries, id);
      if k < |entries| || !create {
        return;
      }
      entries := With(entries, Entry(id, Unlocked, 0, 0, 0, now));
      k := Find(entries, id);
      FindFinds(entries, id);
    }

    /** Replaces an entry and the count of its open streams. */
    ghost method Book(k: nat, before: seq<Entry>, o: Open)
      requires k < |before| && k < |entries| && Ordered(before) && Accounted(before, open)
      requires entries == before[k := entries[k]] && entries[k].id == before[k].id && EntryOk(entries[k], o)
      modifies this`open
      ensures open == old(open)[entries[k].id := o]
      ensures Ordered(entries) && Accounted(entries, open)
      ensures Total(entries, SizeOf) + before[k].size == Total(before, SizeOf) + entries[k].size
      ensures Total(entries, AccessorsOf) + before[k].accessors == Total(before, AccessorsOf) + entries[k].accessors
      ensures before[k].size <= Total(before, SizeOf) && before[k].accessors <= Total(before, AccessorsOf)
      ensures forall id :: Has(entries, id) <==> Has(before, id)
      ensures entries[k].lock == Locked ==> HasLocked(entries, entries[k].id)
      ensures StillLocked(before, entries, if entries[k].lock == Locked || before[k].lock != Locked then None else Some(entries[k].id))
    {
      UpdateKeepsLocks(before, k, entries[k]);
      AccountedUpdate(before, k, entries[k], open, o);
      TotalOfUpdate(before, k, entries[k], SizeOf);
      TotalOfUpdate(before, k, entries[k], AccessorsOf);
      open := open[entries[k].id := o];
    }

    /** Deletes an entry that is neither locked nor open, with all its files. */
    method DeleteResource(id: string, stuck: set<(string, nat)>) returns (success: bool)
      requires Valid()
      modifies this`entries, this`total
      ensures Valid()
      ensures var k := Find(old(entries), id);
        if k == |old(entries)| then success && entries == old(entries) && total == old(total)
        else if !Evictable(old(entries)[k]) then !success && entries == old(entries) && total == old(total)
        else
          && entries == Without(old(entries), k) && total + old(entries)[k].size == old(total)
          && (success <==> !Stuck(old(entries)[k], stuck))
      ensures !Has(old(entries), id) ==> success
      ensures StillLocked(old(entries), entries, None)
    {
      hide Ordered, Accounted, Total, Has, Find;
      FindFinds(entries, id);
      var k := GetOrCreateEntry(id, false, 0);
      if k == |entries| {
        return true;
      }
      var entry := entries[k];
      if entry.lock != Unlocked || entry.accessors > 0 {
        return false;
      }
      success := true;
      var index := 0;
      while index < entry.streams
        invariant index <= entry.streams
        invariant success <==> forall i: nat :: i < index ==> (entry.id, i) !in stuck
      {
        if (entry.id, index) in stuck {
          success := false;
        }
        index := index + 1;
      }
      TotalWithout(entries, k, SizeOf);
      TotalWithout(entries, k, AccessorsOf);
      WithoutKeepsOrder(entries, k);
      AccountedWithout(entries, k, open);
      WithoutKeepsLocks(entries, k);
      total := total - entry.size;
      entries := Without(entries, k);
    }

    /** Evicts until the total is within the limit. */
    method CheckLimit(stuck: set<(string, nat)>) returns (verdict: Verdict)
      requires Valid()
      modifies this`entries, this`total
      ensures Valid()
      ensures Trim(old(entries), old(total), max, stuck) == Trimmed(entries, total, verdict)
    {
      hide StillLocked, HasLocked, Ordered, Accounted, Total, Stuck, Evictable, Without, Find, Has;
      while total > max
        invariant Valid()
        invariant Trim(old(entries), old(total), max, stuck) == Trim(entries, total, max, stuck)
        decreases |entries|
      {
        var choice := OneRound();
        if choice.Stop? {
          return choice.verdict;
        }
        ghost var es := entries;
        FindOwn(es, choice.k);
        WithoutIsShorter(es, choice.k);
        var deleted := DeleteResource(entries[choice.k].id, stuck);
        if !deleted {
          return NotDeleted;
        }
      }
      return Within;
    }

    static lemma FindOwn(es: seq<Entry>, k: nat)
      requires Ordered(es) && k < |es|
      ensures Find(es, es[k].id) == k
    {
      FindFinds(es, es[k].id);
      SameIdSameEntry(es, k, Find(es, es[k].id));
    }

    static lemma WithoutIsShorter(es: seq<Entry>, k: nat)
      requires k < |es|
      ensures |Without(es, k)| < |es|
    {
    }

    /** One round: the two scans, and a look at what they found. */
    method OneRound() returns (choice: Choice)
      ensures choice == Choose(entries)
    {
      var k := ScanForEvictable();
      if k == |entries| {
        return Stop(AllLocked);
      }
      if k + 1 == |entries| {
        return Stop(PastTheEnd);
      }
      var oldest := ScanForOldest(k, k + 1);
      return if Evictable(entries[oldest]) then Evict(oldest) else Stop(OldestInUse);
    }

    method ScanForEvictable() returns (k: nat)
      ensures k == FirstEvictable(entries)
    {
      hide Evictable;
      k := 0;
      while k < |entries| && !Evictable(entries[k])
        invariant k <= |entries| && FirstEvictable(entries, k) == FirstEvictable(entries)
      {
        k := k + 1;
      }
    }

    method ScanForOldest(from: nat, candidate: nat) returns (oldest: nat)
      requires from <= |entries| && candidate < |entries|
      ensures oldest == Oldest(entries, from, candidate)
    {
      var it := from;
      oldest := candidate;
      while it < |entries|
        invariant from <= it <= |entries| && oldest < |entries|
        invariant Oldest(entries, it, oldest) == Oldest(entries, from, candidate)
      {
        if entries[it].modified < entries[oldest].modified {
          oldest := it;
        }
        it := it + 1;
      }
    }

    /** Locks a resource, which must not be locked or read. If the cache is over its limit,
        something is evicted first. */
    method LockResource(id: string, now: int, stuck: set<(string, nat)>) returns (r: LockResult)
      requires Valid()
      modifies this`entries, this`total, this`open
      ensures Valid()
      ensures forall other :: OpenOf(open, other) == OpenOf(old(open), other)
      ensures var es := Created(old(entries), id, now);
        var k := Find(es, id);
        && k < |es| && es[k].id == id && Total(es, SizeOf) <= old(total)
        && var t := Trim(es, old(total), max, stuck);
        if es[k].lock == Locked || (es[k].lock == Unlocked && es[k].accessors > 0) then
          r == Refused && entries == es && total == old(total)
        else
          && total == t.total
          && if t.verdict != Within then r == Overfull(t.verdict) && entries == t.entries
             else if !Has(t.entries, id) then r == Dangling && entries == t.entries
             else
               && r == Granted && Find(t.entries, id) < |t.entries|
               && entries == t.entries[Find(t.entries, id) := t.entries[Find(t.entries, id)].(lock := Locked)]
      ensures StillLocked(old(entries), entries, None) && (r == Granted ==> HasLocked(entries, id))
      ensures var es := Created(old(entries), id, now);
        var k := Find(es, id);
        && k < |es|
        && (r == Dangling <==> LockGoesWrong(es, old(total), max, stuck, k))
        && (r == Dangling ==> exists o :: o in es && o.id != id && o.modified >= es[k].modified)
    {
      hide Ordered, Accounted, Total, Created, Has, Find, LockGoesWrong, HasLocked;
      CreatedHas(entries, id, now, open);
      var k := GetOrCreateEntry(id, true, now);
      var entry := entries[k];
      ghost var es := entries;
      EvictedIff(es, total, max, stuck, k);
      if entry.lock == Locked || (entry.lock == Unlocked && entry.accessors > 0) {
        InUseIsSafe(es, total, max, stuck, k);
        return Refused;
      }
      if total > max {
        TrimKeepsLocks(entries, total, max, stuck);
        var verdict := CheckLimit(stuck);
        if verdict != Within {
          return Overfull(verdict);
        }
      }
      TrimRemoves(es, old(total), max, stuck);
      k := GetOrCreateEntry(id, false, now);
      if k == |entries| {
        return Dangling;
      }
      SameEntry(es, entries[k], Find(es, id));
      SetLocked(k);
      return Granted;
    }

    static lemma SameEntry(es: seq<Entry>, e: Entry, k: nat)
      requires Ordered(es) && e in es && k < |es| && e.id == es[k].id
      ensures e == es[k]
    {
      var i :| 0 <= i < |es| && es[i] == e;
      SameIdSameEntry(es, i, k);
    }

    static lemma EntryIsOk(es: seq<Entry>, open: map<string, Open>, k: nat)
      requires Accounted(es, open) && k < |es|
      ensures EntryOk(es[k], OpenOf(open, es[k].id))
    {
      assert es[k] in es;
    }

    method SetLocked(k: nat)
      requires Valid() && k < |entries|
      requires entries[k].lock == Unlocking || (entries[k].lock == Unlocked && entries[k].accessors == 0)
      modifies this`entries, this`open
      ensures Valid() && entries == old(entries)[k := old(entries)[k].(lock := Locked)]
      ensures StillLocked(old(entries), entries, None) && HasLocked(entries, entries[k].id)
      ensures forall other :: OpenOf(open, other) == OpenOf(old(open), other)
    {
      hide Ordered, Accounted, Total, Has;
      ghost var before := entries;
      EntryIsOk(entries, open, k);
      entries := entries[k := entries[k].(lock := Locked)];
      Book(k, before, OpenOf(open, entries[k].id));
    }

    /** Opens a stream for writing, if the resource is locked and its file can be created.
        The size of the old file no longer counts. */
    method WriteResource(id: string, index: nat, fileSize: nat, canOpen: bool) returns (r: Opening)
      requires Valid()
      modifies this
      ensures Valid() && purged == old(purged) && StillLocked(old(entries), entries, None)
      ensures r == Missing <==> !Has(old(entries), id)
      ensures r != Opened ==> entries == old(entries) && total == old(total) && accessors == old(accessors) && open == old(open)
      ensures Has(old(entries), id) ==>
        && var k := Find(old(entries), id);
        && k < |old(entries)|
        && var e := old(entries)[k];
        && e.id == id && (r == Opened <==> canOpen && e.lock == Locked)
        && var previous := if fileSize <= e.size then fileSize else e.size;
        (r == Opened ==>
          && entries == old(entries)[k := e.(streams := if index + 1 > e.streams then index + 1 else e.streams,
                                             size := e.size - previous, accessors := e.accessors + 1)]
          && total + previous == old(total) && accessors == old(accessors) + 1
          && open == old(open)[id := Open(0, OpenOf(old(open), id).writers + 1)] && OpenOf(old(open), id).readers == 0)
    {
      hide Ordered, Accounted, Total, Has, Find, HasLocked;
      FindFinds(entries, id);
      var k := GetOrCreateEntry(id, false, 0);
      if k == |entries| {
        return Missing;
      }
      var entry := entries[k];
      EntryIsOk(entries, open, k);
      if entry.lock != Locked {
        return NotOpened;
      }
      var previous := fileSize;
      if previous > entry.size {
        previous := entry.size;
      }
      if !canOpen {
        return NotOpened;
      }
      ghost var before := entries;
      entry := entry.(streams := if entry.streams > index + 1 then entry.streams else index + 1);
      entry := entry.(size := entry.size - previous);
      entry := entry.(accessors := entry.accessors + 1);
      entries := entries[k := entry];
      Book(k, before, Open(0, OpenOf(open, id).writers + 1));
      total := total - previous;
      accessors := accessors + 1;
      return Opened;
    }

    /** Opens a stream for reading, if the resource is unlocked and has that stream. */
    method ReadResource(id: string, index: nat, canOpen: bool) returns (r: Opening)
      requires Valid()
      modifies this
      ensures Valid() && purged == old(purged) && total == old(total) && StillLocked(old(entries), entries, None)
      ensures r == Missing <==> !Has(old(entries), id)
      ensures r != Opened ==> entries == old(entries) && accessors == old(accessors) && open == old(open)
      ensures Has(old(entries), id) ==>
        && var k := Find(old(entries), id);
        && k < |old(entries)|
        && var e := old(entries)[k];
        && e.id == id && (r == Opened <==> canOpen && e.lock == Unlocked && index < e.streams)
        && (r == Opened ==>
              && entries == old(entries)[k := e.(accessors := e.accessors + 1)] && accessors == old(accessors) + 1
              && open == old(open)[id := Open(OpenOf(old(open), id).readers + 1, 0)] && OpenOf(old(open), id).writers == 0)
    {
      hide Ordered, Accounted, Total, Has, Find, HasLocked;
      FindFinds(entries, id);
      var k := GetOrCreateEntry(id, false, 0);
      if k == |entries| {
        return Missing;
      }
      var entry := entries[k];
      EntryIsOk(entries, open, k);
      if entry.lock != Unlocked || index >= entry.streams || !canOpen {
        return NotOpened;
      }
      ghost var before := entries;
      entries := entries[k := entry.(accessors := entry.accessors + 1)];
      Book(k, before, Open(OpenOf(open, id).readers + 1, 0));
      accessors := accessors + 1;
      return Opened;
    }

    /** Gives the lock up, at once if no stream is open. */
    method UnlockResource(id: string, now: int, stuck: set<(string, nat)>) returns (r: UnlockResult)
      requires Valid()
      modifies this`entries, this`total, this`open
      ensures Valid() && StillLocked(old(entries), entries, Some(id))
      ensures forall other :: OpenOf(open, other) == OpenOf(old(open), other)
      ensures r == Unknown <==> !Has(old(entries), id)
      ensures !r.GivenUp? ==> entries == old(entries) && total == old(total)
      ensures r.NotHeld? ==> StillLocked(old(entries), entries, None)
      ensures Has(old(entries), id) ==>
        && var k := Find(old(entries), id);
        && k < |old(entries)|
        && var e := old(entries)[k];
        && e.id == id && (r.GivenUp? <==> e.lock == Locked)
        && (e.lock == Locked ==>
              if e.accessors > 0 then
                r == GivenUp(Within) && entries == old(entries)[k := e.(lock := Unlocking)] && total == old(total)
              else
                var es := old(entries)[k := e.(lock := Unlocked, modified := now)];
                Total(es, SizeOf) <= old(total) && Trim(es, old(total), max, stuck) == Trimmed(entries, total, r.verdict))
    {
      hide Ordered, Accounted, Total, Has, Find, HasLocked;
      FindFinds(entries, id);
      var k := GetOrCreateEntry(id, false, 0);
      if k == |entries| {
        return Unknown;
      }
      var entry := entries[k];
      EntryIsOk(entries, open, k);
      ghost var before := entries;
      if entry.lock != Locked {
        return NotHeld;
      }
      if entry.accessors > 0 {
        entries := entries[k := entry.(lock := Unlocking)];
        Book(k, before, OpenOf(open, id));
        return GivenUp(Within);
      }
      entries := entries[k := entry.(lock := Unlocked, modified := now)];
      Book(k, before, OpenOf(open, id));
      TrimKeepsLocks(entries, total, max, stuck);
      var verdict := CheckLimit(stuck);
      return GivenUp(verdict);
    }

    /** A stream is closed. The entry is there, and its size grows if and only if it was
        written to; the last writer of a resource being unlocked unlocks it. */
    method ReleaseResource(id: string, ghost writing: bool, fileSize: nat, now: int, stuck: set<(string, nat)>)
      returns (verdict: Verdict)
      requires Valid()
      requires if writing then OpenOf(open, id).writers > 0 else OpenOf(open, id).readers > 0
      modifies this
      ensures Valid() && purged == old(purged) && accessors + 1 == old(accessors)
      ensures StillLocked(old(entries), entries, None)
      ensures var o := OpenOf(old(open), id);
        open == old(open)[id := if writing then Open(0, o.writers - 1) else Open(o.readers - 1, 0)]
      ensures var k := Find(old(entries), id);
        && k < |old(entries)|
        && var e := old(entries)[k];
        && e.accessors > 0
        && var closed := e.(accessors := e.accessors - 1, size := e.size + if writing then fileSize else 0);
        if writing && e.lock == Unlocking && closed.accessors == 0 then
          var es := old(entries)[k := closed.(lock := Unlocked, modified := now)];
          Total(es, SizeOf) <= old(total) + fileSize
          && Trim(es, old(total) + fileSize, max, stuck) == Trimmed(entries, total, verdict)
        else entries == old(entries)[k := closed] && total == old(total) + if writing then fileSize else 0
    {
      hide Ordered, Accounted, Total, Has, Find, Trim, HasLocked;
      OpenIsThere(entries, open, id);
      FindFinds(entries, id);
      var k := GetOrCreateEntry(id, false, 0);
      ghost var before := entries;
      var entry := entries[k];
      EntryIsOk(entries, open, k);
      ghost var o := OpenOf(open, id);
      TotalOfUpdate(entries, k, entry, AccessorsOf);
      accessors := accessors - 1;
      entry := entry.(accessors := entry.accessors - 1);
      if entry.lock == Unlocked {
        entries := entries[k := entry];
        Book(k, before, Open(o.readers - 1, 0));
        return Within;
      }
      entry := entry.(size := entry.size + fileSize);
      total := total + fileSize;
      if entry.lock == Unlocking && entry.accessors == 0 {
        entries := entries[k := entry.(lock := Unlocked, modified := now)];
        Book(k, before, Open(0, o.writers - 1));
        TrimKeepsLocks(entries, total, max, stuck);
        verdict := CheckLimit(stuck);
        return;
      }
      entries := entries[k := entry];
      Book(k, before, Open(0, o.writers - 1));
      return Within;
    }

    static lemma OpenIsThere(es: seq<Entry>, open: map<string, Open>, id: string)
      requires Accounted(es, open) && OpenOf(open, id) != NONE_OPEN
      ensures Has(es, id)
    {
    }

    /** Forgets every entry, if no stream is open. The total is kept as it was. */
    method Purge(filesGone: bool) returns (done: bool)
      requires Valid()
      modifies this
      ensures Valid()
      ensures done <==> old(accessors) == 0 && filesGone
      ensures total == old(total) && accessors == old(accessors)
      ensures if done then entries == [] && purged == old(total) else
        entries == old(entries) && purged == old(purged) && open == old(open)
      ensures done ==> open == map[] && forall id :: OpenOf(old(open), id) == NONE_OPEN
    {
      if accessors > 0 || !filesGone {
        return false;
      }
      NothingOpen(entries, open);
      entries := [];
      open, purged := map[], total;
      return true;
    }

    static lemma NothingOpen(es: seq<Entry>, open: map<string, Open>)
      requires Total(es, AccessorsOf) == 0 && Accounted(es, open)
      ensures forall id :: OpenOf(open, id) == NONE_OPEN
    {
      forall e | e in es ensures e.accessors == 0 {
        var i :| 0 <= i < |es| && es[i] == e;
        TotalOfUpdate(es, i, e, AccessorsOf);
      }
    }
  }

  // ------------------------------------------------------------------- whole runs

  /** A stream that is open. */
  datatype Handle = Handle(id: string, writing: bool)

  datatype Operation =
    | Lock(id: string)
    | Write(id: string, index: nat, fileSize: nat, canOpen: bool)
    | Unlock(id: string)
    | Read(id: string, index: nat, canOpen: bool)
    | Release(handle: Handle, fileSize: nat)
    | Delete(id: string)
    | Purge(filesGone: bool)

  datatype Call = Call(op: Operation, now: int, stuck: set<(string, nat)>)

  /** How a call goes astray: through the pointer of an entry that is not there, past the end
      of the map, or through the pointer of an entry that has been evicted. */
  datatype Crash = NoCrash | NullEntry(id: string) | PastMap | StaleEntry

  ghost predicate Held(open: map<string, Open>, handles: multiset<Handle>) {
    forall id :: OpenOf(open, id) == Open(handles[Handle(id, false)], handles[Handle(id, true)])
  }

  ghost predicate AllLocked(es: seq<Entry>, locked: set<string>) {
    forall id :: id in locked ==> HasLocked(es, id)
  }

  /** The ids that have been locked and not been unlocked, after one more call with this
      outcome. Purging takes the entry of a lock away. */
  function Locks(locked: set<string>, op: Operation, ok: bool): set<string> {
    if !ok then locked
    else
      match op
      case Lock(id) => locked + {id}
      case Unlock(id) => locked - {id}
      case Purge(_) => {}
      case _ => locked
  }

  function LocksAfter(calls: seq<Call>, outcomes: seq<bool>): set<string>
    requires |outcomes| <= |calls|
    decreases |outcomes|
  {
    if outcomes == [] then {}
    else
      var n := |outcomes| - 1;
      Locks(LocksAfter(calls, outcomes[..n]), calls[n].op, outcomes[n])
  }

  lemma HeldPlus(open: map<string, Open>, handles: multiset<Handle>, h: Handle)
    requires Held(open, handles)
    requires if h.writing then OpenOf(open, h.id).readers == 0 else OpenOf(open, h.id).writers == 0
    ensures var o := OpenOf(open, h.id);
      Held(open[h.id := if h.writing then Open(0, o.writers + 1) else Open(o.readers + 1, 0)], handles + multiset{h})
  {
  }

  lemma HeldMinus(open: map<string, Open>, handles: multiset<Handle>, h: Handle)
    requires Held(open, handles) && h in handles
    requires OpenOf(open, h.id).readers == 0 || OpenOf(open, h.id).writers == 0
    ensures var o := OpenOf(open, h.id);
      && (if h.writing then o.writers > 0 else o.readers > 0)
      && Held(open[h.id := if h.writing then Open(0, o.writers - 1) else Open(o.readers - 1, 0)], handles - multiset{h})
  {
  }

  lemma HeldSame(open: map<string, Open>, open': map<string, Open>, handles: multiset<Handle>)
    requires Held(open, handles) && forall id :: OpenOf(open', id) == OpenOf(open, id)
    ensures Held(open', handles)
  {
  }

  lemma NoneOpenInEmpty()
    ensures forall id :: OpenOf(map[], id) == NONE_OPEN
  {
  }

  /** A locked id is in the map, so following its entry is safe. */
  lemma LockedIsSafe(es: seq<Entry>, locked: set<string>, id: string)
    requires AllLocked(es, locked) && !Has(es, id)
    ensures id !in locked
  {
    if id in locked {
      LockedIsThere(es, id);
    }
  }

  /** One call. The release of a stream that is not open is the only one nobody can make. */
  method Perform(cache: DiskCache, call: Call, handles: multiset<Handle>, ghost locked: set<string>)
    returns (held: multiset<Handle>, ok: bool, crash: Crash)
    requires cache.Valid() && Held(cache.open, handles) && AllLocked(cache.entries, locked)
    modifies cache
    ensures cache.Valid() && Held(cache.open, held) && AllLocked(cache.entries, Locks(locked, call.op, ok))
    ensures cache.purged >= old(cache.purged)
    ensures call.op.Lock? && ok ==> cache.purged <= cache.max
    ensures crash.NullEntry? ==> crash.id !in locked
  {
    hide Ordered, Accounted, Total, Has, Find, Trim, Stuck, Without, Created, Evictable, Held, OpenOf, HasLocked;
    held, ok, crash := handles, false, NoCrash;
    ghost var open := cache.open;
    match call.op
    case Lock(id) =>
      ok, crash := LockOnce(cache, id, call);
      HeldSame(open, cache.open, handles);
    case Write(id, index, fileSize, canOpen) =>
      var r := cache.WriteResource(id, index, fileSize, canOpen);
      if r == Opened {
        HeldPlus(open, handles, Handle(id, true));
        held, ok := handles + multiset{Handle(id, true)}, true;
      } else if r == Missing {
        LockedIsSafe(cache.entries, locked, id);
        crash := NullEntry(id);
      }
    case Unlock(id) =>
      ok, crash := UnlockOnce(cache, id, call, locked);
      HeldSame(open, cache.open, handles);
    case Read(id, index, canOpen) =>
      var r := cache.ReadResource(id, index, canOpen);
      if r == Opened {
        HeldPlus(open, handles, Handle(id, false));
        held, ok := handles + multiset{Handle(id, false)}, true;
      } else if r == Missing {
        LockedIsSafe(cache.entries, locked, id);
        crash := NullEntry(id);
      }
    case Release(handle, fileSize) =>
      if handle in handles {
        cache.ReadersOrWriters(handle.id);
        HeldMinus(open, handles, handle);
        var verdict := cache.ReleaseResource(handle.id, handle.writing, fileSize, call.now, call.stuck);
        held, ok := handles - multiset{handle}, true;
        crash := if verdict == PastTheEnd then PastMap else NoCrash;
      }
    case Delete(id) =>
      ok := cache.DeleteResource(id, call.stuck);
    case Purge(filesGone) =>
      ok := cache.Purge(filesGone);
      if ok {
        NoneOpenInEmpty();
        HeldSame(open, cache.open, handles);
      }
  }

  method LockOnce(cache: DiskCache, id: string, call: Call) returns (granted: bool, crash: Crash)
    requires cache.Valid()
    modifies cache`entries, cache`total, cache`open
    ensures cache.Valid() && forall other :: OpenOf(cache.open, other) == OpenOf(old(cache.open), other)
    ensures granted ==> cache.purged <= cache.max && HasLocked(cache.entries, id)
    ensures StillLocked(old(cache.entries), cache.entries, None) && !crash.NullEntry?
  {
    hide Ordered, Accounted, Has, Find, Stuck, HasLocked, LockGoesWrong;
    ghost var es, total := Created(cache.entries, id, call.now), cache.total;
    CreatedHas(cache.entries, id, call.now, cache.open);
    TrimVerdict(es, total, cache.max, call.stuck);
    var r := cache.LockResource(id, call.now, call.stuck);
    granted := r == Granted;
    crash := if r == Dangling then StaleEntry else if r == Overfull(PastTheEnd) then PastMap else NoCrash;
  }

  method UnlockOnce(cache: DiskCache, id: string, call: Call, ghost locked: set<string>) returns (unlocked: bool, crash: Crash)
    requires cache.Valid() && AllLocked(cache.entries, locked)
    modifies cache`entries, cache`total, cache`open
    ensures cache.Valid() && forall other :: OpenOf(cache.open, other) == OpenOf(old(cache.open), other)
    ensures AllLocked(cache.entries, if unlocked then locked - {id} else locked)
    ensures crash.NullEntry? ==> crash.id !in locked
  {
    hide Ordered, Accounted, Total, Has, Find, HasLocked, Trim;
    ghost var es := cache.entries;
    var r := cache.UnlockResource(id, call.now, call.stuck);
    if r.Unknown? {
      LockedIsSafe(es, locked, id);
    }
    unlocked := r.GivenUp?;
    crash := if r.Unknown? then NullEntry(id) else if r == GivenUp(PastTheEnd) then PastMap else NoCrash;
  }

  /** Whatever is called in whatever order: the accounts add up, every entry in the map has
      exactly the open streams that were not released, never both kinds; who has been granted
      a lock finds the entry until the lock is given up or the cache is purged, so that only
      others can follow a null pointer; and a cache whose purged total is above the limit
      never grants a lock again. */
  method Run(cache: DiskCache, calls: seq<Call>) returns (held: multiset<Handle>, outcomes: seq<bool>, crash: Crash)
    requires cache.Valid() && Held(cache.open, multiset{})
    modifies cache
    ensures cache.Valid() && Held(cache.open, held)
    ensures forall id :: Handle(id, true) !in held || Handle(id, false) !in held
    ensures cache.total == Total(cache.entries, SizeOf) + cache.purged && cache.purged >= old(cache.purged)
    ensures |outcomes| <= |calls| && (|outcomes| < |calls| ==> crash != NoCrash)
    ensures forall id :: id in LocksAfter(calls, outcomes) ==> HasLocked(cache.entries, id)
    ensures crash.NullEntry? ==> outcomes != [] && crash.id !in LocksAfter(calls, outcomes[..|outcomes| - 1])
    ensures old(cache.purged) > cache.max ==> forall i :: 0 <= i < |outcomes| && calls[i].op.Lock? ==> !outcomes[i]
  {
    hide Ordered, Accounted, Total, Has, HasLocked, Locks;
    held, outcomes, crash := multiset{}, [], NoCrash;
    while |outcomes| < |calls| && crash == NoCrash
      invariant |outcomes| <= |calls| && cache.Valid() && Held(cache.open, held)
      invariant AllLocked(cache.entries, LocksAfter(calls, outcomes))
      invariant cache.purged >= old(cache.purged)
      invariant crash.NullEntry? ==> outcomes != [] && crash.id !in LocksAfter(calls, outcomes[..|outcomes| - 1])
      invariant old(cache.purged) > cache.max ==> forall i :: 0 <= i < |outcomes| && calls[i].op.Lock? ==> !outcomes[i]
      decreases |calls| - |outcomes|
    {
      var ok;
      held, ok, crash := Perform(cache, calls[|outcomes|], held, LocksAfter(calls, outcomes));
      assert (outcomes + [ok])[..|outcomes|] == outcomes;
      outcomes := outcomes + [ok];
    }
    forall id ensures Handle(id, true) !in held || Handle(id, false) !in held {
      cache.ReadersOrWriters(id);
    }
  }

  lemma NewIsGranted(es: seq<Entry>, id: string, now: int, total: nat, max: nat, stuck: set<(string, nat)>)
    requires Ordered(es) && total <= max && !Has(es, id) && Total(Created(es, id, now), SizeOf) <= total
    ensures var es' := Created(es, id, now);
      && Trim(es', total, max, stuck) == Trimmed(es', total, Within) && Has(es', id)
      && Find(es', id) < |es'| && es'[Find(es', id)].lock == Unlocked && es'[Find(es', id)].accessors == 0
  {
    hide Ordered, Total, Less;
    var e := Entry(id, Unlocked, 0, 0, 0, now);
    FindFinds(es, id);
    WithKeepsOrder(es, e);
    DiskCache.FindOwn(With(es, e), Slot(es, id));
  }

  /** A purge does not ask for locks: who holds one and gives it up afterwards follows a null
      pointer. */
  method LockPurgeUnlock(cache: DiskCache, id: string, now: int, stuck: set<(string, nat)>)
    returns (locked: LockResult, purged: bool, write: Opening, unlock: UnlockResult)
    requires cache.Valid() && cache.accessors == 0
    modifies cache
    ensures cache.Valid() && purged && write == Missing && unlock == Unknown
    ensures old(cache.total <= cache.max && !Has(cache.entries, id)) ==> locked == Granted
  {
    hide Ordered, Accounted, Total, HasLocked, LockGoesWrong, Trim, Created, Find;
    CreatedHas(cache.entries, id, now, cache.open);
    if cache.total <= cache.max && !Has(cache.entries, id) {
      NewIsGranted(cache.entries, id, now, cache.total, cache.max, stuck);
    }
    locked := cache.LockResource(id, now, stuck);
    purged := cache.Purge(true);
    write := cache.WriteResource(id, 0, 0, true);
    unlock := cache.UnlockResource(id, now, stuck);
  }

  // ------------------------------------------------------------------- a lock that evicts itself

  /** A resource of three bytes in one stream, as it is after `Store`. */
  function Stored(id: string, accessors: nat, modified: int): Entry {
    Entry(id, Unlocked, accessors, 3, 1, modified)
  }

  function Between(a: seq<Entry>, e: Entry, b: seq<Entry>): seq<Entry> {
    a + [e] + b
  }

  lemma SetBetween(a: seq<Entry>, e: Entry, b: seq<Entry>, e': Entry)
    ensures Between(a, e, b)[|a|] == e && Between(a, e, b)[|a| := e'] == Between(a, e', b)
  {
  }

  /** A new resource is locked, written, unlocked and released at once. */
  method Store(cache: DiskCache, id: string, now: int) returns (verdict: Verdict)
    requires cache.Valid() && cache.max == 5 && cache.total <= 5 && !Has(cache.entries, id)
    modifies cache
    ensures cache.Valid()
    ensures var others, k := old(cache.entries), Slot(old(cache.entries), id);
      var es := Between(others[..k], Stored(id, 0, now), others[k..]);
      Total(es, SizeOf) <= old(cache.total) + 3
      && Trim(es, old(cache.total) + 3, 5, {}) == Trimmed(cache.entries, cache.total, verdict)
    ensures forall other :: other != id ==> OpenOf(cache.open, other) == OpenOf(old(cache.open), other)
  {
    hide Ordered, Accounted, Total, HasLocked, LockGoesWrong, Find, Trim, Between;
    ghost var k, others := Slot(cache.entries, id), cache.entries;
    ghost var a, b, made := others[..k], others[k..], Entry(id, Unlocked, 0, 0, 0, now);
    FindFinds(others, id);
    CreatedHas(others, id, now, cache.open);
    EndsWithin(Created(others, id, now), cache.total, 5);
    CreatedIsBetween(others, id, now);
    SetBetween(a, made, b, made.(lock := Locked));
    DiskCache.FindOwn(Between(a, made, b), k);
    var l := cache.LockResource(id, now, {});
    assert cache.entries == Between(a, made.(lock := Locked), b);
    LockedIsThere(cache.entries, id);
    SetBetween(a, made.(lock := Locked), b, Entry(id, Locked, 1, 0, 1, now));
    DiskCache.FindOwn(cache.entries, k);
    ghost var open1 := cache.open;
    var w := cache.WriteResource(id, 0, 0, true);
    assert forall other :: other != id ==> OpenOf(cache.open, other) == OpenOf(open1, other);
    assert cache.entries == Between(a, Entry(id, Locked, 1, 0, 1, now), b);
    LockedIsThere(cache.entries, id);
    SetBetween(a, Entry(id, Locked, 1, 0, 1, now), b, Entry(id, Unlocking, 1, 0, 1, now));
    DiskCache.FindOwn(cache.entries, k);
    var u := cache.UnlockResource(id, now, {});
    assert cache.entries == Between(a, Entry(id, Unlocking, 1, 0, 1, now), b);
    SetBetween(a, Entry(id, Unlocking, 1, 0, 1, now), b, Stored(id, 0, now));
    DiskCache.FindOwn(cache.entries, k);
    ghost var open2 := cache.open;
    verdict := cache.ReleaseResource(id, true, 3, now, {});
    assert forall other :: other != id ==> OpenOf(cache.open, other) == OpenOf(open2, other);
  }

  lemma CreatedIsBetween(es: seq<Entry>, id: string, now: int)
    requires !Has(es, id)
    ensures Created(es, id, now) == Between(es[..Slot(es, id)], Entry(id, Unlocked, 0, 0, 0, now), es[Slot(es, id)..])
    ensures Created(es, id, now)[Slot(es, id)] == Entry(id, Unlocked, 0, 0, 0, now)
  {
  }

  lemma EndsWithin(es: seq<Entry>, total: nat, max: nat)
    requires Total(es, SizeOf) <= total <= max
    ensures Trim(es, total, max, {}) == Trimmed(es, total, Within)
  {
  }

  /** Locking a resource can evict that very resource, in a cache that was opened empty: a second
      one is stored while the first is being read, which keeps the limit check from making room;
      when the first is closed, it is to be locked again. */
  method LockEvictsItself() returns (r: LockResult)
    ensures r == Dangling
  {
    hide Ordered, Accounted, Total, HasLocked, LockGoesWrong, Find, Trim, Created, Less, Slot, Without;
    NothingFound();
    var cache, verdict := DiskCache.Initialize(5, [], {});
    verdict := Store(cache, "c", 7);
    FirstIsStored();
    assert cache.entries == [Stored("c", 0, 7)];
    DiskCache.FindOwn(cache.entries, 0);
    FindFinds(cache.entries, "c");
    var reading := cache.ReadResource("c", 0, true);
    assert cache.entries == [Stored("c", 1, 7)];
    SecondIsStored();
    verdict := Store(cache, "a", 8);
    assert cache.entries == [Stored("a", 0, 8), Stored("c", 1, 7)];
    DiskCache.FindOwn(cache.entries, 1);
    verdict := cache.ReleaseResource("c", false, 0, 8, {});
    assert cache.entries == [Stored("a", 0, 8), Stored("c", 0, 7)];
    DiskCache.FindOwn(cache.entries, 1);
    FirstGoesWrong();
    assert Created(cache.entries, "c", 9) == cache.entries by {
      CreatedStays(cache.entries, "c", 9);
    }
    r := cache.LockResource("c", 9, {});
  }

  lemma CreatedStays(es: seq<Entry>, id: string, now: int)
    requires Find(es, id) < |es|
    ensures Created(es, id, now) == es
  {
  }

  lemma NothingFound()
    ensures Total([], SizeOf) == 0 && Trim([], 0, 5, {}) == Trimmed([], 0, Within) && Ordered([]) && !Has([], "c")
  {
  }

  lemma FirstIsStored()
    ensures Slot([], "c") == 0 && Between([][..0], Stored("c", 0, 7), [][0..]) == [Stored("c", 0, 7)]
    ensures Total([Stored("c", 0, 7)], SizeOf) == 3
    ensures Trim([Stored("c", 0, 7)], 3, 5, {}) == Trimmed([Stored("c", 0, 7)], 3, Within)
  {
    TotalOfOne(Stored("c", 0, 7), SizeOf);
  }

  lemma SumOfTwo(a: Entry, b: Entry)
    ensures Total([a, b], SizeOf) == a.size + b.size
  {
    TotalOfOne(a, SizeOf);
    assert [a, b][..1] == [a];
  }

  lemma SecondIsStored()
    ensures var es := [Stored("c", 1, 7)];
      && !Has(es, "a") && Slot(es, "a") == 0
      && Between(es[..0], Stored("a", 0, 8), es[0..]) == [Stored("a", 0, 8), Stored("c", 1, 7)]
    ensures var es := [Stored("a", 0, 8), Stored("c", 1, 7)];
      Total(es, SizeOf) == 6 && Trim(es, 6, 5, {}) == Trimmed(es, 6, OldestInUse)
  {
    hide Total;
    var es := [Stored("a", 0, 8), Stored("c", 1, 7)];
    assert !Less("c", "a");
    SumOfTwo(es[0], es[1]);
    InUseStops(es);
    hide Choose;
  }

  lemma InUseStops(es: seq<Entry>)
    requires |es| == 2 && Evictable(es[0]) && !Evictable(es[1]) && es[1].modified < es[0].modified
    ensures Choose(es) == Stop(OldestInUse)
  {
    assert FirstEvictable(es) == 0;
    assert Oldest(es, 2, 1) == 1 && Oldest(es, 1, 1) == 1 && Oldest(es, 0, 1) == 1;
  }

  /** The first resource is the older one, and room has to be made. */
  lemma FirstGoesWrong()
    ensures var es := [Stored("a", 0, 8), Stored("c", 0, 7)];
      LockGoesWrong(es, 6, 5, {}, 1)
  {
    hide Less, Ranked;
    var es := [Stored("a", 0, 8), Stored("c", 0, 7)];
    var ds := Ranked(es);
    RankedAgrees(es);
    assert InTurn(es, ds, 0, 1);
    assert ds[0] in ds && ds[1] in ds;
    assert ds == [ds[0], ds[1]] && ds[..1] == [ds[0]] && ds[..1][..0] == [];
    assert SizeUpTo(ds[..1], ds[1]) == 0;
    assert SizeUpTo(ds, ds[1]) == 3;
    assert Clears(ds, 6, 5, {}, ds[1]);
  }
}
