/** Entries of the same age. The scan for the oldest entry tells them apart by where they stand,
    so that eviction is the same as with ages that are all different. */
module DiskTies {
  import opened DiskEntries

  /** As old, or gone by the time that age has its turn. */
  predicate Passes(e: Entry, modified: int) {
    e.modified == modified || (Evictable(e) && e.modified < modified)
  }

  /** `j` stands in the unbroken run of equally old entries behind `i`, once everything older
      that may be evicted is gone. */
  predicate InRun(es: seq<Entry>, i: nat, j: nat) {
    && i < j < |es| && es[j].modified == es[i].modified
    && forall l :: i < l < j ==> Passes(es[l], es[i].modified)
  }

  /** When its age has its turn, the entry is the first that may be evicted: the scan starts
      behind it, so that it lets the run behind it go first. */
  predicate Yields(es: seq<Entry>, i: nat)
    requires i < |es|
  {
    Evictable(es[i]) && forall j :: 0 <= j < i && Evictable(es[j]) ==> es[j].modified <= es[i].modified && !InRun(es, j, i)
  }

  function RunEnd(es: seq<Entry>, i: nat, j: nat): (e: nat)
    requires i <= j < |es|
    ensures i <= e <= j && (e == i || InRun(es, i, e)) && forall l :: e < l <= j ==> !InRun(es, i, l)
  {
    if j == i then i else if InRun(es, i, j) then j else RunEnd(es, i, j - 1)
  }

  /** The place of an entry among those of its age. */
  function Turn(es: seq<Entry>, i: nat): (t: nat)
    requires i < |es|
    ensures 2 * i <= t < 2 * |es|
  {
    if Yields(es, i) then 2 * RunEnd(es, i, |es| - 1) + 1 else 2 * i
  }

  /** The entries with ages that are all different, in the order in which they go. */
  function Ranked(es: seq<Entry>): (ds: seq<Entry>)
    ensures |ds| == |es|
    ensures forall i :: 0 <= i < |es| ==> ds[i] == es[i].(modified := es[i].modified * (2 * |es|) + Turn(es, i))
  {
    seq(|es|, i requires 0 <= i < |es| => es[i].(modified := es[i].modified * (2 * |es|) + Turn(es, i)))
  }

  /** The same entries, but for ages that tell those of one age apart as the scan does. */
  ghost predicate Agree(es: seq<Entry>, ds: seq<Entry>) {
    && |ds| == |es| && (forall i :: 0 <= i < |es| ==> ds[i] == es[i].(modified := ds[i].modified))
    && (forall i, j :: 0 <= i < j < |es| ==> InTurn(es, ds, i, j))
  }

  ghost predicate InTurn(es: seq<Entry>, ds: seq<Entry>, i: nat, j: nat)
    requires i < j < |es| == |ds|
  {
    var later := es[j].modified < es[i].modified || (es[j].modified == es[i].modified && Yields(es, i) && InRun(es, i, j));
    if later then ds[j].modified < ds[i].modified else ds[i].modified < ds[j].modified
  }

  lemma TurnsDiffer(es: seq<Entry>, i: nat, j: nat)
    requires i < j < |es| && es[i].modified == es[j].modified
    ensures if Yields(es, i) && InRun(es, i, j) then Turn(es, j) < Turn(es, i) else Turn(es, i) < Turn(es, j)
  {
    if Yields(es, i) {
      var e := RunEnd(es, i, |es| - 1);
      assert InRun(es, i, j) <==> j <= e;
    }
  }

  lemma AgeFirst(a: int, b: int, n: nat, s: nat, t: nat)
    requires a < b && s < n
    ensures a * n + s < b * n + t
  {
    var k := b - a - 1;
    OneMoreStep(a, k, n);
    assert k * n >= 0;
  }

  lemma OneMoreStep(a: int, k: nat, n: nat)
    ensures (a + 1 + k) * n == a * n + n + k * n
  {
  }

  lemma RankedAgrees(es: seq<Entry>)
    ensures Agree(es, Ranked(es)) && Distinct(Ranked(es))
  {
    hide Ranked, InTurn;
    var ds := Ranked(es);
    forall i, j | 0 <= i < j < |es| ensures InTurn(es, ds, i, j) && ds[i].modified != ds[j].modified {
      RankedInTurn(es, i, j);
    }
  }

  lemma RankedInTurn(es: seq<Entry>, i: nat, j: nat)
    requires i < j < |es|
    ensures InTurn(es, Ranked(es), i, j) && Ranked(es)[i].modified != Ranked(es)[j].modified
  {
    hide Ranked, Turn, Yields, InRun;
    var n := 2 * |es|;
    if es[i].modified < es[j].modified {
      AgeFirst(es[i].modified, es[j].modified, n, Turn(es, i), Turn(es, j));
    } else if es[j].modified < es[i].modified {
      AgeFirst(es[j].modified, es[i].modified, n, Turn(es, j), Turn(es, i));
    } else {
      TurnsDiffer(es, i, j);
    }
  }

  lemma SameFirst(es: seq<Entry>, ds: seq<Entry>)
    requires |ds| == |es| && forall i :: 0 <= i < |es| ==> ds[i] == es[i].(modified := ds[i].modified)
    ensures FirstEvictable(ds) == FirstEvictable(es)
    ensures forall i :: 0 <= i < |es| ==> (Evictable(ds[i]) <==> Evictable(es[i]))
  {
  }

  /** The first entry that may be evicted is the same, and so is what is found from there on. */
  lemma SameChoice(es: seq<Entry>, ds: seq<Entry>)
    requires Agree(es, ds)
    ensures Choose(ds) == Choose(es)
  {
    hide Evictable, InTurn;
    var k := FirstEvictable(es);
    SameFirst(es, ds);
    if k + 1 < |es| {
      var c, d := Oldest(es, k, k + 1), Oldest(ds, k, k + 1);
      if c != d {
        SoonestIsOldest(es, ds, k, c, d);
      }
    }
  }

  lemma SoonestIsOldest(es: seq<Entry>, ds: seq<Entry>, k: nat, c: nat, d: nat)
    requires Agree(es, ds) && k == FirstEvictable(es) && k + 1 < |es| && c == Oldest(es, k, k + 1) && k <= d < |es| && d != c
    ensures ds[c].modified < ds[d].modified
  {
    assert es[c].modified <= es[d].modified;
    assert InTurn(es, ds, if c < d then c else d, if c < d then d else c);
  }

  /** Where an entry stands once the one at `c` is gone. */
  function Moved(i: nat, c: nat): nat
    requires i != c
  {
    if i < c then i else i - 1
  }

  /** An evicted entry that is no younger breaks no run. */
  lemma RunStays(es: seq<Entry>, i: nat, j: nat, c: nat)
    requires i < j < |es| && c < |es| && c != i && c != j && Evictable(es[c]) && es[c].modified <= es[i].modified
    ensures InRun(Without(es, c), Moved(i, c), Moved(j, c)) <==> InRun(es, i, j)
  {
    if InRun(es, i, j) {
      RunGoesOn(es, i, j, c);
    } else if InRun(Without(es, c), Moved(i, c), Moved(j, c)) {
      RunWasOn(es, i, j, c);
    }
  }

  lemma RunGoesOn(es: seq<Entry>, i: nat, j: nat, c: nat)
    requires c < |es| && c != i && c != j && InRun(es, i, j)
    ensures InRun(Without(es, c), Moved(i, c), Moved(j, c))
  {
    hide Evictable;
    var es', i', j' := Without(es, c), Moved(i, c), Moved(j, c);
    forall l | i' < l < j' ensures Passes(es'[l], es'[i'].modified) {
      assert es'[l] == es[if l < c then l else l + 1];
    }
  }

  lemma RunWasOn(es: seq<Entry>, i: nat, j: nat, c: nat)
    requires i < j < |es| && c < |es| && c != i && c != j && Evictable(es[c]) && es[c].modified <= es[i].modified
    requires InRun(Without(es, c), Moved(i, c), Moved(j, c))
    ensures InRun(es, i, j)
  {
    hide Evictable;
    var es' := Without(es, c);
    assert es'[Moved(i, c)] == es[i] && es'[Moved(j, c)] == es[j];
    forall l | i < l < j ensures Passes(es[l], es[i].modified) {
      assert l != c ==> es'[Moved(l, c)] == es[l];
    }
  }

  /** The entry that is evicted is not the one that held back an entry behind it. */
  lemma HoldsNobodyBack(es: seq<Entry>, i: nat)
    requires Choose(es).Evict? && Choose(es).k < i < |es| && InRun(es, Choose(es).k, i)
    ensures exists k :: 0 <= k < Choose(es).k && Evictable(es[k]) && (es[k].modified > es[i].modified || InRun(es, k, i))
  {
    var k, c := FirstEvictable(es), Choose(es).k;
    if es[k].modified == es[c].modified && k != c {
      assert InRun(es, k, i);
    }
  }

  lemma SameYields(es: seq<Entry>, i: nat)
    requires Choose(es).Evict? && i < |es| && i != Choose(es).k && Evictable(es[i])
    ensures var c := Choose(es).k;
      Yields(Without(es, c), Moved(i, c)) <==> Yields(es, i)
  {
    hide Choose, InRun, Evictable;
    var c := Choose(es).k;
    var es', i' := Without(es, c), Moved(i, c);
    ChoiceIsOldest(es);
    forall j | 0 <= j < |es| && Evictable(es[j]) ensures es[c].modified <= es[j].modified {
      assert es[j] in es;
    }
    forall j: nat | j < i && j != c && Evictable(es[j]) ensures InRun(es', Moved(j, c), i') <==> InRun(es, j, i) {
      RunStays(es, j, i, c);
    }
    assert forall j :: 0 <= j < |es| && j != c ==> es'[Moved(j, c)] == es[j];
    if Yields(es, i) {
      forall j | 0 <= j < i' && Evictable(es'[j]) ensures es'[j].modified <= es'[i'].modified && !InRun(es', j, i') {
        var j0 := if j < c then j else j + 1;
        assert Moved(j0, c) == j;
      }
    } else {
      NotYields(es, i);
    }
  }

  lemma NotYields(es: seq<Entry>, i: nat)
    requires Choose(es).Evict? && i < |es| && i != Choose(es).k && Evictable(es[i]) && !Yields(es, i)
    ensures !Yields(Without(es, Choose(es).k), Moved(i, Choose(es).k))
  {
    hide Choose, InRun, Evictable;
    var c := Choose(es).k;
    ChoiceIsOldest(es);
    var es', i' := Without(es, c), Moved(i, c);
    assert es[i] in es;
    var j :| 0 <= j < i && Evictable(es[j]) && !(es[j].modified <= es[i].modified && !InRun(es, j, i));
    var k := j;
    if j == c {
      HoldsNobodyBack(es, i);
      k :| 0 <= k < c && Evictable(es[k]) && (es[k].modified > es[i].modified || InRun(es, k, i));
    }
    assert es[k] in es;
    RunStays(es, k, i, c);
    assert es'[Moved(k, c)] == es[k] && es'[i'] == es[i];
  }

  lemma SameTurn(es: seq<Entry>, i: nat, j: nat)
    requires Choose(es).Evict? && i < j < |es| && i != Choose(es).k && j != Choose(es).k
    ensures var c := Choose(es).k;
      Yields(Without(es, c), Moved(i, c)) && InRun(Without(es, c), Moved(i, c), Moved(j, c)) <==> Yields(es, i) && InRun(es, i, j)
  {
    hide Choose, InRun, Without;
    var c := Choose(es).k;
    WithoutAt(es, i, c);
    if Evictable(es[i]) {
      ChoiceIsOldest(es);
      assert es[i] in es;
      SameYields(es, i);
      RunStays(es, i, j, c);
    }
  }

  lemma WithoutAt(es: seq<Entry>, i: nat, c: nat)
    requires i < |es| && c < |es| && i != c
    ensures |Without(es, c)| == |es| - 1 && Without(es, c)[Moved(i, c)] == es[i]
  {
  }

  /** After an eviction the others keep their turns. */
  lemma StillAgree(es: seq<Entry>, ds: seq<Entry>)
    requires Agree(es, ds) && Choose(es).Evict?
    ensures Agree(Without(es, Choose(es).k), Without(ds, Choose(es).k))
  {
    hide Choose, Evictable, Yields, InRun;
    var c := Choose(es).k;
    var es', ds' := Without(es, c), Without(ds, c);
    forall i: nat, j: nat | i < j < |es'| ensures InTurn(es', ds', i, j) {
      var i0, j0 := if i < c then i else i + 1, if j < c then j else j + 1;
      assert InTurn(es, ds, i0, j0);
      SameTurn(es, i0, j0);
    }
  }

  lemma {:induction false} SameSize(es: seq<Entry>, ds: seq<Entry>)
    requires |ds| == |es| && forall i :: 0 <= i < |es| ==> ds[i].size == es[i].size
    ensures Total(ds, SizeOf) == Total(es, SizeOf)
  {
    if es != [] {
      SameSize(es[..|es| - 1], ds[..|ds| - 1]);
    }
  }

  /** The limit check does with ages that tell ties apart what it does with the ages there are. */
  lemma {:induction false} SameTrim(es: seq<Entry>, ds: seq<Entry>, total: nat, max: nat, stuck: set<(string, nat)>)
    requires Agree(es, ds) && Total(es, SizeOf) <= total
    ensures Total(ds, SizeOf) == Total(es, SizeOf)
    ensures var t, u := Trim(es, total, max, stuck), Trim(ds, total, max, stuck);
      && u.verdict == t.verdict && u.total == t.total && |u.entries| == |t.entries|
      && forall i :: 0 <= i < |t.entries| ==> u.entries[i] == t.entries[i].(modified := u.entries[i].modified)
    decreases |es|
  {
    hide Choose, InTurn, Total;
    SameSize(es, ds);
    SameChoice(es, ds);
    if total > max && Choose(es).Evict? {
      var k := Choose(es).k;
      StillAgree(es, ds);
      TotalWithout(es, k, SizeOf);
      if !Stuck(es[k], stuck) {
        SameTrim(Without(es, k), Without(ds, k), total - es[k].size, max, stuck);
      }
    }
  }

  lemma SameIds(es: seq<Entry>, ds: seq<Entry>, id: string)
    requires |ds| == |es| && forall i :: 0 <= i < |es| ==> ds[i].id == es[i].id
    ensures Has(ds, id) <==> Has(es, id)
  {
    if Has(es, id) {
      var i :| 0 <= i < |es| && es[i].id == id;
      assert ds[i].id == id;
    }
  }

  /** For any ages: the limit check succeeds if and only if some entry clears the cache, and an
      entry that may be evicted goes in a check that succeeds if and only if it goes no later. */
  lemma SucceedsIff(es: seq<Entry>, total: nat, max: nat, stuck: set<(string, nat)>, k: nat)
    requires Total(es, SizeOf) <= total && max < total && Ordered(es) && k < |es| && Evictable(es[k])
    ensures var t, ds := Trim(es, total, max, stuck), Ranked(es);
      && (t.verdict == Within <==> exists i :: 0 <= i < |ds| && Clears(ds, total, max, stuck, ds[i]))
      && (t.verdict == Within && !Has(t.entries, es[k].id)
          <==> exists i :: 0 <= i < |ds| && Clears(ds, total, max, stuck, ds[i]) && ds[k].modified <= ds[i].modified)
  {
    hide Clears, Trim, Distinct, Agree, Total, Has;
    var ds := Ranked(es);
    hide Ranked;
    RankedAgrees(es);
    SameTrim(es, ds, total, max, stuck);
    var t, u := Trim(es, total, max, stuck), Trim(ds, total, max, stuck);
    SameIds(t.entries, u.entries, es[k].id);
    assert ds[k] in ds;
    TrimSucceedsIff(ds, total, max, stuck, ds[k]);
    TrimRemoves(ds, total, max, stuck);
    HasIsMember(ds, u.entries, k);
    forall z | Clears(ds, total, max, stuck, z) ensures exists i :: 0 <= i < |ds| && ds[i] == z {
      ClearsIsMember(ds, total, max, stuck, z);
    }
  }

  lemma ClearsIsMember(es: seq<Entry>, total: nat, max: nat, stuck: set<(string, nat)>, z: Entry)
    requires Clears(es, total, max, stuck, z)
    ensures exists i :: 0 <= i < |es| && es[i] == z
  {
  }
}
