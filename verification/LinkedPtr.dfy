/** Shared ownership without counting: the pointers that share a target form a ring, and the
    last one to leave it deletes the target. */
module LinkedPtr {

  class Target {
    constructor () { }
  }

  class LinkedPtr {
    var target: Target?
    var prev: LinkedPtr?
    var next: LinkedPtr?

    constructor (target: Target?)
      ensures this.target == target && prev == this && next == this
    {
      this.target := target;
      new;
      prev, next := this, this;
    }

    predicate Unique()
      reads this
    {
      if prev != null then prev == this else true
    }

    /** Joins the ring of `r`, right behind it. */
    method Acquire(r: LinkedPtr)
      requires r != this && r.next != null && r.next != this
      modifies this, r, r.next
      ensures target == old(r.target) && prev == r && next == old(r.next) && r.next == this && old(r.next).prev == this
      ensures r.target == old(r.target) && old(r.next).target == old(r.next.target)
      ensures old(r.next) != r ==> r.prev == old(r.prev) && old(r.next).next == old(r.next.next)
    {
      target := r.target;
      next := r.next;
      next.prev := this;
      prev := r;
      r.next := this;
    }

    /** Leaves the ring. The last one out deletes the target. */
    method Release() returns (deleted: Target?)
      requires !Unique() ==> next != null && next != this
      modifies this, if Unique() then {} else {prev, next}
      ensures target == null && deleted == if old(Unique()) then old(target) else null
      ensures !old(Unique()) ==>
        && prev == null && next == null
        && old(prev).next == old(next) && old(next).prev == old(prev)
        && old(prev).target == old(prev.target) && old(next).target == old(next.target)
        && (old(prev) != old(next) ==> old(prev).prev == old(prev.prev) && old(next).next == old(next.next))
    {
      deleted := null;
      if Unique() {
        deleted := target;
      } else {
        prev.next := next;
        next.prev := prev;
        prev, next := null, null;
      }
      target := null;
    }
  }

  // ---------------------------------------------------------------- rings

  /** What a live pointer holds, and the ring it is in, in order. */
  datatype Place = Place(target: Target?, prev: LinkedPtr, next: LinkedPtr, ring: seq<LinkedPtr>)

  type Layout = map<LinkedPtr, Place>

  ghost predicate InOrder(l: Layout, ring: seq<LinkedPtr>, i: int, j: int)
    requires 0 <= i < |ring| && 0 <= j < |ring| && ring[i] in l && ring[j] in l
  {
    j == (if i + 1 == |ring| then 0 else i + 1) ==> l[ring[i]].next == ring[j] && l[ring[j]].prev == ring[i]
  }

  /** A circle: everyone's next is the one behind, and the last one's is the first. */
  ghost predicate Circle(l: Layout, ring: seq<LinkedPtr>) {
    && (forall i :: 0 <= i < |ring| ==> ring[i] in l)
    && (forall i, j :: 0 <= i < j < |ring| ==> ring[i] != ring[j])
    && (forall i, j :: 0 <= i < |ring| && 0 <= j < |ring| ==> InOrder(l, ring, i, j))
  }

  ghost predicate Together(l: Layout, p: LinkedPtr, q: LinkedPtr)
    requires p in l && q in l
  {
    && (q in l[p].ring ==> l[q].ring == l[p].ring && l[q].target == l[p].target)
    && (l[p].target == l[q].target && l[p].target != null ==> l[p].ring == l[q].ring)
  }

  /** The pointers fall into circles, those in a circle share a target, those in different
      circles share none. */
  ghost predicate Rings(l: Layout) {
    && (forall p :: p in l ==> p in l[p].ring && Circle(l, l[p].ring))
    && (forall p, q {:trigger Together(l, p, q)} :: p in l && q in l ==> Together(l, p, q))
  }

  ghost function IndexOf(ring: seq<LinkedPtr>, p: LinkedPtr): (i: nat)
    requires p in ring
    ensures i < |ring| && ring[i] == p
  {
    var i :| 0 <= i < |ring| && ring[i] == p; i
  }

  ghost function Widened(ring: seq<LinkedPtr>, r: LinkedPtr, p: LinkedPtr): seq<LinkedPtr>
    requires r in ring
  {
    var i := IndexOf(ring, r);
    ring[..i + 1] + [p] + ring[i + 1..]
  }

  ghost function Narrowed(ring: seq<LinkedPtr>, p: LinkedPtr): seq<LinkedPtr>
    requires p in ring
  {
    var i := IndexOf(ring, p);
    ring[..i] + ring[i + 1..]
  }

  ghost function Alone(l: Layout, p: LinkedPtr, target: Target?): Layout {
    l[p := Place(target, p, p, [p])]
  }

  ghost function Join(l: Layout, p: LinkedPtr, r: LinkedPtr): Layout
    requires r in l && r in l[r].ring
  {
    var ring, next := Widened(l[r].ring, r, p), l[r].next;
    (map q | q in l ::
      if q in l[r].ring then l[q].(ring := ring, next := if q == r then p else l[q].next, prev := if q == next then p else l[q].prev)
      else l[q])
    [p := Place(l[r].target, r, next, ring)]
  }

  ghost function Leave(l: Layout, p: LinkedPtr): Layout
    requires p in l && p in l[p].ring
  {
    var ring := Narrowed(l[p].ring, p);
    map q | q in l && q != p ::
      if q in l[p].ring then
        l[q].(ring := ring, next := if q == l[p].prev then l[p].next else l[q].next,
              prev := if q == l[p].next then l[p].prev else l[q].prev)
      else l[q]
  }

  lemma AloneKeepsRings(l: Layout, p: LinkedPtr, target: Target?)
    requires Rings(l) && p !in l && (target == null || forall q :: q in l ==> l[q].target != target)
    ensures Rings(Alone(l, p, target))
  {
    var l' := Alone(l, p, target);
    assert Circle(l', [p]);
    forall q | q in l' ensures q in l'[q].ring && Circle(l', l'[q].ring) {
      if q != p {
        SameRing(l, q);
        OtherCircle(l, l', l[q].ring);
      }
    }
    forall q, u | q in l' && u in l' ensures Together(l', q, u) {
      if q != p && u != p {
        assert Together(l, q, u);
      } else if q != p {
        SameRing(l, q);
      }
    }
  }

  lemma InCircle(l: Layout, ring: seq<LinkedPtr>, q: LinkedPtr)
    requires Circle(l, ring) && q in ring
    ensures q in l
  {
  }

  lemma SameRing(l: Layout, p: LinkedPtr)
    requires Rings(l) && p in l
    ensures p in l[p].ring && Circle(l, l[p].ring)
    ensures forall q :: q in l[p].ring ==> q in l && l[q].ring == l[p].ring && l[q].target == l[p].target
  {
    forall q | q in l[p].ring ensures q in l && l[q].ring == l[p].ring && l[q].target == l[p].target {
      InCircle(l, l[p].ring, q);
      assert Together(l, p, q);
    }
  }

  lemma OtherCircle(l: Layout, l': Layout, ring: seq<LinkedPtr>)
    requires Circle(l, ring) && forall q :: q in ring ==> q in l' && q in l && l'[q].next == l[q].next && l'[q].prev == l[q].prev
    ensures Circle(l', ring)
  {
    forall i, j | 0 <= i < |ring| && 0 <= j < |ring| ensures ring[i] in l' && ring[j] in l' && InOrder(l', ring, i, j) {
      assert InOrder(l, ring, i, j);
    }
  }

  lemma WideInOrder(l: Layout, l': Layout, ring: seq<LinkedPtr>, k: nat, p: LinkedPtr, a: nat, b: nat)
    requires Circle(l, ring) && k < |ring| && p !in ring && p in l' && a <= |ring| && b <= |ring|
    requires l'[p].prev == ring[k] && l'[p].next == l[ring[k]].next
    requires forall q :: q in ring ==>
      && q in l' && l'[q].next == (if q == ring[k] then p else l[q].next)
      && l'[q].prev == (if q == l[ring[k]].next then p else l[q].prev)
    ensures var ring' := ring[..k + 1] + [p] + ring[k + 1..];
      ring'[a] in l' && ring'[b] in l' && InOrder(l', ring', a, b)
  {
    var n, ring' := |ring|, ring[..k + 1] + [p] + ring[k + 1..];
    var k1 := if k + 1 == n then 0 else k + 1;
    var a', b' := if a <= k then a else a - 1, if b <= k then b else b - 1;
    assert ring'[a] == if a == k + 1 then p else ring[a'];
    assert ring'[b] == if b == k + 1 then p else ring[b'];
    assert ring[a'] in ring && ring[b'] in ring;
    assert InOrder(l, ring, k, k1) && InOrder(l, ring, a', b');
  }

  lemma NarrowInOrder(l: Layout, l': Layout, ring: seq<LinkedPtr>, k: nat, a: nat, b: nat)
    requires Circle(l, ring) && k < |ring| && a < |ring| - 1 && b < |ring| - 1
    requires forall q :: q in ring && q != ring[k] ==>
      && q in l' && l'[q].next == (if q == l[ring[k]].prev then l[ring[k]].next else l[q].next)
      && l'[q].prev == (if q == l[ring[k]].next then l[ring[k]].prev else l[q].prev)
    ensures var ring' := ring[..k] + ring[k + 1..];
      ring'[a] in l' && ring'[b] in l' && InOrder(l', ring', a, b)
  {
    var n, ring' := |ring|, ring[..k] + ring[k + 1..];
    var k1, k0 := if k + 1 == n then 0 else k + 1, if k == 0 then n - 1 else k - 1;
    var a', b' := if a < k then a else a + 1, if b < k then b else b + 1;
    assert ring'[a] == ring[a'] && ring'[b] == ring[b'];
    assert ring[a'] in ring && ring[b'] in ring;
    assert InOrder(l, ring, k, k1) && InOrder(l, ring, k0, k) && InOrder(l, ring, a', b');
  }

  lemma JoinCircle(l: Layout, p: LinkedPtr, r: LinkedPtr)
    requires Rings(l) && r in l && r in l[r].ring && p !in l
    ensures Circle(Join(l, p, r), Widened(l[r].ring, r, p))
    ensures forall q :: q in Widened(l[r].ring, r, p) <==> q in l[r].ring || q == p
  {
    hide Rings, Circle, InOrder;
    SameRing(l, r);
    var ring, l' := l[r].ring, Join(l, p, r);
    var k, ring' := IndexOf(ring, r), Widened(ring, r, p);
    assert p !in ring;
    forall a: nat, b: nat | a <= |ring| && b <= |ring| ensures ring'[a] in l' && ring'[b] in l' && InOrder(l', ring', a, b) {
      WideInOrder(l, l', ring, k, p, a, b);
    }
    Distinct(l, ring, ring', k, p);
    CircleIs(l', ring');
  }

  lemma Distinct(l: Layout, ring: seq<LinkedPtr>, ring': seq<LinkedPtr>, k: nat, p: LinkedPtr)
    requires Circle(l, ring) && k < |ring| && p !in ring && ring' == ring[..k + 1] + [p] + ring[k + 1..]
    ensures forall i, j :: 0 <= i < j < |ring'| ==> ring'[i] != ring'[j]
  {
  }

  lemma CircleIs(l: Layout, ring: seq<LinkedPtr>)
    requires forall i, j :: 0 <= i < j < |ring| ==> ring[i] != ring[j]
    requires forall a: nat, b: nat :: a < |ring| && b < |ring| ==> ring[a] in l && ring[b] in l && InOrder(l, ring, a, b)
    ensures Circle(l, ring)
  {
  }

  lemma JoinKeepsRings(l: Layout, p: LinkedPtr, r: LinkedPtr)
    requires Rings(l) && r in l && r in l[r].ring && p !in l
    ensures Rings(Join(l, p, r))
  {
    hide Rings, Circle, Widened;
    var l' := Join(l, p, r);
    SameRing(l, r);
    JoinCircle(l, p, r);
    forall q | q in l' ensures q in l'[q].ring && Circle(l', l'[q].ring) {
      if q in l && q !in l[r].ring {
        SameRing(l, q);
        OtherCircle(l, l', l[q].ring);
      }
    }
    forall q, u | q in l' && u in l' ensures Together(l', q, u) {
      JoinTogether(l, p, r, q, u);
    }
    RingsAre(l');
  }

  lemma JoinTogether(l: Layout, p: LinkedPtr, r: LinkedPtr, q: LinkedPtr, u: LinkedPtr)
    requires Rings(l) && r in l && r in l[r].ring && p !in l && q in Join(l, p, r) && u in Join(l, p, r)
    requires forall v :: v in Widened(l[r].ring, r, p) <==> v in l[r].ring || v == p
    ensures Together(Join(l, p, r), q, u)
  {
    hide Circle, Widened;
    NotInRing(l, p);
    if q in l {
      assert Together(l, q, r) && Together(l, r, q);
      if u in l {
        assert Together(l, q, u) && Together(l, u, r) && Together(l, r, u);
      }
    } else if u in l {
      assert Together(l, r, u) && Together(l, u, r);
    }
  }

  lemma NotInRing(l: Layout, p: LinkedPtr)
    requires Rings(l) && p !in l
    ensures forall q :: q in l ==> p !in l[q].ring
  {
  }

  lemma RingsAre(l: Layout)
    requires forall p :: p in l ==> p in l[p].ring && Circle(l, l[p].ring)
    requires forall p, q {:trigger Together(l, p, q)} :: p in l && q in l ==> Together(l, p, q)
    ensures Rings(l)
  {
  }

  lemma LeaveCircle(l: Layout, p: LinkedPtr)
    requires Rings(l) && p in l && p in l[p].ring
    ensures Circle(Leave(l, p), Narrowed(l[p].ring, p))
    ensures forall q :: q in Narrowed(l[p].ring, p) <==> q in l[p].ring && q != p
  {
    hide Rings, Circle, InOrder;
    SameRing(l, p);
    var ring, l' := l[p].ring, Leave(l, p);
    var k, ring' := IndexOf(ring, p), Narrowed(ring, p);
    forall a: nat, b: nat | a < |ring'| && b < |ring'| ensures ring'[a] in l' && ring'[b] in l' && InOrder(l', ring', a, b) {
      NarrowInOrder(l, l', ring, k, a, b);
    }
    DistinctStill(l, ring, ring', k);
    CircleIs(l', ring');
  }

  lemma DistinctStill(l: Layout, ring: seq<LinkedPtr>, ring': seq<LinkedPtr>, k: nat)
    requires Circle(l, ring) && k < |ring| && ring' == ring[..k] + ring[k + 1..]
    ensures forall i, j :: 0 <= i < j < |ring'| ==> ring'[i] != ring'[j]
    ensures forall q :: q in ring' <==> q in ring && q != ring[k]
  {
    forall q | q in ring && q != ring[k] ensures q in ring' {
      var i :| 0 <= i < |ring| && ring[i] == q;
      assert ring'[if i < k then i else i - 1] == q;
    }
  }

  lemma LeaveKeepsRings(l: Layout, p: LinkedPtr)
    requires Rings(l) && p in l && p in l[p].ring
    ensures Rings(Leave(l, p))
  {
    hide Rings, Circle, Narrowed;
    var l' := Leave(l, p);
    SameRing(l, p);
    LeaveCircle(l, p);
    forall q | q in l' ensures q in l'[q].ring && Circle(l', l'[q].ring) {
      if q !in l[p].ring {
        SameRing(l, q);
        OtherCircle(l, l', l[q].ring);
      }
    }
    forall q, u | q in l' && u in l' ensures Together(l', q, u) {
      LeaveTogether(l, p, q, u);
    }
    RingsAre(l');
  }

  lemma LeaveTogether(l: Layout, p: LinkedPtr, q: LinkedPtr, u: LinkedPtr)
    requires Rings(l) && p in l && p in l[p].ring && q in Leave(l, p) && u in Leave(l, p)
    requires forall v :: v in Narrowed(l[p].ring, p) <==> v in l[p].ring && v != p
    ensures Together(Leave(l, p), q, u)
  {
    hide Circle, Narrowed;
    assert Together(l, p, u) && Together(l, p, q) && Together(l, q, u) && Together(l, q, p);
  }

  // ---------------------------------------------------------------- all pointers of a program

  ghost predicate Carries(l: Layout)
    reads l.Keys
  {
    forall p :: p in l ==> p.target == l[p].target && p.prev == l[p].prev && p.next == l[p].next
  }

  ghost predicate Holds(l: Layout, t: Target) {
    exists p: LinkedPtr :: p in l && l[p].target == t
  }

  /** Every target that was handed over is held by someone or has been deleted once. */
  ghost predicate Settled(l: Layout, managed: set<Target>, deleted: multiset<Target>) {
    && (forall p :: p in l && l[p].target != null ==> l[p].target in managed)
    && (forall t :: t in deleted ==> t in managed)
    && (forall t :: t in managed ==> deleted[t] == if Holds(l, t) then 0 else 1)
  }

  /** A pointer is alone in its ring exactly if nobody else holds its target. */
  lemma AloneIff(l: Layout, p: LinkedPtr)
    requires Rings(l) && Carries(l) && p in l
    ensures p.Unique() <==> l[p].ring == [p]
    ensures p.target != null ==> (p.Unique() <==> forall q :: q in l && q.target == p.target ==> q == p)
    ensures p.next in l && p.prev in l
  {
    SameRing(l, p);
    var ring := l[p].ring;
    var k, n := IndexOf(ring, p), |ring|;
    var k0, k1 := if k == 0 then n - 1 else k - 1, if k + 1 == n then 0 else k + 1;
    assert InOrder(l, ring, k, k1) && InOrder(l, ring, k0, k);
    InCircle(l, ring, ring[k0]);
    InCircle(l, ring, ring[k1]);
    if n == 1 {
      assert ring == [p];
    }
    if p.target != null {
      forall q | q in l && l[q].target == l[p].target ensures q in ring {
        assert Together(l, q, p);
      }
    }
  }

  lemma LinksOfJoin(l: Layout, p: LinkedPtr, r: LinkedPtr, q: LinkedPtr)
    requires Rings(l) && r in l && r in l[r].ring && p !in l && q in Join(l, p, r)
    ensures l[r].next in l
    ensures var i := Join(l, p, r)[q];
      if q == p then i.target == l[r].target && i.prev == r && i.next == l[r].next
      else
        && q in l && i.target == l[q].target
        && i.next == (if q == r then p else l[q].next) && i.prev == (if q == l[r].next then p else l[q].prev)
  {
    NextIsBack(l, r);
    if q in l && q != r && q !in l[r].ring {
      assert l[r].next in l[r].ring;
    }
  }

  /** The neighbours of a pointer are in its ring, point back, and are others unless it is alone. */
  lemma NextIsBack(l: Layout, p: LinkedPtr)
    requires Rings(l) && p in l
    ensures l[p].next in l[p].ring && l[p].prev in l[p].ring && l[p].next in l && l[p].prev in l
    ensures l[l[p].next].prev == p && l[l[p].prev].next == p
    ensures l[p].prev == p <==> l[p].next == p
  {
    SameRing(l, p);
    var ring := l[p].ring;
    var k, n := IndexOf(ring, p), |ring|;
    var k0, k1 := if k == 0 then n - 1 else k - 1, if k + 1 == n then 0 else k + 1;
    assert InOrder(l, ring, k, k1) && InOrder(l, ring, k0, k);
  }

  class Owners {
    ghost var live: Layout
    ghost var managed: set<Target>
    ghost var deleted: multiset<Target>

    ghost predicate Valid()
      reads this, live.Keys
    {
      Rings(live) && Carries(live) && Settled(live, managed, deleted)
    }

    constructor ()
      ensures Valid() && live == map[] && managed == {} && deleted == multiset{}
    {
      live, managed, deleted := map[], {}, multiset{};
    }

    /** Nothing is live any more: every target was deleted exactly once. */
    lemma AllDeletedOnce()
      requires Valid() && live == map[]
      ensures deleted == multiset(managed)
    {
      forall t ensures deleted[t] == multiset(managed)[t] {
        assert t in managed ==> !Holds(live, t);
      }
    }

    /** A pointer that owns a target which nobody owns yet. */
    method Make(target: Target?) returns (p: LinkedPtr)
      requires Valid() && target !in managed
      modifies this
      ensures Valid() && fresh(p) && live == Alone(old(live), p, target)
      ensures managed == old(managed) + (if target == null then {} else {target}) && deleted == old(deleted)
    {
      hide Rings;
      p := new LinkedPtr(target);
      AloneKeepsRings(live, p, target);
      SettledAlone(live, managed, deleted, p, target);
      live := Alone(live, p, target);
      managed := managed + if target == null then {} else {target};
    }

    static lemma SettledAlone(l: Layout, managed: set<Target>, deleted: multiset<Target>, p: LinkedPtr, target: Target?)
      requires Settled(l, managed, deleted) && p !in l && target !in managed
      ensures Settled(Alone(l, p, target), managed + (if target == null then {} else {target}), deleted)
    {
      var l' := Alone(l, p, target);
      forall t | t in managed ensures Holds(l', t) <==> Holds(l, t) {
        if Holds(l, t) {
          var q: LinkedPtr :| q in l && l[q].target == t;
          assert q in l' && l'[q].target == t;
        }
      }
      if target != null {
        assert l'[p].target == target;
        assert deleted[target] == 0;
      }
    }

    method Copy(r: LinkedPtr) returns (p: LinkedPtr)
      requires Valid() && r in live && r in live[r].ring
      modifies this, live.Keys
      ensures Valid() && fresh(p) && live == Join(old(live), p, r)
      ensures managed == old(managed) && deleted == old(deleted)
    {
      p := new LinkedPtr(null);
      Enter(p, r);
    }

    method Enter(p: LinkedPtr, r: LinkedPtr)
      requires Rings(live) && Carries(live) && r in live && r in live[r].ring && p !in live
      requires Settled(live, managed, deleted)
      modifies this`live, p, live.Keys
      ensures Valid() && live == Join(old(live), p, r)
    {
      hide Rings, Join, Settled;
      NextIsBack(live, r);
      JoinKeepsRings(live, p, r);
      JoinKeys(live, p, r);
      SettledJoin(live, managed, deleted, p, r);
      p.Acquire(r);
      ghost var l := live;
      forall q | q in Join(l, p, r)
        ensures q.target == Join(l, p, r)[q].target && q.prev == Join(l, p, r)[q].prev && q.next == Join(l, p, r)[q].next
      {
        LinksOfJoin(l, p, r, q);
      }
      live := Join(l, p, r);
    }

    static lemma JoinKeys(l: Layout, p: LinkedPtr, r: LinkedPtr)
      requires r in l && r in l[r].ring
      ensures Join(l, p, r).Keys == l.Keys + {p}
    {
    }

    static lemma SettledJoin(l: Layout, managed: set<Target>, deleted: multiset<Target>, p: LinkedPtr, r: LinkedPtr)
      requires Settled(l, managed, deleted) && Rings(l) && r in l && r in l[r].ring && p !in l
      ensures Settled(Join(l, p, r), managed, deleted)
    {
      var l' := Join(l, p, r);
      forall q | q in l' ensures l'[q].target == if q == p then l[r].target else l[q].target {
        LinksOfJoin(l, p, r, q);
      }
      forall t | t in managed ensures Holds(l', t) <==> Holds(l, t) {
        if Holds(l, t) {
          var q: LinkedPtr :| q in l && l[q].target == t;
          assert q in l' && l'[q].target == t;
        }
      }
    }

    /** Assigning a pointer to itself changes nothing. Otherwise its old ring loses it, its
        old target is deleted if it was the last to hold it, and it joins the other ring. */
    method Assign(p: LinkedPtr, r: LinkedPtr)
      requires Valid() && p in live && p in live[p].ring && r in live && r in live[r].ring
      modifies this, live.Keys
      ensures Valid() && managed == old(managed)
      ensures p == r ==> live == old(live) && deleted == old(deleted)
      ensures p != r ==>
        && r in Leave(old(live), p) && r in Leave(old(live), p)[r].ring
        && live == Join(Leave(old(live), p), p, r)
        && deleted == old(deleted) + Last(old(live), p)
    {
      hide Rings, Carries, Settled;
      if p != r {
        LeaveKeys(live, p);
        LeaveKeepsRings(live, p);
        Exit(p);
        SameRing(live, r);
        Enter(p, r);
      }
    }

    method Destroy(p: LinkedPtr)
      requires Valid() && p in live && p in live[p].ring
      modifies this, live.Keys
      ensures Valid() && managed == old(managed)
      ensures live == Leave(old(live), p)
      ensures deleted == old(deleted) + Last(old(live), p)
    {
      Exit(p);
    }

    /** What is deleted when a pointer goes: its target, if nobody else holds it. */
    static ghost function Last(l: Layout, p: LinkedPtr): multiset<Target>
      requires p in l
    {
      if l[p].target != null && forall q :: q in l && l[q].target == l[p].target ==> q == p then multiset{l[p].target}
      else multiset{}
    }

    static lemma LeaveKeys(l: Layout, p: LinkedPtr)
      requires p in l && p in l[p].ring
      ensures Leave(l, p).Keys == l.Keys - {p}
    {
    }

    method Exit(p: LinkedPtr)
      requires Valid() && p in live && p in live[p].ring
      modifies this`live, this`deleted, live.Keys
      ensures Valid() && live == Leave(old(live), p)
      ensures deleted == old(deleted) + Last(old(live), p)
    {
      hide Rings, Leave, Settled, Last;
      ghost var l := live;
      AloneIff(l, p);
      NextIsBack(l, p);
      LeaveKeepsRings(l, p);
      LeaveKeys(l, p);
      SettledLeave(l, managed, deleted, p);
      LastIs(l, p);
      ghost var freed := p.Release();
      forall q | q in Leave(l, p)
        ensures q.target == Leave(l, p)[q].target && q.prev == Leave(l, p)[q].prev && q.next == Leave(l, p)[q].next
      {
        LinksOfLeave(l, p, q);
      }
      live := Leave(l, p);
      deleted := deleted + if freed == null then multiset{} else multiset{freed};
    }

    static lemma LastIs(l: Layout, p: LinkedPtr)
      requires Rings(l) && Carries(l) && p in l
      ensures Last(l, p) == if p.Unique() && p.target != null then multiset{p.target} else multiset{}
    {
      AloneIff(l, p);
    }

    static lemma LinksOfLeave(l: Layout, p: LinkedPtr, q: LinkedPtr)
      requires Rings(l) && p in l && p in l[p].ring && q in Leave(l, p)
      ensures q in l && q != p
      ensures var i := Leave(l, p)[q];
        && i.target == l[q].target
        && i.next == (if q == l[p].prev then l[p].next else l[q].next)
        && i.prev == (if q == l[p].next then l[p].prev else l[q].prev)
    {
      NextIsBack(l, p);
    }

    static lemma SettledLeave(l: Layout, managed: set<Target>, deleted: multiset<Target>, p: LinkedPtr)
      requires Settled(l, managed, deleted) && Rings(l) && p in l && p in l[p].ring
      ensures Settled(Leave(l, p), managed, deleted + Last(l, p))
    {
      var l' := Leave(l, p);
      forall q | q in l' ensures q in l && q != p && l'[q].target == l[q].target {
        LinksOfLeave(l, p, q);
      }
      forall t | t in managed
        ensures Holds(l, t) && !Holds(l', t) <==> Last(l, p) == multiset{t}
        ensures Holds(l', t) ==> Holds(l, t)
      {
        if Holds(l, t) {
          var q: LinkedPtr :| q in l && l[q].target == t;
          if q != p {
            assert q in l' && l'[q].target == t;
          }
        }
        if l[p].target == t {
          assert Holds(l, t);
        }
      }
    }
  }
}
