/** Whole programs over reference-linked pointers, against plain shared ownership: every slot
    of the program holds the number of a target, and a target lives while a slot holds it. */
module OwnerRuns {
  import opened Wrappers
  import opened LinkedPtr

  /** What a slot holds: a null pointer or the target of that number. */
  datatype Slot = Dead | Holding(target: Option<nat>)

  datatype State = State(slots: seq<Slot>, made: nat)

  datatype Op = MakeOp(something: bool) | CopyOp(of: nat) | AssignOp(to: nat, from: nat) | DestroyOp(at: nat)

  predicate Alive(s: State, i: nat) {
    i < |s.slots| && s.slots[i].Holding?
  }

  /** What one operation does, if there is a pointer to do it with. */
  function Applied(s: State, op: Op): State {
    match op
    case MakeOp(something) =>
      if something then State(s.slots + [Holding(Some(s.made))], s.made + 1) else s.(slots := s.slots + [Holding(None)])
    case CopyOp(r) => if Alive(s, r) then s.(slots := s.slots + [s.slots[r]]) else s
    case AssignOp(p, r) => if Alive(s, p) && Alive(s, r) then s.(slots := s.slots[p := s.slots[r]]) else s
    case DestroyOp(p) => if Alive(s, p) then s.(slots := s.slots[p := Dead]) else s
  }

  function AfterOps(ops: seq<Op>): State {
    if ops == [] then State([], 0) else Applied(AfterOps(ops[..|ops| - 1]), ops[|ops| - 1])
  }

  predicate Held(s: State, k: nat) {
    exists i :: 0 <= i < |s.slots| && s.slots[i] == Holding(Some(k))
  }

  ghost predicate SlotShows(l: Layout, p: LinkedPtr?, targets: seq<Target>, slot: Slot) {
    match slot
    case Dead => p == null
    case Holding(None) => p != null && p in l && l[p].target == null
    case Holding(Some(k)) => p != null && p in l && k < |targets| && l[p].target == targets[k]
  }

  /** The pointers are those of the slots and no others, and the targets are told apart. */
  ghost predicate Shows(l: Layout, managed: set<Target>, ptrs: seq<LinkedPtr?>, targets: seq<Target>, s: State) {
    && |ptrs| == |s.slots| && |targets| == s.made
    && (forall i :: 0 <= i < |ptrs| ==> SlotShows(l, ptrs[i], targets, s.slots[i]))
    && (forall p :: p in l ==> p in ptrs)
    && (forall i, j :: 0 <= i < j < |ptrs| && ptrs[i] != null ==> ptrs[i] != ptrs[j])
    && (forall t :: t in managed ==> t in targets) && (forall i :: 0 <= i < |targets| ==> targets[i] in managed)
    && (forall i, j :: 0 <= i < j < |targets| ==> targets[i] != targets[j])
  }

  /** The layout has changed at one pointer only. */
  ghost predicate OnlyAt(l: Layout, l': Layout, p: LinkedPtr) {
    && (forall q :: q in l && q != p ==> q in l' && l'[q].target == l[q].target)
    && (forall q :: q in l' && q != p ==> q in l)
  }

  /** A slot without a pointer gets one. */
  lemma ShowsEntry(l: Layout, l': Layout, managed: set<Target>, ptrs: seq<LinkedPtr?>, targets: seq<Target>, s: State,
                   i: nat, p: LinkedPtr, slot: Slot)
    requires Shows(l, managed, ptrs, targets, s) && i < |ptrs| && ptrs[i] == null && p !in l
    requires OnlyAt(l, l', p) && p in l' && SlotShows(l', p, targets, slot)
    ensures Shows(l', managed, ptrs[i := p], targets, s.(slots := s.slots[i := slot]))
  {
    var ptrs', slots' := ptrs[i := p], s.slots[i := slot];
    assert ptrs'[i] == p;
    forall j | 0 <= j < |ptrs'| ensures SlotShows(l', ptrs'[j], targets, slots'[j]) {
      assert SlotShows(l, ptrs[j], targets, s.slots[j]);
    }
    forall q | q in l' ensures q in ptrs' {
      if q != p {
        var j :| 0 <= j < |ptrs| && ptrs[j] == q;
        assert ptrs'[j] == q;
      }
    }
    forall j, k | 0 <= j < k < |ptrs'| && ptrs'[j] != null ensures ptrs'[j] != ptrs'[k] {
      assert SlotShows(l, ptrs[j], targets, s.slots[j]) && SlotShows(l, ptrs[k], targets, s.slots[k]);
    }
  }

  /** A pointer goes. */
  lemma ShowsExit(l: Layout, l': Layout, managed: set<Target>, ptrs: seq<LinkedPtr?>, targets: seq<Target>, s: State,
                  i: nat, p: LinkedPtr)
    requires Shows(l, managed, ptrs, targets, s) && i < |ptrs| && ptrs[i] == p
    requires OnlyAt(l, l', p) && p !in l'
    ensures Shows(l', managed, ptrs[i := null], targets, s.(slots := s.slots[i := Dead]))
  {
    var ptrs', slots' := ptrs[i := null], s.slots[i := Dead];
    forall j | 0 <= j < |ptrs'| ensures SlotShows(l', ptrs'[j], targets, slots'[j]) {
      assert SlotShows(l, ptrs[j], targets, s.slots[j]);
      assert j != i && ptrs[j] != null ==> ptrs[j] != p;
    }
    forall q | q in l' ensures q in ptrs' {
      var j :| 0 <= j < |ptrs| && ptrs[j] == q;
      assert ptrs'[j] == q;
    }
  }

  lemma ShowsSlot(l: Layout, managed: set<Target>, ptrs: seq<LinkedPtr?>, targets: seq<Target>, s: State)
    requires Shows(l, managed, ptrs, targets, s)
    ensures Shows(l, managed, ptrs + [null], targets, s.(slots := s.slots + [Dead]))
  {
    var ptrs', slots' := ptrs + [null], s.slots + [Dead];
    forall j | 0 <= j < |ptrs'| ensures SlotShows(l, ptrs'[j], targets, slots'[j]) {
      assert j < |ptrs| ==> SlotShows(l, ptrs[j], targets, s.slots[j]);
    }
  }

  lemma ShowsTarget(l: Layout, managed: set<Target>, ptrs: seq<LinkedPtr?>, targets: seq<Target>, s: State, t: Target)
    requires Shows(l, managed, ptrs, targets, s) && t !in managed
    ensures Shows(l, managed + {t}, ptrs, targets + [t], s.(made := s.made + 1))
  {
    var targets' := targets + [t];
    forall j | 0 <= j < |ptrs| ensures SlotShows(l, ptrs[j], targets', s.slots[j]) {
      assert SlotShows(l, ptrs[j], targets, s.slots[j]);
    }
    assert targets'[|targets|] == t;
    assert forall u :: u in targets' <==> u in targets || u == t;
    assert t !in targets;
    forall i, j | 0 <= i < j < |targets'| ensures targets'[i] != targets'[j] {
      assert targets[i] in targets;
    }
  }

  lemma AloneIsAt(l: Layout, p: LinkedPtr, t: Target?)
    ensures OnlyAt(l, Alone(l, p, t), p) && p in Alone(l, p, t) && Alone(l, p, t)[p].target == t
  {
  }

  lemma JoinIsAt(l: Layout, p: LinkedPtr, r: LinkedPtr)
    requires r in l && r in l[r].ring
    ensures OnlyAt(l, Join(l, p, r), p) && p in Join(l, p, r) && Join(l, p, r)[p].target == l[r].target
  {
  }

  lemma LeaveIsAt(l: Layout, p: LinkedPtr)
    requires p in l && p in l[p].ring
    ensures OnlyAt(l, Leave(l, p), p) && p !in Leave(l, p)
  {
  }

  /** A target has been deleted, once, exactly if no slot holds it any more. */
  lemma DeletedIff(l: Layout, managed: set<Target>, deleted: multiset<Target>, ptrs: seq<LinkedPtr?>, targets: seq<Target>,
                   s: State, k: nat)
    requires Shows(l, managed, ptrs, targets, s) && Settled(l, managed, deleted) && k < s.made
    ensures deleted[targets[k]] == if Held(s, k) then 0 else 1
  {
    var t := targets[k];
    assert t in targets;
    if Holds(l, t) {
      var p: LinkedPtr :| p in l && l[p].target == t;
      var i :| 0 <= i < |ptrs| && ptrs[i] == p;
      assert SlotShows(l, ptrs[i], targets, s.slots[i]);
      assert s.slots[i] == Holding(Some(k));
    }
    if Held(s, k) {
      var i :| 0 <= i < |s.slots| && s.slots[i] == Holding(Some(k));
      assert SlotShows(l, ptrs[i], targets, s.slots[i]);
      var p: LinkedPtr := ptrs[i];
      assert p in l && l[p].target == t;
      assert Holds(l, t);
    }
  }

  lemma NobodyLives(l: Layout, managed: set<Target>, ptrs: seq<LinkedPtr?>, targets: seq<Target>, s: State)
    requires Shows(l, managed, ptrs, targets, s) && forall i :: 0 <= i < |s.slots| ==> s.slots[i].Dead?
    ensures l == map[]
  {
    forall i | 0 <= i < |ptrs| ensures ptrs[i] == null {
      assert SlotShows(l, ptrs[i], targets, s.slots[i]);
    }
    assert l.Keys == {};
  }

  lemma SlotAt(l: Layout, managed: set<Target>, ptrs: seq<LinkedPtr?>, targets: seq<Target>, s: State, i: nat)
    requires Shows(l, managed, ptrs, targets, s) && i < |ptrs|
    ensures |ptrs| == |s.slots| && SlotShows(l, ptrs[i], targets, s.slots[i])
    ensures ptrs[i] == null <==> s.slots[i].Dead?
  {
  }

  lemma LastEntry<T>(a: seq<T>, x: T, y: T)
    ensures (a + [x])[|a| := y] == a + [y] && (a + [x])[|a|] == x
  {
  }

  /** A pointer to a new target, or to none. */
  method Make(owners: Owners, ptrs: seq<LinkedPtr?>, targets: seq<Target>, ghost s: State, something: bool)
    returns (ptrs': seq<LinkedPtr?>, targets': seq<Target>)
    requires owners.Valid() && Shows(owners.live, owners.managed, ptrs, targets, s)
    modifies owners
    ensures owners.Valid() && Shows(owners.live, owners.managed, ptrs', targets', Applied(s, MakeOp(something)))
    ensures forall p :: p in owners.live ==> p in old(owners.live) || fresh(p)
  {
    hide Rings, Carries, Settled, Alone, Shows, OnlyAt, Owners.Valid;
    ghost var l, managed, t := owners.live, owners.managed, targets;
    var target: Target? := null;
    ghost var slot, s' := Holding(None), s;
    if something {
      target := new Target();
      targets' := targets + [target];
      Unmanaged(l, managed, ptrs, targets, s, target);
      ShowsTarget(l, managed, ptrs, targets, s, target);
      slot, s' := Holding(Some(s.made)), s.(made := s.made + 1);
    } else {
      targets' := targets;
    }
    SameSize(l, managed, ptrs, targets, s);
    var p := owners.Make(target);
    AloneIsAt(l, p, target);
    assert owners.managed == if something then managed + {target} else managed;
    ShowsSlot(l, owners.managed, ptrs, targets', s');
    LastEntry(ptrs, null, p);
    LastEntry(s.slots, Dead, slot);
    ShowsEntry(l, owners.live, owners.managed, ptrs + [null], targets', s'.(slots := s.slots + [Dead]), |ptrs|, p, slot);
    ptrs' := ptrs + [p];
  }

  lemma SameSize(l: Layout, managed: set<Target>, ptrs: seq<LinkedPtr?>, targets: seq<Target>, s: State)
    requires Shows(l, managed, ptrs, targets, s)
    ensures |ptrs| == |s.slots| && |targets| == s.made
  {
  }

  lemma Unmanaged(l: Layout, managed: set<Target>, ptrs: seq<LinkedPtr?>, targets: seq<Target>, s: State, t: Target)
    requires Shows(l, managed, ptrs, targets, s) && t !in targets
    ensures t !in managed
  {
  }

  method Copy(owners: Owners, ptrs: seq<LinkedPtr?>, targets: seq<Target>, ghost s: State, r: nat) returns (ptrs': seq<LinkedPtr?>)
    requires owners.Valid() && Shows(owners.live, owners.managed, ptrs, targets, s)
    requires Alive(s, r) && r < |ptrs|
    modifies owners, owners.live.Keys
    ensures owners.Valid() && Shows(owners.live, owners.managed, ptrs', targets, Applied(s, CopyOp(r)))
    ensures forall p :: p in owners.live ==> p in old(owners.live) || fresh(p)
  {
    hide Rings, Carries, Settled, Join, Shows, OnlyAt;
    ghost var l, managed := owners.live, owners.managed;
    SlotAt(l, managed, ptrs, targets, s, r);
    SameRing(l, ptrs[r]);
    ShowsSlot(l, managed, ptrs, targets, s);
    var p := owners.Copy(ptrs[r]);
    JoinIsAt(l, p, ptrs[r]);
    LastEntry(ptrs, null, p);
    LastEntry(s.slots, Dead, s.slots[r]);
    ShowsEntry(l, owners.live, managed, ptrs + [null], targets, s.(slots := s.slots + [Dead]), |ptrs|, p, s.slots[r]);
    ptrs' := ptrs + [p];
  }

  method Assign(owners: Owners, ptrs: seq<LinkedPtr?>, targets: seq<Target>, ghost s: State, p: nat, r: nat)
    requires owners.Valid() && Shows(owners.live, owners.managed, ptrs, targets, s)
    requires Alive(s, p) && Alive(s, r) && p < |ptrs| && r < |ptrs|
    modifies owners, owners.live.Keys
    ensures owners.Valid() && Shows(owners.live, owners.managed, ptrs, targets, Applied(s, AssignOp(p, r)))
    ensures forall q :: q in owners.live ==> q in old(owners.live) || fresh(q)
  {
    hide Rings, Carries, Settled, Join, Leave, Shows, OnlyAt;
    ghost var l, managed := owners.live, owners.managed;
    SlotAt(l, managed, ptrs, targets, s, p);
    SlotAt(l, managed, ptrs, targets, s, r);
    SameRing(l, ptrs[p]);
    SameRing(l, ptrs[r]);
    owners.Assign(ptrs[p], ptrs[r]);
    if p == r {
      assert s.slots[p := s.slots[p]] == s.slots;
    } else {
      Apart(l, managed, ptrs, targets, s, p, r);
      ghost var left := Leave(l, ptrs[p]);
      LeaveIsAt(l, ptrs[p]);
      ShowsExit(l, left, managed, ptrs, targets, s, p, ptrs[p]);
      ghost var ptrs1, s1 := ptrs[p := null], s.(slots := s.slots[p := Dead]);
      SlotAt(left, managed, ptrs1, targets, s1, r);
      JoinIsAt(left, ptrs[p], ptrs[r]);
      ShowsEntry(left, owners.live, managed, ptrs1, targets, s1, p, ptrs[p], s.slots[r]);
      assert ptrs1[p := ptrs[p]] == ptrs && s1.slots[p := s.slots[r]] == s.slots[p := s.slots[r]];
    }
  }

  lemma Apart(l: Layout, managed: set<Target>, ptrs: seq<LinkedPtr?>, targets: seq<Target>, s: State, i: nat, j: nat)
    requires Shows(l, managed, ptrs, targets, s) && i < |ptrs| && j < |ptrs| && i != j && ptrs[i] != null
    ensures ptrs[i] != ptrs[j]
  {
  }

  method Destroy(owners: Owners, ptrs: seq<LinkedPtr?>, targets: seq<Target>, ghost s: State, p: nat) returns (ptrs': seq<LinkedPtr?>)
    requires owners.Valid() && Shows(owners.live, owners.managed, ptrs, targets, s)
    requires Alive(s, p) && p < |ptrs|
    modifies owners, owners.live.Keys
    ensures owners.Valid() && Shows(owners.live, owners.managed, ptrs', targets, Applied(s, DestroyOp(p)))
    ensures forall q :: q in owners.live ==> q in old(owners.live)
  {
    hide Rings, Carries, Settled, Leave, Shows;
    ghost var l, managed := owners.live, owners.managed;
    SlotAt(l, managed, ptrs, targets, s, p);
    SameRing(l, ptrs[p]);
    owners.Destroy(ptrs[p]);
    LeaveIsAt(l, ptrs[p]);
    ShowsExit(l, owners.live, managed, ptrs, targets, s, p, ptrs[p]);
    ptrs' := ptrs[p := null];
  }

  /** One operation; without the pointers it needs there is nothing to do. */
  method Perform(owners: Owners, ptrs: seq<LinkedPtr?>, targets: seq<Target>, ghost s: State, op: Op)
    returns (ptrs': seq<LinkedPtr?>, targets': seq<Target>)
    requires owners.Valid() && Shows(owners.live, owners.managed, ptrs, targets, s)
    modifies owners, owners.live.Keys
    ensures owners.Valid() && Shows(owners.live, owners.managed, ptrs', targets', Applied(s, op))
    ensures forall p :: p in owners.live ==> p in old(owners.live) || fresh(p)
  {
    hide Shows, Owners.Valid;
    ptrs', targets' := ptrs, targets;
    SameSize(owners.live, owners.managed, ptrs, targets, s);
    forall i: nat | i < |ptrs| ensures Alive(s, i) <==> ptrs[i] != null {
      SlotAt(owners.live, owners.managed, ptrs, targets, s, i);
    }
    match op
    case MakeOp(something) => ptrs', targets' := Make(owners, ptrs, targets, s, something);
    case CopyOp(r) =>
      if r < |ptrs| && ptrs[r] != null {
        ptrs' := Copy(owners, ptrs, targets, s, r);
      }
    case AssignOp(p, r) =>
      if p < |ptrs| && r < |ptrs| && ptrs[p] != null && ptrs[r] != null {
        Assign(owners, ptrs, targets, s, p, r);
      }
    case DestroyOp(p) =>
      if p < |ptrs| && ptrs[p] != null {
        ptrs' := Destroy(owners, ptrs, targets, s, p);
      }
  }

  /** Over every program: each slot holds what plain assignment says, and each target has been
      deleted, exactly once, if and only if no slot holds it; when every slot is dead, all
      have been. */
  method Run(ops: seq<Op>) returns (owners: Owners, ptrs: seq<LinkedPtr?>, targets: seq<Target>)
    ensures owners.Valid() && Shows(owners.live, owners.managed, ptrs, targets, AfterOps(ops))
    ensures forall k :: 0 <= k < |targets| ==> owners.deleted[targets[k]] == if Held(AfterOps(ops), k) then 0 else 1
    ensures (forall i :: 0 <= i < |ptrs| ==> ptrs[i] == null) ==> owners.deleted == multiset(owners.managed)
  {
    hide Rings, Carries, Settled, Applied;
    owners := new Owners();
    ptrs, targets := [], [];
    var n := 0;
    assert ops[..0] == [];
    while n < |ops|
      invariant n <= |ops| && owners.Valid() && fresh(owners) && forall p :: p in owners.live ==> fresh(p)
      invariant Shows(owners.live, owners.managed, ptrs, targets, AfterOps(ops[..n]))
    {
      assert ops[..n + 1][..n] == ops[..n];
      ptrs, targets := Perform(owners, ptrs, targets, AfterOps(ops[..n]), ops[n]);
      n := n + 1;
    }
    assert ops[..n] == ops;
    ghost var s := AfterOps(ops);
    SameSize(owners.live, owners.managed, ptrs, targets, s);
    forall k | 0 <= k < |targets| ensures owners.deleted[targets[k]] == if Held(s, k) then 0 else 1 {
      DeletedIff(owners.live, owners.managed, owners.deleted, ptrs, targets, s, k);
    }
    if forall i :: 0 <= i < |ptrs| ==> ptrs[i] == null {
      forall i | 0 <= i < |s.slots| ensures s.slots[i].Dead? {
        SlotAt(owners.live, owners.managed, ptrs, targets, s, i);
      }
      NobodyLives(owners.live, owners.managed, ptrs, targets, s);
      owners.AllDeletedOnce();
    }
  }
}
