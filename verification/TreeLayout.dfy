/** The shape of a first-child/next-sibling tree: every node owns an interval of the preorder.
    All of it is about values; module Tree ties the pointers in the heap to it. */
module TreeLayout {

  class TreeNode<T> {
    var data: T
    var parent: TreeNode?<T>
    var next: TreeNode?<T>
    var prev: TreeNode?<T>
    var child: TreeNode?<T>
    var count: nat

    constructor (data: T)
      ensures this.data == data && parent == null && next == null && prev == null && child == null && count == 0
    {
      this.data := data;
      parent, next, prev, child, count := null, null, null, null, 0;
    }
  }

  /** Where a node stands in the preorder, how many nodes its subtree has, and its links. */
  datatype Info<T> = Info(at: nat, size: nat, parent: TreeNode?<T>, prev: TreeNode?<T>, next: TreeNode?<T>,
                          child: TreeNode?<T>, count: nat)
  {
    function End(): nat { at + size }
  }

  type Layout<T> = map<TreeNode<T>, Info<T>>

  /** The data of nodes, in order. */
  ghost function DataOf<T>(nodes: seq<TreeNode<T>>): (d: seq<T>)
    reads nodes
    ensures |d| == |nodes| && forall i :: 0 <= i < |nodes| ==> d[i] == nodes[i].data
  {
    seq(|nodes|, i requires 0 <= i < |nodes| reads nodes => nodes[i].data)
  }

  ghost function Kids<T>(l: Layout<T>, n: TreeNode<T>): set<TreeNode<T>> {
    set m | m in l && l[m].parent == n
  }

  ghost predicate ChildOk<T>(l: Layout<T>, n: TreeNode<T>)
    requires n in l
  {
    && (l[n].child == null <==> l[n].size == 1)
    && (l[n].child != null ==> l[n].child in l && l[l[n].child].at == l[n].at + 1 && l[l[n].child].parent == n)
  }

  ghost predicate NextOk<T>(l: Layout<T>, n: TreeNode<T>)
    requires n in l
  {
    l[n].next != null ==>
      && l[n].next in l && l[l[n].next].at == l[n].End() && l[l[n].next].parent == l[n].parent
      && l[l[n].next].prev == n && l[n].parent != null
  }

  ghost predicate PrevOk<T>(l: Layout<T>, n: TreeNode<T>)
    requires n in l
  {
    && (l[n].prev != null ==> l[n].prev in l && l[l[n].prev].next == n && l[l[n].prev].parent == l[n].parent)
    && (l[n].prev == null && l[n].parent != null ==> l[n].parent in l && l[l[n].parent].child == n)
  }

  ghost predicate ParentOk<T>(l: Layout<T>, order: seq<TreeNode<T>>, n: TreeNode<T>)
    requires n in l
  {
    && (l[n].parent == null <==> l[n].at == 0)
    && (l[n].parent == null ==> l[n].next == null && l[n].prev == null && l[n].size == |order|)
    && (l[n].parent != null ==>
          l[n].parent in l && l[l[n].parent].at < l[n].at && l[n].End() <= l[l[n].parent].End())
  }

  ghost predicate LastOk<T>(l: Layout<T>, n: TreeNode<T>)
    requires n in l
  {
    l[n].parent != null && l[n].next == null ==> l[n].parent in l && l[n].End() == l[l[n].parent].End()
  }

  ghost predicate NodeOk<T>(l: Layout<T>, order: seq<TreeNode<T>>, n: TreeNode<T>)
    requires n in l
  {
    && l[n].at < |order| && order[l[n].at] == n && 1 <= l[n].size && l[n].End() <= |order|
    && ChildOk(l, n) && NextOk(l, n) && PrevOk(l, n) && ParentOk(l, order, n) && LastOk(l, n)
    && l[n].count == |Kids(l, n)|
  }

  /** Subtrees are nested or apart, and the parent is the tightest one around. */
  ghost predicate PairOk<T>(l: Layout<T>, a: TreeNode<T>, b: TreeNode<T>)
    requires a in l && b in l
  {
    l[a].at <= l[b].at < l[a].End() ==>
      && l[b].End() <= l[a].End()
      && (a != b ==> l[b].parent != null && l[b].parent in l && l[a].at <= l[l[b].parent].at)
  }

  ghost predicate WellLinked<T>(l: Layout<T>, order: seq<TreeNode<T>>) {
    && (forall k :: 0 <= k < |order| ==> order[k] in l && l[order[k]].at == k)
    && (forall n {:trigger NodeOk(l, order, n)} :: n in l ==> NodeOk(l, order, n))
    && (forall a, b {:trigger PairOk(l, a, b)} :: a in l && b in l ==> PairOk(l, a, b))
  }

  // ------------------------------------------------------------- preorder

  /** The subtree of `n` in preorder, by recursion over first children and siblings. */
  ghost function Preorder<T>(l: Layout<T>, order: seq<TreeNode<T>>, n: TreeNode<T>): seq<TreeNode<T>>
    requires WellLinked(l, order) && n in l
    decreases |order| - l[n].at, 1
  {
    assert NodeOk(l, order, n);
    [n] + Siblings(l, order, l[n].child, l[n].at + 1)
  }

  ghost function Siblings<T>(l: Layout<T>, order: seq<TreeNode<T>>, n: TreeNode?<T>, from: nat): seq<TreeNode<T>>
    requires WellLinked(l, order) && (n != null ==> n in l && l[n].at == from)
    requires from <= |order|
    decreases |order| - from, if n == null then 0 else 2
  {
    if n == null then []
    else
      assert NodeOk(l, order, n);
      Preorder(l, order, n) + Siblings(l, order, l[n].next, l[n].End())
  }

  /** The interval of a node is its subtree in preorder. */
  lemma {:induction false} IntervalIsPreorder<T>(l: Layout<T>, order: seq<TreeNode<T>>, n: TreeNode<T>)
    requires WellLinked(l, order) && n in l && NodeOk(l, order, n)
    ensures Preorder(l, order, n) == order[l[n].at..l[n].End()]
    decreases |order| - l[n].at, 1
  {
    if l[n].child != null {
      IntervalOfSiblings(l, order, l[n].child, n);
    }
  }

  lemma {:induction false} IntervalOfSiblings<T>(l: Layout<T>, order: seq<TreeNode<T>>, c: TreeNode<T>, p: TreeNode<T>)
    requires WellLinked(l, order) && c in l && p in l && l[c].parent == p
    requires l[p].End() <= |order| && NodeOk(l, order, c)
    ensures Siblings(l, order, c, l[c].at) == order[l[c].at..l[p].End()]
    decreases |order| - l[c].at, 2
  {
    IntervalIsPreorder(l, order, c);
    if l[c].next != null {
      assert NodeOk(l, order, l[c].next);
      IntervalOfSiblings(l, order, l[c].next, p);
    }
  }

  /** The preorder of the whole tree is the order in which its nodes stand. */
  lemma WholePreorder<T>(l: Layout<T>, order: seq<TreeNode<T>>)
    requires WellLinked(l, order) && order != []
    ensures Preorder(l, order, order[0]) == order
  {
    assert NodeOk(l, order, order[0]);
    IntervalIsPreorder(l, order, order[0]);
  }

  // --------------------------------------------------------------- insert

  /** The layout after a new node has been put at position `pos`, as a child of `p`, behind
      its sibling `prev` if there is one. */
  ghost function Shifted<T>(i: Info<T>, p: Info<T>, pos: nat): Info<T> {
    i.(at := if i.at >= pos then i.at + 1 else i.at,
       size := if i.at <= p.at < i.End() then i.size + 1 else i.size)
  }

  ghost function Relinked<T>(i: Info<T>, isParent: bool, isPrev: bool, isNext: bool, first: bool, node: TreeNode<T>): Info<T> {
    i.(count := if isParent then i.count + 1 else i.count,
       child := if isParent && first then node else i.child,
       next := if isPrev then node else i.next,
       prev := if isNext then node else i.prev)
  }

  ghost function InsertNode<T>(l: Layout<T>, p: TreeNode<T>, prev: TreeNode?<T>, pos: nat, node: TreeNode<T>): Layout<T>
    requires p in l && (prev != null ==> prev in l)
  {
    var next := if prev == null then null else l[prev].next;
    (map m | m in l :: Relinked(Shifted(l[m], l[p], pos), m == p, m == prev, m == next, prev == null, node))
    [node := Info(pos, 1, p, prev, next, null, 0)]
  }

  /** A place for a new child: behind one of the children, or at the end of a childless node. */
  ghost predicate Place<T>(l: Layout<T>, order: seq<TreeNode<T>>, p: TreeNode<T>, prev: TreeNode?<T>, pos: nat)
  {
    && WellLinked(l, order) && p in l && pos <= |order|
    && (if prev == null then l[p].child == null && pos == l[p].End()
        else prev in l && l[prev].parent == p && pos == l[prev].End())
  }

  lemma PlaceFacts<T>(l: Layout<T>, order: seq<TreeNode<T>>, p: TreeNode<T>, prev: TreeNode?<T>, pos: nat, m: TreeNode<T>)
    requires Place(l, order, p, prev, pos) && m in l
    ensures NodeOk(l, order, m) && NodeOk(l, order, p)
    ensures l[p].at < pos <= l[p].End()
    ensures prev != null ==> NodeOk(l, order, prev) && PairOk(l, prev, m) && PairOk(l, m, prev)
    ensures l[m].at <= l[p].at < l[m].End() ==> pos <= l[m].End()
    ensures !(l[m].at <= l[p].at < l[m].End()) && l[m].at < pos ==> l[m].End() <= pos
  {
    assert NodeOk(l, order, m) && NodeOk(l, order, p);
    assert PairOk(l, m, p) && PairOk(l, p, m);
    if prev != null {
      assert NodeOk(l, order, prev);
      assert PairOk(l, m, prev) && PairOk(l, prev, m);
    }
  }

  ghost function Inserted<T>(order: seq<TreeNode<T>>, pos: nat, node: TreeNode<T>): seq<TreeNode<T>>
    requires pos <= |order|
  {
    order[..pos] + [node] + order[pos..]
  }

  lemma AtIsInjective<T>(l: Layout<T>, order: seq<TreeNode<T>>, a: TreeNode<T>, b: TreeNode<T>)
    requires WellLinked(l, order) && a in l && b in l && l[a].at == l[b].at
    ensures a == b
  {
    assert NodeOk(l, order, a) && NodeOk(l, order, b);
  }

  lemma InsertChildOk<T>(l: Layout<T>, order: seq<TreeNode<T>>, p: TreeNode<T>, prev: TreeNode?<T>, pos: nat, node: TreeNode<T>, m: TreeNode<T>)
    requires Place(l, order, p, prev, pos) && node !in l && m in l
    ensures ChildOk(InsertNode(l, p, prev, pos, node), m)
  {
    PlaceFacts(l, order, p, prev, pos, m);
    if l[m].at == l[p].at {
      AtIsInjective(l, order, m, p);
    }
    if l[m].child != null {
      PlaceFacts(l, order, p, prev, pos, l[m].child);
    }
  }

  lemma InsertNextOk<T>(l: Layout<T>, order: seq<TreeNode<T>>, p: TreeNode<T>, prev: TreeNode?<T>, pos: nat, node: TreeNode<T>, m: TreeNode<T>)
    requires Place(l, order, p, prev, pos) && node !in l && m in l
    ensures NextOk(InsertNode(l, p, prev, pos, node), m)
  {
    PlaceFacts(l, order, p, prev, pos, m);
    if l[m].next != null {
      PlaceFacts(l, order, p, prev, pos, l[m].next);
      PlaceFacts(l, order, p, prev, pos, l[m].parent);
      if prev != null && l[m].at == l[prev].at {
        AtIsInjective(l, order, m, prev);
      }
      assert l[l[m].next].End() <= l[l[m].parent].End();
    }
  }

  lemma InsertPrevOk<T>(l: Layout<T>, order: seq<TreeNode<T>>, p: TreeNode<T>, prev: TreeNode?<T>, pos: nat, node: TreeNode<T>, m: TreeNode<T>)
    requires Place(l, order, p, prev, pos) && node !in l && m in l
    ensures PrevOk(InsertNode(l, p, prev, pos, node), m)
  {
    PlaceFacts(l, order, p, prev, pos, m);
    if l[m].prev != null {
      assert NodeOk(l, order, l[m].prev);
    }
    if l[m].parent != null {
      assert NodeOk(l, order, l[m].parent);
    }
  }

  lemma InsertParentOk<T>(l: Layout<T>, order: seq<TreeNode<T>>, p: TreeNode<T>, prev: TreeNode?<T>, pos: nat, node: TreeNode<T>, m: TreeNode<T>)
    requires Place(l, order, p, prev, pos) && node !in l && m in l
    ensures ParentOk(InsertNode(l, p, prev, pos, node), Inserted(order, pos, node), m)
  {
    PlaceFacts(l, order, p, prev, pos, m);
    if l[m].parent != null {
      PlaceFacts(l, order, p, prev, pos, l[m].parent);
    }
  }

  lemma InsertLastOk<T>(l: Layout<T>, order: seq<TreeNode<T>>, p: TreeNode<T>, prev: TreeNode?<T>, pos: nat, node: TreeNode<T>, m: TreeNode<T>)
    requires Place(l, order, p, prev, pos) && node !in l && m in l
    ensures LastOk(InsertNode(l, p, prev, pos, node), m)
  {
    PlaceFacts(l, order, p, prev, pos, m);
    if l[m].parent != null {
      PlaceFacts(l, order, p, prev, pos, l[m].parent);
    }
    if prev != null && l[m].at == l[prev].at {
      AtIsInjective(l, order, m, prev);
    }
  }

  lemma InsertNewOk<T>(l: Layout<T>, order: seq<TreeNode<T>>, p: TreeNode<T>, prev: TreeNode?<T>, pos: nat, node: TreeNode<T>)
    requires Place(l, order, p, prev, pos) && node !in l
    ensures var l' := InsertNode(l, p, prev, pos, node);
      && ChildOk(l', node) && NextOk(l', node) && PrevOk(l', node)
      && ParentOk(l', Inserted(order, pos, node), node) && LastOk(l', node)
  {
    PlaceFacts(l, order, p, prev, pos, p);
    if prev != null && l[prev].next != null {
      PlaceFacts(l, order, p, prev, pos, l[prev].next);
    }
  }

  lemma PairIsOk<T>(l: Layout<T>, order: seq<TreeNode<T>>, a: TreeNode<T>, b: TreeNode<T>)
    requires WellLinked(l, order) && a in l && b in l
    ensures PairOk(l, a, b)
  {
  }

  lemma InsertShifts<T>(l: Layout<T>, p: TreeNode<T>, prev: TreeNode?<T>, pos: nat, node: TreeNode<T>, m: TreeNode<T>)
    requires p in l && (prev != null ==> prev in l) && node !in l && m in l
    ensures m in InsertNode(l, p, prev, pos, node)
    ensures var i := InsertNode(l, p, prev, pos, node)[m];
      i.at == Shifted(l[m], l[p], pos).at && i.size == Shifted(l[m], l[p], pos).size && i.parent == l[m].parent
  {
  }

  lemma InsertPairOk<T>(l: Layout<T>, order: seq<TreeNode<T>>, p: TreeNode<T>, prev: TreeNode?<T>, pos: nat, node: TreeNode<T>,
                        a: TreeNode<T>, b: TreeNode<T>)
    requires Place(l, order, p, prev, pos) && node !in l && a in l && b in l
    ensures a in InsertNode(l, p, prev, pos, node) && b in InsertNode(l, p, prev, pos, node)
    ensures PairOk(InsertNode(l, p, prev, pos, node), a, b)
  {
    hide ChildOk, NextOk, PrevOk, LastOk, Kids, WellLinked, InsertNode;
    InsertShifts(l, p, prev, pos, node, a);
    InsertShifts(l, p, prev, pos, node, b);
    PlaceFacts(l, order, p, prev, pos, a);
    PlaceFacts(l, order, p, prev, pos, b);
    PairIsOk(l, order, a, b);
    if l[b].parent != null {
      PlaceFacts(l, order, p, prev, pos, l[b].parent);
      InsertShifts(l, p, prev, pos, node, l[b].parent);
    }
  }

  lemma InsertPairNewOk<T>(l: Layout<T>, order: seq<TreeNode<T>>, p: TreeNode<T>, prev: TreeNode?<T>, pos: nat, node: TreeNode<T>, m: TreeNode<T>)
    requires Place(l, order, p, prev, pos) && node !in l && m in l
    ensures var l' := InsertNode(l, p, prev, pos, node);
      PairOk(l', m, node) && PairOk(l', node, m)
  {
    PlaceFacts(l, order, p, prev, pos, m);
  }

  lemma InsertKids<T>(l: Layout<T>, order: seq<TreeNode<T>>, p: TreeNode<T>, prev: TreeNode?<T>, pos: nat, node: TreeNode<T>, m: TreeNode<T>)
    requires Place(l, order, p, prev, pos) && node !in l && (m in l || m == node)
    ensures var l' := InsertNode(l, p, prev, pos, node);
      |Kids(l', m)| == (if m == node then 0 else |Kids(l, m)|) + (if m == p then 1 else 0)
  {
    var l' := InsertNode(l, p, prev, pos, node);
    if m == node {
      forall k | k in l ensures l[k].parent != node {
        assert NodeOk(l, order, k);
      }
      assert Kids(l', m) == {};
    } else if m == p {
      assert Kids(l', m) == Kids(l, m) + {node};
    } else {
      assert Kids(l', m) == Kids(l, m);
    }
  }

  lemma InsertNodeOk<T>(l: Layout<T>, order: seq<TreeNode<T>>, p: TreeNode<T>, prev: TreeNode?<T>, pos: nat, node: TreeNode<T>, m: TreeNode<T>)
    requires Place(l, order, p, prev, pos) && node !in l && (m in l || m == node)
    ensures NodeOk(InsertNode(l, p, prev, pos, node), Inserted(order, pos, node), m)
  {
    hide ChildOk, NextOk, PrevOk, ParentOk, LastOk, Kids;
    InsertKids(l, order, p, prev, pos, node, m);
    if m == node {
      InsertNewOk(l, order, p, prev, pos, node);
    } else {
      PlaceFacts(l, order, p, prev, pos, m);
      InsertChildOk(l, order, p, prev, pos, node, m);
      InsertNextOk(l, order, p, prev, pos, node, m);
      InsertPrevOk(l, order, p, prev, pos, node, m);
      InsertParentOk(l, order, p, prev, pos, node, m);
      InsertLastOk(l, order, p, prev, pos, node, m);
    }
  }

  lemma InsertOrderOk<T>(l: Layout<T>, order: seq<TreeNode<T>>, p: TreeNode<T>, prev: TreeNode?<T>, pos: nat, node: TreeNode<T>, k: nat)
    requires Place(l, order, p, prev, pos) && node !in l && k <= |order|
    ensures var l', order' := InsertNode(l, p, prev, pos, node), Inserted(order, pos, node);
      order'[k] in l' && l'[order'[k]].at == k
  {
    if k != pos {
      assert order[if k < pos then k else k - 1] in l;
    }
  }

  /** Inserting a node keeps the tree well linked; in the preorder it comes behind its
      siblings and all that hangs below them. */
  lemma InsertKeepsLinked<T>(l: Layout<T>, order: seq<TreeNode<T>>, p: TreeNode<T>, prev: TreeNode?<T>, pos: nat, node: TreeNode<T>)
    requires Place(l, order, p, prev, pos) && node !in l
    ensures WellLinked(InsertNode(l, p, prev, pos, node), Inserted(order, pos, node))
  {
    hide NodeOk, PairOk, Place;
    InsertPlace(l, order, p, prev, pos);
    var l', order' := InsertNode(l, p, prev, pos, node), Inserted(order, pos, node);
    InsertKeys(l, p, prev, pos, node);
    forall m | m in l' ensures NodeOk(l', order', m) {
      InsertNodeOk(l, order, p, prev, pos, node, m);
    }
    forall a, b | a in l' && b in l' ensures PairOk(l', a, b) {
      InsertAnyPairOk(l, order, p, prev, pos, node, a, b);
    }
    forall k | 0 <= k < |order'| ensures order'[k] in l' && l'[order'[k]].at == k {
      InsertOrderOk(l, order, p, prev, pos, node, k);
    }
  }

  lemma InsertPlace<T>(l: Layout<T>, order: seq<TreeNode<T>>, p: TreeNode<T>, prev: TreeNode?<T>, pos: nat)
    requires Place(l, order, p, prev, pos)
    ensures pos <= |order| && p in l && (prev != null ==> prev in l)
  {
  }

  lemma InsertKeys<T>(l: Layout<T>, p: TreeNode<T>, prev: TreeNode?<T>, pos: nat, node: TreeNode<T>)
    requires p in l && (prev != null ==> prev in l)
    ensures InsertNode(l, p, prev, pos, node).Keys == l.Keys + {node}
  {
  }

  lemma InsertAnyPairOk<T>(l: Layout<T>, order: seq<TreeNode<T>>, p: TreeNode<T>, prev: TreeNode?<T>, pos: nat, node: TreeNode<T>,
                           a: TreeNode<T>, b: TreeNode<T>)
    requires Place(l, order, p, prev, pos) && node !in l && (a in l || a == node) && (b in l || b == node)
    ensures PairOk(InsertNode(l, p, prev, pos, node), a, b)
  {
    if a != node && b != node {
      InsertPairOk(l, order, p, prev, pos, node, a, b);
    } else if a != node {
      InsertPairNewOk(l, order, p, prev, pos, node, a);
    } else if b != node {
      InsertPairNewOk(l, order, p, prev, pos, node, b);
    }
  }

  // ---------------------------------------------------------------- erase

  ghost predicate Inside<T>(l: Layout<T>, n: TreeNode<T>, m: TreeNode<T>)
    requires n in l && m in l
  {
    l[n].at <= l[m].at < l[n].End()
  }

  /** The layout without the subtree of `n`, a child of `p`. */
  ghost function EraseSubtree<T>(l: Layout<T>, p: TreeNode<T>, n: TreeNode<T>): Layout<T>
    requires p in l && n in l
  {
    var prev, next, from, k := l[n].prev, l[n].next, l[n].at, l[n].size;
    map m | m in l && !Inside(l, n, m) ::
      l[m].(at := if l[m].at >= from + k then l[m].at - k else l[m].at,
            size := if l[m].at <= l[p].at < l[m].End() && l[m].size >= k then l[m].size - k else l[m].size,
            count := if m == p && l[m].count > 0 then l[m].count - 1 else l[m].count,
            child := if m == p && prev == null then next else l[m].child,
            next := if m == prev then next else l[m].next,
            prev := if m == next then prev else l[m].prev)
  }

  ghost predicate Below<T>(l: Layout<T>, order: seq<TreeNode<T>>, p: TreeNode<T>, n: TreeNode<T>) {
    WellLinked(l, order) && n in l && p in l && l[n].parent == p
  }

  lemma EraseFacts<T>(l: Layout<T>, order: seq<TreeNode<T>>, p: TreeNode<T>, n: TreeNode<T>, m: TreeNode<T>)
    requires Below(l, order, p, n) && m in l
    ensures NodeOk(l, order, m) && NodeOk(l, order, p) && NodeOk(l, order, n)
    ensures PairOk(l, n, m) && PairOk(l, m, n) && PairOk(l, m, p)
    ensures !Inside(l, n, m) && l[m].at <= l[p].at < l[m].End() ==>
      l[n].End() <= l[m].End() && l[m].at < l[n].at && l[m].size > l[n].size
    ensures !Inside(l, n, m) && !(l[m].at <= l[p].at < l[m].End()) ==>
      l[m].End() <= l[n].at || l[n].End() <= l[m].at
    ensures !Inside(l, n, p) && (m == n || l[m].at != l[n].at)
    ensures !Inside(l, n, m) && l[m].parent != null ==> !Inside(l, n, l[m].parent)
    ensures Inside(l, n, m) && m != n ==> l[m].parent != null && Inside(l, n, l[m].parent)
  {
    assert NodeOk(l, order, m) && NodeOk(l, order, p) && NodeOk(l, order, n);
    assert PairOk(l, n, m) && PairOk(l, m, n) && PairOk(l, m, p) && PairOk(l, p, m);
    if l[m].parent != null {
      assert NodeOk(l, order, l[m].parent);
      assert PairOk(l, n, l[m].parent) && PairOk(l, l[m].parent, n);
    }
  }

  ghost function Erased<T>(order: seq<TreeNode<T>>, from: nat, k: nat): seq<TreeNode<T>>
    requires from + k <= |order|
  {
    order[..from] + order[from + k..]
  }

  lemma EraseChildOk<T>(l: Layout<T>, order: seq<TreeNode<T>>, p: TreeNode<T>, n: TreeNode<T>, m: TreeNode<T>)
    requires Below(l, order, p, n) && m in l && !Inside(l, n, m)
    ensures ChildOk(EraseSubtree(l, p, n), m)
  {
    EraseFacts(l, order, p, n, m);
    if l[m].child != null {
      EraseFacts(l, order, p, n, l[m].child);
    }
    if l[n].next != null {
      EraseFacts(l, order, p, n, l[n].next);
    }
    if l[n].prev != null {
      EraseFacts(l, order, p, n, l[n].prev);
    }
    if l[m].at == l[p].at {
      AtIsInjective(l, order, m, p);
    }
  }

  lemma EraseNextOk<T>(l: Layout<T>, order: seq<TreeNode<T>>, p: TreeNode<T>, n: TreeNode<T>, m: TreeNode<T>)
    requires Below(l, order, p, n) && m in l && !Inside(l, n, m)
    ensures NextOk(EraseSubtree(l, p, n), m)
  {
    EraseFacts(l, order, p, n, m);
    if l[m].next != null {
      EraseFacts(l, order, p, n, l[m].next);
    }
    if l[n].next != null {
      EraseFacts(l, order, p, n, l[n].next);
    }
  }

  lemma ErasePrevOk<T>(l: Layout<T>, order: seq<TreeNode<T>>, p: TreeNode<T>, n: TreeNode<T>, m: TreeNode<T>)
    requires Below(l, order, p, n) && m in l && !Inside(l, n, m)
    ensures PrevOk(EraseSubtree(l, p, n), m)
  {
    EraseFacts(l, order, p, n, m);
    if l[m].prev != null {
      EraseFacts(l, order, p, n, l[m].prev);
    }
    if l[n].prev != null {
      EraseFacts(l, order, p, n, l[n].prev);
    }
  }

  lemma EraseParentOk<T>(l: Layout<T>, order: seq<TreeNode<T>>, p: TreeNode<T>, n: TreeNode<T>, m: TreeNode<T>)
    requires Below(l, order, p, n) && m in l && !Inside(l, n, m) && l[n].End() <= |order|
    ensures ParentOk(EraseSubtree(l, p, n), Erased(order, l[n].at, l[n].size), m)
  {
    EraseFacts(l, order, p, n, m);
    if l[m].parent != null {
      EraseFacts(l, order, p, n, l[m].parent);
    }
  }

  lemma EraseLastOk<T>(l: Layout<T>, order: seq<TreeNode<T>>, p: TreeNode<T>, n: TreeNode<T>, m: TreeNode<T>)
    requires Below(l, order, p, n) && m in l && !Inside(l, n, m)
    ensures LastOk(EraseSubtree(l, p, n), m)
  {
    EraseFacts(l, order, p, n, m);
    if l[m].parent != null {
      EraseFacts(l, order, p, n, l[m].parent);
    }
    if l[n].prev != null {
      EraseFacts(l, order, p, n, l[n].prev);
    }
  }

  lemma ErasePairOk<T>(l: Layout<T>, order: seq<TreeNode<T>>, p: TreeNode<T>, n: TreeNode<T>, a: TreeNode<T>, b: TreeNode<T>)
    requires Below(l, order, p, n) && a in l && b in l && !Inside(l, n, a) && !Inside(l, n, b)
    ensures PairOk(EraseSubtree(l, p, n), a, b)
  {
    hide ChildOk, NextOk, PrevOk, LastOk, Kids, WellLinked;
    EraseFacts(l, order, p, n, a);
    EraseFacts(l, order, p, n, b);
    PairIsOk(l, order, a, b);
    if l[b].parent != null {
      EraseFacts(l, order, p, n, l[b].parent);
    }
  }

  lemma EraseKids<T>(l: Layout<T>, order: seq<TreeNode<T>>, p: TreeNode<T>, n: TreeNode<T>, m: TreeNode<T>)
    requires Below(l, order, p, n) && m in l && !Inside(l, n, m)
    ensures |Kids(EraseSubtree(l, p, n), m)| == |Kids(l, m)| - (if m == p then 1 else 0)
  {
    var l' := EraseSubtree(l, p, n);
    forall k | k in l && l[k].parent == m && k != n ensures !Inside(l, n, k) {
      EraseFacts(l, order, p, n, k);
    }
    EraseFacts(l, order, p, n, n);
    assert Kids(l', m) == Kids(l, m) - {n};
  }

  lemma EraseNodeOk<T>(l: Layout<T>, order: seq<TreeNode<T>>, p: TreeNode<T>, n: TreeNode<T>, m: TreeNode<T>)
    requires Below(l, order, p, n) && m in l && !Inside(l, n, m) && l[n].End() <= |order|
    ensures NodeOk(EraseSubtree(l, p, n), Erased(order, l[n].at, l[n].size), m)
  {
    hide ChildOk, NextOk, PrevOk, ParentOk, LastOk, Kids;
    EraseFacts(l, order, p, n, m);
    EraseKids(l, order, p, n, m);
    EraseChildOk(l, order, p, n, m);
    EraseNextOk(l, order, p, n, m);
    ErasePrevOk(l, order, p, n, m);
    EraseParentOk(l, order, p, n, m);
    EraseLastOk(l, order, p, n, m);
  }

  lemma EraseOrderOk<T>(l: Layout<T>, order: seq<TreeNode<T>>, p: TreeNode<T>, n: TreeNode<T>, k: nat)
    requires Below(l, order, p, n) && l[n].End() <= |order| && k < |order| - l[n].size
    ensures var l', order' := EraseSubtree(l, p, n), Erased(order, l[n].at, l[n].size);
      order'[k] in l' && l'[order'[k]].at == k
  {
    var m := order[if k < l[n].at then k else k + l[n].size];
    assert m in l;
  }

  /** Erasing a subtree keeps the rest well linked; from the preorder it takes the stretch
      that was the subtree. */
  lemma EraseKeepsLinked<T>(l: Layout<T>, order: seq<TreeNode<T>>, p: TreeNode<T>, n: TreeNode<T>)
    requires Below(l, order, p, n) && l[n].End() <= |order|
    ensures WellLinked(EraseSubtree(l, p, n), Erased(order, l[n].at, l[n].size))
  {
    hide NodeOk, PairOk;
    var l', order' := EraseSubtree(l, p, n), Erased(order, l[n].at, l[n].size);
    forall m | m in l' ensures NodeOk(l', order', m) {
      EraseNodeOk(l, order, p, n, m);
    }
    forall a, b | a in l' && b in l' ensures PairOk(l', a, b) {
      ErasePairOk(l, order, p, n, a, b);
    }
    forall k | 0 <= k < |order'| ensures order'[k] in l' && l'[order'[k]].at == k {
      EraseOrderOk(l, order, p, n, k);
    }
  }
}
